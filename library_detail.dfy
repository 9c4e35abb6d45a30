/** The library detail panel (src/components/library-detail.tsx): the ordered
    metadata rows shown beside a library and the markdown body above them.

    The helpers the panel imports from its utilities module, number
    formatting with `toLocaleString` and the scoring page URL are not part of
    this model; they are passed in as a `Helpers` value, so every property
    below holds whatever those helpers compute. */
module LibraryDetail {
  import opened Js
  import Types
  import NpmRegistry

  type Library = Types.Library

  /** How a tag item is emphasised. `Hot` is the Bolt icon in orange,
      `Muted` the line-chart icon in the secondary text colour; every other
      item is `Regular` (its icon and colour are not modelled). */
  datatype Accent = Regular | Hot | Muted

  /** The tabs of a package's page on npmjs.com that the panel opens. */
  datatype NpmTab = Overview | DependencyTab | CodeTab

  /** The pages of a GitHub repository that the panel opens. */
  datatype RepositorySection = Stargazers | NetworkMembers | WatcherList | IssueList

  /** What a tag's action opens in the browser. */
  datatype Target =
    | ScoringPage
    | NpmPage(npmPkg: string, tab: NpmTab)
    | RepositoryPage(repo: string, section: RepositorySection)
    | Address(url: string)

  /** One tag: its text (absent when the source value is `undefined`), its
      accent and what its action opens, if it has one. */
  datatype Item = Item(text: Option<string>, accent: Accent, target: Option<Target>)

  /** The title a row carries. A separator has none; `Divider` stands for it. */
  datatype Heading =
    | Divider
    | Compatibility | Platforms | ModuleType | Popularity | Author
    | Website | Examples | NativeCode | TypeScriptTypes | ConfigPlugin | License
    | DirectoryScore | Updated | MonthlyDownloads | Stars | Dependencies(count: int) | PackageSize
    | Forks | Watchers | Issues | Topics

  /** The title as displayed; every row but a separator has a visible title. */
  function HeadingText(hd: Heading): (title: string)
    ensures title == "" <==> hd == Divider
  {
    match hd
    case Divider => ""
    case Compatibility => "Compatibility"
    case Platforms => "Platforms"
    case ModuleType => "Module Type"
    case Popularity => "Popularity"
    case Author => "Author"
    case Website => "Website"
    case Examples => "Examples"
    case NativeCode => "Native Code"
    case TypeScriptTypes => "TypeScript Types"
    case ConfigPlugin => "Config Plugin"
    case License => "License"
    case DirectoryScore => "Directory Score"
    case Updated => "Updated"
    case MonthlyDownloads => "Monthly Downloads"
    case Stars => "Stars"
    case Dependencies(count) => if count == 1 then "Dependency" else "Dependencies"
    case PackageSize => "Package Size"
    case Forks => "Forks"
    case Watchers => "Watchers"
    case Issues => "Issues"
    case Topics => "Topics"
  }

  /** One entry of the metadata column. */
  datatype Row =
    | TagList(heading: Heading, items: seq<Item>)
    | Label(heading: Heading, text: Option<string>)
    | Link(heading: Heading, linkText: string, url: string)
    | Separator

  /** What the popularity helper reports. */
  datatype PopularityLabel = PopularityLabel(text: string, isHot: bool)

  /** The helpers the panel calls but that are not part of this model. */
  datatype Helpers = Helpers(
    compatibilityTags: Library -> seq<string>,
    supportedPlatforms: Library -> seq<string>,
    moduleTypeLabel: Library -> seq<string>,
    popularityLabel: Option<int> -> PopularityLabel,
    hasConfigPlugin: Library -> bool,
    formatBytes: int -> string,
    timeSinceToday: Types.Timestamp -> string,
    localeString: int -> string,
    scoringUrl: string)

  function HeadingOf(r: Row): Heading {
    if r.Separator? then Divider else r.heading
  }

  /** The headings of a column, in order. */
  function Headings(rows: seq<Row>): (hs: seq<Heading>)
    ensures |hs| == |rows|
    ensures forall i :: 0 <= i < |rows| ==> hs[i] == HeadingOf(rows[i])
  {
    seq(|rows|, i requires 0 <= i < |rows| => HeadingOf(rows[i]))
  }

  lemma HeadingsAppend(a: seq<Row>, b: seq<Row>)
    ensures Headings(a + b) == Headings(a) + Headings(b)
  {
  }

  /** `[hd]` when `b` holds, `[]` otherwise. */
  function When(b: bool, hd: Heading): (r: seq<Heading>)
    ensures forall x :: x in r <==> b && x == hd
  {
    if b then [hd] else []
  }

  // ---------------------------------------------------------------------
  // Tag groups, popularity and author (lines 26-58).
  // ---------------------------------------------------------------------

  /** One regular item per tag, in the order of the tags. */
  function PlainTags(tags: seq<string>): (items: seq<Item>)
    ensures |items| == |tags|
  {
    seq(|tags|, k requires 0 <= k < |tags| => Item(Some(tags[k]), Regular, None))
  }

  /** A tag group that is left out when it would have no tags. */
  function TagGroupIfAny(hd: Heading, tags: seq<string>): seq<Row> {
    if |tags| > 0 then [TagList(hd, PlainTags(tags))] else []
  }

  function PopularityRow(p: PopularityLabel): Row {
    TagList(Popularity, [Item(Some(p.text), if p.isHot then Hot else Muted, None)])
  }

  function AuthorRows(authorName: Option<string>): seq<Row> {
    if TruthyString(authorName) then [Label(Author, authorName)] else []
  }

  /** Compatibility, platforms and module type. */
  function TagGroups(lib: Library, h: Helpers): seq<Row> {
    TagGroupIfAny(Compatibility, h.compatibilityTags(lib))
    + [TagList(Platforms, PlainTags(h.supportedPlatforms(lib)))]
    + TagGroupIfAny(ModuleType, h.moduleTypeLabel(lib))
  }

  /** Popularity and author. */
  function Standing(lib: Library, authorName: Option<string>, h: Helpers): seq<Row> {
    [PopularityRow(h.popularityLabel(lib.popularity))] + AuthorRows(authorName)
  }

  // ---------------------------------------------------------------------
  // Website, examples, capability labels and license (lines 62-92).
  // ---------------------------------------------------------------------

  /** The text of an example's tag: its position counted from one. */
  function ExampleLabel(index: nat): string {
    "#" + NatToString(index + 1)
  }

  function ExampleItems(examples: seq<string>): (items: seq<Item>)
    ensures |items| == |examples|
  {
    seq(|examples|, k requires 0 <= k < |examples| => Item(Some(ExampleLabel(k)), Regular, Some(Address(examples[k]))))
  }

  predicate ShowsLicense(lib: Library) {
    lib.github.license.Some? && lib.github.license.value.name != ""
  }

  /** The license label's text: "Other" is shown as "Unrecognized License". */
  function LicenseText(name: string): string {
    if name == "Other" then "Unrecognized License" else name
  }

  function WebsiteRows(lib: Library): seq<Row> {
    var homepage := lib.github.urls.homepage;
    if TruthyString(homepage) then [Link(Website, homepage.value, homepage.value)] else []
  }

  function ExampleRows(lib: Library): seq<Row> {
    if HasElements(lib.examples) then [TagList(Examples, ExampleItems(lib.examples.value))] else []
  }

  function LicenseRows(lib: Library): seq<Row> {
    if ShowsLicense(lib) then [Label(License, Some(LicenseText(lib.github.license.value.name)))] else []
  }

  /** Website, examples, native code, types, config plugin and license. */
  function Facts(lib: Library, h: Helpers): seq<Row> {
    WebsiteToNativeCode(lib)
    + (if lib.github.hasTypes == Some(true) then [Label(TypeScriptTypes, None)] else [])
    + (if h.hasConfigPlugin(lib) then [Label(ConfigPlugin, None)] else [])
    + LicenseRows(lib)
  }

  // ---------------------------------------------------------------------
  // Statistics (lines 96-168).
  // ---------------------------------------------------------------------

  function NpmPackageUrl(npmPkg: string): string {
    "https://www.npmjs.com/package/" + npmPkg
  }

  /** The URL a target opens; the scoring page's URL is a constant this
      model takes as a parameter. */
  function TargetUrl(t: Target, scoringUrl: string): (url: string)
    ensures t.NpmPage? ==> NpmPackageUrl(t.npmPkg) <= url
    ensures t.RepositoryPage? ==> t.repo + "/" <= url
  {
    match t
    case ScoringPage => scoringUrl
    case NpmPage(npmPkg, tab) =>
      NpmPackageUrl(npmPkg) + (match tab
        case Overview => ""
        case DependencyTab => "?activeTab=dependencies"
        case CodeTab => "?activeTab=code")
    case RepositoryPage(repo, section) =>
      repo + (match section
        case Stargazers => "/stargazers"
        case NetworkMembers => "/network/members"
        case WatcherList => "/watchers"
        case IssueList => "/issues")
    case Address(url) => url
  }

  /** The npm targets open pages of the package's own npm page, the
      repository targets pages under the repository's URL, and different
      tabs or sections of one package or repository are different URLs. */
  lemma TargetUrlsDistinct(npmPkg: string, repo: string, scoringUrl: string)
    ensures forall tab :: NpmPackageUrl(npmPkg) <= TargetUrl(NpmPage(npmPkg, tab), scoringUrl)
    ensures forall section :: repo + "/" <= TargetUrl(RepositoryPage(repo, section), scoringUrl)
    ensures forall t1, t2 :: TargetUrl(NpmPage(npmPkg, t1), scoringUrl) == TargetUrl(NpmPage(npmPkg, t2), scoringUrl) ==> t1 == t2
    ensures forall s1, s2 :: TargetUrl(RepositoryPage(repo, s1), scoringUrl) == TargetUrl(RepositoryPage(repo, s2), scoringUrl) ==> s1 == s2
  {
  }

  /** A tag group holding one regular item. */
  function Stat(hd: Heading, text: Option<string>, target: Option<Target>): Row {
    TagList(hd, [Item(text, Regular, target)])
  }

  function ScoreText(score: int): string {
    IntToString(score) + " / 100"
  }

  /** The monthly download count, or `undefined` when npm data or the count is missing. */
  function DownloadsText(lib: Library, h: Helpers): Option<string> {
    if lib.npm.Some? && lib.npm.value.downloads.Some? then Some(h.localeString(lib.npm.value.downloads.value)) else None
  }

  function DependencyRows(lib: Library, h: Helpers): seq<Row> {
    match lib.github.stats.dependencies
    case None => []
    case Some(count) =>
      [Stat(Dependencies(count), Some(h.localeString(count)), Some(NpmPage(lib.npmPkg, DependencyTab)))]
  }

  predicate ShowsPackageSize(lib: Library) {
    lib.npm.Some? && TruthyNumber(lib.npm.value.size)
  }

  function PackageSizeRow(lib: Library, h: Helpers): Row
    requires lib.npm.Some? && lib.npm.value.size.Some?
  {
    Stat(PackageSize, Some(h.formatBytes(lib.npm.value.size.value)), Some(NpmPage(lib.npmPkg, CodeTab)))
  }

  /** The package size group, left out when the size is missing or zero. */
  function PackageSizeRows(lib: Library, h: Helpers): seq<Row> {
    if ShowsPackageSize(lib) then [PackageSizeRow(lib, h)] else []
  }

  function LeadingStats(lib: Library, h: Helpers): seq<Row> {
    [ Stat(DirectoryScore, Some(ScoreText(lib.score)), Some(ScoringPage)),
      Stat(Updated, Some(h.timeSinceToday(lib.github.stats.updatedAt)), None),
      Stat(MonthlyDownloads, DownloadsText(lib, h), Some(NpmPage(lib.npmPkg, Overview))),
      Stat(Stars, Some(h.localeString(lib.github.stats.stars)), Some(RepositoryPage(lib.github.urls.repo, Stargazers))) ]
  }

  function TrailingStats(lib: Library, h: Helpers): seq<Row> {
    var repo := lib.github.urls.repo;
    [ Stat(Forks, Some(h.localeString(lib.github.stats.forks)), Some(RepositoryPage(repo, NetworkMembers))),
      Stat(Watchers, Some(h.localeString(lib.github.stats.subscribers)), Some(RepositoryPage(repo, WatcherList))),
      Stat(Issues, Some(h.localeString(lib.github.stats.issues)), Some(RepositoryPage(repo, IssueList))) ]
  }

  /** Score, updated, downloads, stars, dependencies, size, forks, watchers, issues. */
  function Statistics(lib: Library, h: Helpers): seq<Row> {
    LeadingStats(lib, h) + DependencyRows(lib, h) + PackageSizeRows(lib, h) + TrailingStats(lib, h)
  }

  /** A separator and the topics, when there are topics (lines 170-179). */
  function TopicRows(lib: Library): seq<Row> {
    if HasElements(lib.github.topics) then [Separator, TagList(Topics, PlainTags(lib.github.topics.value))] else []
  }

  /** The whole metadata column, top to bottom. */
  function Metadata(lib: Library, authorName: Option<string>, h: Helpers): seq<Row> {
    TagGroups(lib, h) + [Separator]
    + Standing(lib, authorName, h) + [Separator]
    + Facts(lib, h) + [Separator]
    + Statistics(lib, h)
    + TopicRows(lib)
  }

  // ---------------------------------------------------------------------
  // The headings of each part of the column, stated outright.
  // ---------------------------------------------------------------------

  function TagGroupHeadings(lib: Library, h: Helpers): seq<Heading> {
    When(|h.compatibilityTags(lib)| > 0, Compatibility) + [Platforms] + When(|h.moduleTypeLabel(lib)| > 0, ModuleType)
  }

  function StandingHeadings(authorName: Option<string>): seq<Heading> {
    [Popularity] + When(TruthyString(authorName), Author)
  }

  function FactHeadings(lib: Library, h: Helpers): seq<Heading> {
    When(TruthyString(lib.github.urls.homepage), Website)
    + When(HasElements(lib.examples), Examples)
    + When(lib.github.hasNativeCode, NativeCode)
    + When(lib.github.hasTypes == Some(true), TypeScriptTypes)
    + When(h.hasConfigPlugin(lib), ConfigPlugin)
    + When(ShowsLicense(lib), License)
  }

  function StatisticHeadings(lib: Library): seq<Heading> {
    [DirectoryScore, Updated, MonthlyDownloads, Stars]
    + (match lib.github.stats.dependencies case None => [] case Some(n) => [Dependencies(n)])
    + When(ShowsPackageSize(lib), PackageSize)
    + [Forks, Watchers, Issues]
  }

  function TopicHeadings(lib: Library): seq<Heading> {
    if HasElements(lib.github.topics) then [Divider, Topics] else []
  }

  lemma TagGroupsHeadings(lib: Library, h: Helpers)
    ensures Headings(TagGroups(lib, h)) == TagGroupHeadings(lib, h)
  {
    var c := TagGroupIfAny(Compatibility, h.compatibilityTags(lib));
    var p := [TagList(Platforms, PlainTags(h.supportedPlatforms(lib)))];
    HeadingsAppend(c + p, TagGroupIfAny(ModuleType, h.moduleTypeLabel(lib)));
    HeadingsAppend(c, p);
  }

  lemma StandingHeadingsAgree(lib: Library, authorName: Option<string>, h: Helpers)
    ensures Headings(Standing(lib, authorName, h)) == StandingHeadings(authorName)
  {
    HeadingsAppend([PopularityRow(h.popularityLabel(lib.popularity))], AuthorRows(authorName));
  }

  lemma FactsHeadings(lib: Library, h: Helpers)
    ensures Headings(Facts(lib, h)) == FactHeadings(lib, h)
  {
    var w, e := WebsiteRows(lib), ExampleRows(lib);
    var n := if lib.github.hasNativeCode then [Label(NativeCode, None)] else [];
    var t := if lib.github.hasTypes == Some(true) then [Label(TypeScriptTypes, None)] else [];
    var c := if h.hasConfigPlugin(lib) then [Label(ConfigPlugin, None)] else [];
    var l := LicenseRows(lib);
    assert Headings(w) == When(TruthyString(lib.github.urls.homepage), Website);
    assert Headings(e) == When(HasElements(lib.examples), Examples);
    assert Headings(n) == When(lib.github.hasNativeCode, NativeCode);
    assert Headings(t) == When(lib.github.hasTypes == Some(true), TypeScriptTypes);
    assert Headings(c) == When(h.hasConfigPlugin(lib), ConfigPlugin);
    assert Headings(l) == When(ShowsLicense(lib), License);
    HeadingsAppend(w, e);
    HeadingsAppend(w + e, n);
    HeadingsAppend(w + e + n, t);
    HeadingsAppend(w + e + n + t, c);
    HeadingsAppend(w + e + n + t + c, l);
    assert Facts(lib, h) == w + e + n + t + c + l;
  }

  lemma StatisticsHeadings(lib: Library, h: Helpers)
    ensures Headings(Statistics(lib, h)) == StatisticHeadings(lib)
  {
    var l, d, s := LeadingStats(lib, h), DependencyRows(lib, h), PackageSizeRows(lib, h);
    HeadingsAppend(l + d + s, TrailingStats(lib, h));
    HeadingsAppend(l + d, s);
    HeadingsAppend(l, d);
  }

  // ---------------------------------------------------------------------
  // Properties of the metadata column.
  // ---------------------------------------------------------------------

  /** The headings of the column in order: which rows appear, under which
      conditions, between which separators. */
  lemma MetadataHeadings(lib: Library, authorName: Option<string>, h: Helpers)
    ensures Headings(Metadata(lib, authorName, h)) ==
      TagGroupHeadings(lib, h) + [Divider]
      + StandingHeadings(authorName) + [Divider]
      + FactHeadings(lib, h) + [Divider]
      + StatisticHeadings(lib)
      + TopicHeadings(lib)
  {
    var tg, st, fa, sx, tp := TagGroups(lib, h), Standing(lib, authorName, h), Facts(lib, h), Statistics(lib, h), TopicRows(lib);
    TagGroupsHeadings(lib, h);
    StandingHeadingsAgree(lib, authorName, h);
    FactsHeadings(lib, h);
    StatisticsHeadings(lib, h);
    assert Headings(tp) == TopicHeadings(lib);
    assert Headings([Separator]) == [Divider];
    HeadingsAppend(tg, [Separator]);
    HeadingsAppend(tg + [Separator], st);
    HeadingsAppend(tg + [Separator] + st, [Separator]);
    HeadingsAppend(tg + [Separator] + st + [Separator], fa);
    HeadingsAppend(tg + [Separator] + st + [Separator] + fa, [Separator]);
    HeadingsAppend(tg + [Separator] + st + [Separator] + fa + [Separator], sx);
    HeadingsAppend(tg + [Separator] + st + [Separator] + fa + [Separator] + sx, tp);
  }

  // ---------------------------------------------------------------------
  // The row drawn for each heading.
  // ---------------------------------------------------------------------

  /** The row the panel draws under each heading, read off the library the
      way the panel reads it. Where the guard of a heading fails the value it
      would read is missing; the empty default stands in, and the row is not
      drawn anyway. */
  function RowFor(lib: Library, authorName: Option<string>, h: Helpers, hd: Heading): Row {
    var repo, stats := lib.github.urls.repo, lib.github.stats;
    match hd
    case Divider => Separator
    case Compatibility => TagList(Compatibility, PlainTags(h.compatibilityTags(lib)))
    case Platforms => TagList(Platforms, PlainTags(h.supportedPlatforms(lib)))
    case ModuleType => TagList(ModuleType, PlainTags(h.moduleTypeLabel(lib)))
    case Popularity => PopularityRow(h.popularityLabel(lib.popularity))
    case Author => Label(Author, authorName)
    case Website => var url := UnwrapOr(lib.github.urls.homepage, ""); Link(Website, url, url)
    case Examples => TagList(Examples, ExampleItems(UnwrapOr(lib.examples, [])))
    case NativeCode => Label(NativeCode, None)
    case TypeScriptTypes => Label(TypeScriptTypes, None)
    case ConfigPlugin => Label(ConfigPlugin, None)
    case License =>
      Label(License, Some(LicenseText(if lib.github.license.Some? then lib.github.license.value.name else "")))
    case DirectoryScore => Stat(DirectoryScore, Some(ScoreText(lib.score)), Some(ScoringPage))
    case Updated => Stat(Updated, Some(h.timeSinceToday(stats.updatedAt)), None)
    case MonthlyDownloads => Stat(MonthlyDownloads, DownloadsText(lib, h), Some(NpmPage(lib.npmPkg, Overview)))
    case Stars => Stat(Stars, Some(h.localeString(stats.stars)), Some(RepositoryPage(repo, Stargazers)))
    case Dependencies(n) => Stat(Dependencies(n), Some(h.localeString(n)), Some(NpmPage(lib.npmPkg, DependencyTab)))
    case PackageSize =>
      var size := if lib.npm.Some? then UnwrapOr(lib.npm.value.size, 0) else 0;
      Stat(PackageSize, Some(h.formatBytes(size)), Some(NpmPage(lib.npmPkg, CodeTab)))
    case Forks => Stat(Forks, Some(h.localeString(stats.forks)), Some(RepositoryPage(repo, NetworkMembers)))
    case Watchers => Stat(Watchers, Some(h.localeString(stats.subscribers)), Some(RepositoryPage(repo, WatcherList)))
    case Issues => Stat(Issues, Some(h.localeString(stats.issues)), Some(RepositoryPage(repo, IssueList)))
    case Topics => TagList(Topics, PlainTags(UnwrapOr(lib.github.topics, [])))
  }

  /** The heading of the row drawn for a heading is that heading. */
  lemma RowForHeading(lib: Library, authorName: Option<string>, h: Helpers, hd: Heading)
    ensures HeadingOf(RowFor(lib, authorName, h, hd)) == hd
  {
  }

  /** When a row with each heading is shown: the condition guarding it in
      the panel, or true for the rows that are always there. */
  predicate Shown(lib: Library, authorName: Option<string>, h: Helpers, hd: Heading) {
    match hd
    case Divider => true
    case Compatibility => |h.compatibilityTags(lib)| > 0
    case Platforms => true
    case ModuleType => |h.moduleTypeLabel(lib)| > 0
    case Popularity => true
    case Author => TruthyString(authorName)
    case Website => TruthyString(lib.github.urls.homepage)
    case Examples => HasElements(lib.examples)
    case NativeCode => lib.github.hasNativeCode
    case TypeScriptTypes => lib.github.hasTypes == Some(true)
    case ConfigPlugin => h.hasConfigPlugin(lib)
    case License => ShowsLicense(lib)
    case DirectoryScore => true
    case Updated => true
    case MonthlyDownloads => true
    case Stars => true
    case Dependencies(n) => lib.github.stats.dependencies == Some(n)
    case PackageSize => ShowsPackageSize(lib)
    case Forks => true
    case Watchers => true
    case Issues => true
    case Topics => HasElements(lib.github.topics)
  }

  // ---------------------------------------------------------------------
  // The rows under one heading.
  // ---------------------------------------------------------------------

  /** The rows of `rows` that carry heading `hd`, in column order. */
  function Under(rows: seq<Row>, hd: Heading): seq<Row>
    decreases |rows|
  {
    if |rows| == 0 then []
    else (if HeadingOf(rows[0]) == hd then [rows[0]] else []) + Under(rows[1..], hd)
  }

  /** A heading has rows under it exactly when it is among the column's headings. */
  lemma {:induction false} UnderNonEmpty(rows: seq<Row>, hd: Heading)
    ensures Under(rows, hd) != [] <==> hd in Headings(rows)
    decreases |rows|
  {
    if |rows| > 0 {
      UnderNonEmpty(rows[1..], hd);
      HeadingsAppend([rows[0]], rows[1..]);
      assert rows == [rows[0]] + rows[1..];
    }
  }

  lemma {:induction false} UnderAppend(a: seq<Row>, b: seq<Row>, hd: Heading)
    ensures Under(a + b, hd) == Under(a, hd) + Under(b, hd)
    decreases |a|
  {
    if |a| == 0 {
      assert a + b == b;
    } else {
      var x := if HeadingOf(a[0]) == hd then [a[0]] else [];
      assert (a + b)[0] == a[0];
      assert (a + b)[1..] == a[1..] + b;
      assert Under(a + b, hd) == x + Under(a[1..] + b, hd);
      UnderAppend(a[1..], b, hd);
      assert x + (Under(a[1..], hd) + Under(b, hd)) == (x + Under(a[1..], hd)) + Under(b, hd);
    }
  }

  lemma UnderOne(row: Row, hd: Heading)
    ensures Under([row], hd) == if HeadingOf(row) == hd then [row] else []
  {
    assert [row][1..] == [];
  }

  /** What the place in the column reserved for `slot` holds under `hd`:
      the row for `slot` when `hd` is `slot` and the row is shown. */
  function Slot(lib: Library, authorName: Option<string>, h: Helpers, slot: Heading, hd: Heading): seq<Row> {
    if hd == slot && Shown(lib, authorName, h, slot) then [RowFor(lib, authorName, h, slot)] else []
  }

  /** A place that holds the row for `slot` exactly when it is shown. */
  lemma UnderSlot(lib: Library, authorName: Option<string>, h: Helpers, rows: seq<Row>, slot: Heading, hd: Heading)
    requires rows == if Shown(lib, authorName, h, slot) then [RowFor(lib, authorName, h, slot)] else []
    ensures Under(rows, hd) == Slot(lib, authorName, h, slot, hd)
  {
    RowForHeading(lib, authorName, h, slot);
    if Shown(lib, authorName, h, slot) {
      UnderOne(RowFor(lib, authorName, h, slot), hd);
    }
  }

  function TagSlots(lib: Library, authorName: Option<string>, h: Helpers, hd: Heading): seq<Row> {
    Slot(lib, authorName, h, Compatibility, hd) + Slot(lib, authorName, h, Platforms, hd) + Slot(lib, authorName, h, ModuleType, hd)
  }

  function StandingSlots(lib: Library, authorName: Option<string>, h: Helpers, hd: Heading): seq<Row> {
    Slot(lib, authorName, h, Popularity, hd) + Slot(lib, authorName, h, Author, hd)
  }

  function FactSlots(lib: Library, authorName: Option<string>, h: Helpers, hd: Heading): seq<Row> {
    (Slot(lib, authorName, h, Website, hd) + Slot(lib, authorName, h, Examples, hd) + Slot(lib, authorName, h, NativeCode, hd))
    + Slot(lib, authorName, h, TypeScriptTypes, hd)
    + Slot(lib, authorName, h, ConfigPlugin, hd) + Slot(lib, authorName, h, License, hd)
  }

  /** The dependency group's place: its heading carries the count, so it is
      the slot of whichever count is shown. */
  function DependencySlot(lib: Library, authorName: Option<string>, h: Helpers, hd: Heading): seq<Row> {
    if hd.Dependencies? && Shown(lib, authorName, h, hd) then [RowFor(lib, authorName, h, hd)] else []
  }

  function LeadingSlots(lib: Library, authorName: Option<string>, h: Helpers, hd: Heading): seq<Row> {
    Slot(lib, authorName, h, DirectoryScore, hd) + Slot(lib, authorName, h, Updated, hd)
    + Slot(lib, authorName, h, MonthlyDownloads, hd) + Slot(lib, authorName, h, Stars, hd)
  }

  function TrailingSlots(lib: Library, authorName: Option<string>, h: Helpers, hd: Heading): seq<Row> {
    Slot(lib, authorName, h, Forks, hd) + Slot(lib, authorName, h, Watchers, hd) + Slot(lib, authorName, h, Issues, hd)
  }

  function StatisticSlots(lib: Library, authorName: Option<string>, h: Helpers, hd: Heading): seq<Row> {
    LeadingSlots(lib, authorName, h, hd) + DependencySlot(lib, authorName, h, hd)
    + Slot(lib, authorName, h, PackageSize, hd) + TrailingSlots(lib, authorName, h, hd)
  }

  lemma TagGroupsUnder(lib: Library, authorName: Option<string>, h: Helpers, hd: Heading)
    ensures Under(TagGroups(lib, h), hd) == TagSlots(lib, authorName, h, hd)
  {
    var c := TagGroupIfAny(Compatibility, h.compatibilityTags(lib));
    var p := [TagList(Platforms, PlainTags(h.supportedPlatforms(lib)))];
    var m := TagGroupIfAny(ModuleType, h.moduleTypeLabel(lib));
    UnderSlot(lib, authorName, h, c, Compatibility, hd);
    UnderSlot(lib, authorName, h, p, Platforms, hd);
    UnderSlot(lib, authorName, h, m, ModuleType, hd);
    UnderAppend(c, p, hd);
    UnderAppend(c + p, m, hd);
  }

  lemma StandingUnder(lib: Library, authorName: Option<string>, h: Helpers, hd: Heading)
    ensures Under(Standing(lib, authorName, h), hd) == StandingSlots(lib, authorName, h, hd)
  {
    var p, a := [PopularityRow(h.popularityLabel(lib.popularity))], AuthorRows(authorName);
    UnderSlot(lib, authorName, h, p, Popularity, hd);
    UnderSlot(lib, authorName, h, a, Author, hd);
    UnderAppend(p, a, hd);
  }

  function WebsiteToNativeCode(lib: Library): seq<Row> {
    WebsiteRows(lib) + ExampleRows(lib) + (if lib.github.hasNativeCode then [Label(NativeCode, None)] else [])
  }

  lemma WebsiteToNativeCodeUnder(lib: Library, authorName: Option<string>, h: Helpers, hd: Heading)
    ensures Under(WebsiteToNativeCode(lib), hd) ==
      Slot(lib, authorName, h, Website, hd) + Slot(lib, authorName, h, Examples, hd) + Slot(lib, authorName, h, NativeCode, hd)
  {
    var w, e := WebsiteRows(lib), ExampleRows(lib);
    var n := if lib.github.hasNativeCode then [Label(NativeCode, None)] else [];
    UnderSlot(lib, authorName, h, w, Website, hd);
    UnderSlot(lib, authorName, h, e, Examples, hd);
    UnderSlot(lib, authorName, h, n, NativeCode, hd);
    UnderAppend(w, e, hd);
    UnderAppend(w + e, n, hd);
  }

  lemma FactsUnder(lib: Library, authorName: Option<string>, h: Helpers, hd: Heading)
    ensures Under(Facts(lib, h), hd) == FactSlots(lib, authorName, h, hd)
  {
    var f := WebsiteToNativeCode(lib);
    var t := if lib.github.hasTypes == Some(true) then [Label(TypeScriptTypes, None)] else [];
    var c := if h.hasConfigPlugin(lib) then [Label(ConfigPlugin, None)] else [];
    var l := LicenseRows(lib);
    WebsiteToNativeCodeUnder(lib, authorName, h, hd);
    UnderSlot(lib, authorName, h, t, TypeScriptTypes, hd);
    UnderSlot(lib, authorName, h, c, ConfigPlugin, hd);
    UnderSlot(lib, authorName, h, l, License, hd);
    UnderAppend(f, t, hd);
    UnderAppend(f + t, c, hd);
    UnderAppend(f + t + c, l, hd);
  }

  lemma DependencyRowsUnder(lib: Library, authorName: Option<string>, h: Helpers, hd: Heading)
    ensures Under(DependencyRows(lib, h), hd) == DependencySlot(lib, authorName, h, hd)
  {
    match lib.github.stats.dependencies {
      case None =>
      case Some(n) =>
        UnderOne(RowFor(lib, authorName, h, Dependencies(n)), hd);
    }
  }

  lemma LeadingStatsUnder(lib: Library, authorName: Option<string>, h: Helpers, hd: Heading)
    ensures Under(LeadingStats(lib, h), hd) == LeadingSlots(lib, authorName, h, hd)
  {
    var s, u, m, r := RowFor(lib, authorName, h, DirectoryScore), RowFor(lib, authorName, h, Updated),
                      RowFor(lib, authorName, h, MonthlyDownloads), RowFor(lib, authorName, h, Stars);
    assert LeadingStats(lib, h) == [s] + [u] + [m] + [r];
    UnderSlot(lib, authorName, h, [s], DirectoryScore, hd);
    UnderSlot(lib, authorName, h, [u], Updated, hd);
    UnderSlot(lib, authorName, h, [m], MonthlyDownloads, hd);
    UnderSlot(lib, authorName, h, [r], Stars, hd);
    UnderAppend([s], [u], hd);
    UnderAppend([s] + [u], [m], hd);
    UnderAppend([s] + [u] + [m], [r], hd);
  }

  lemma TrailingStatsUnder(lib: Library, authorName: Option<string>, h: Helpers, hd: Heading)
    ensures Under(TrailingStats(lib, h), hd) == TrailingSlots(lib, authorName, h, hd)
  {
    var f, w, i := RowFor(lib, authorName, h, Forks), RowFor(lib, authorName, h, Watchers), RowFor(lib, authorName, h, Issues);
    assert TrailingStats(lib, h) == [f] + [w] + [i];
    UnderSlot(lib, authorName, h, [f], Forks, hd);
    UnderSlot(lib, authorName, h, [w], Watchers, hd);
    UnderSlot(lib, authorName, h, [i], Issues, hd);
    UnderAppend([f], [w], hd);
    UnderAppend([f] + [w], [i], hd);
  }

  lemma StatisticsUnder(lib: Library, authorName: Option<string>, h: Helpers, hd: Heading)
    ensures Under(Statistics(lib, h), hd) == StatisticSlots(lib, authorName, h, hd)
  {
    var l, d, z, t := LeadingStats(lib, h), DependencyRows(lib, h), PackageSizeRows(lib, h), TrailingStats(lib, h);
    LeadingStatsUnder(lib, authorName, h, hd);
    DependencyRowsUnder(lib, authorName, h, hd);
    UnderSlot(lib, authorName, h, z, PackageSize, hd);
    TrailingStatsUnder(lib, authorName, h, hd);
    UnderAppend(l, d, hd);
    UnderAppend(l + d, z, hd);
    UnderAppend(l + d + z, t, hd);
  }

  lemma TopicRowsUnder(lib: Library, authorName: Option<string>, h: Helpers, hd: Heading)
    ensures Under(TopicRows(lib), hd) ==
      (if hd == Divider && HasElements(lib.github.topics) then [Separator] else []) + Slot(lib, authorName, h, Topics, hd)
  {
    if HasElements(lib.github.topics) {
      var t := TagList(Topics, PlainTags(lib.github.topics.value));
      assert TopicRows(lib) == [Separator] + [t];
      UnderAppend([Separator], [t], hd);
      UnderOne(Separator, hd);
      UnderOne(t, hd);
      assert t == RowFor(lib, authorName, h, Topics);
    } else {
      assert TopicRows(lib) == [];
    }
  }

  /** The headings each part of the column reserves a place for. */
  predicate InTagGroups(hd: Heading) {
    hd == Compatibility || hd == Platforms || hd == ModuleType
  }

  predicate InStanding(hd: Heading) {
    hd == Popularity || hd == Author
  }

  predicate InFacts(hd: Heading) {
    hd == Website || hd == Examples || hd == NativeCode || hd == TypeScriptTypes || hd == ConfigPlugin || hd == License
  }

  predicate InLeadingStats(hd: Heading) {
    hd == DirectoryScore || hd == Updated || hd == MonthlyDownloads || hd == Stars
  }

  predicate InTrailingStats(hd: Heading) {
    hd == Forks || hd == Watchers || hd == Issues
  }

  predicate InStatistics(hd: Heading) {
    InLeadingStats(hd) || hd.Dependencies? || hd == PackageSize || InTrailingStats(hd)
  }

  /** The rows drawn under `hd`: its row when it is shown, nothing otherwise. */
  function ShownRows(lib: Library, authorName: Option<string>, h: Helpers, hd: Heading): seq<Row> {
    if Shown(lib, authorName, h, hd) then [RowFor(lib, authorName, h, hd)] else []
  }

  /** Two places of which at least one is empty under a heading hold,
      together, what the other holds. */
  lemma Combine(a: seq<Row>, b: seq<Row>, ca: bool, cb: bool, r: seq<Row>)
    requires a == (if ca then r else []) && b == (if cb then r else []) && !(ca && cb)
    ensures a + b == if ca || cb then r else []
  {
    if ca {
      assert a + b == r + [];
    }
  }

  lemma SlotShown(lib: Library, authorName: Option<string>, h: Helpers, slot: Heading, hd: Heading)
    ensures Slot(lib, authorName, h, slot, hd) == if hd == slot then ShownRows(lib, authorName, h, hd) else []
  {
  }

  /** Each part holds the rows drawn under a heading of its own, and nothing
      under any other heading. */
  lemma TagSlotsRule(lib: Library, authorName: Option<string>, h: Helpers, hd: Heading)
    ensures TagSlots(lib, authorName, h, hd) ==
      if InTagGroups(hd) then ShownRows(lib, authorName, h, hd) else []
  {
    var r := ShownRows(lib, authorName, h, hd);
    SlotShown(lib, authorName, h, Compatibility, hd);
    SlotShown(lib, authorName, h, Platforms, hd);
    SlotShown(lib, authorName, h, ModuleType, hd);
    var c, p, m := Slot(lib, authorName, h, Compatibility, hd), Slot(lib, authorName, h, Platforms, hd), Slot(lib, authorName, h, ModuleType, hd);
    Combine(c, p, hd == Compatibility, hd == Platforms, r);
    Combine(c + p, m, hd == Compatibility || hd == Platforms, hd == ModuleType, r);
  }

  lemma StandingSlotsRule(lib: Library, authorName: Option<string>, h: Helpers, hd: Heading)
    ensures StandingSlots(lib, authorName, h, hd) ==
      if InStanding(hd) then ShownRows(lib, authorName, h, hd) else []
  {
    SlotShown(lib, authorName, h, Popularity, hd);
    SlotShown(lib, authorName, h, Author, hd);
    Combine(Slot(lib, authorName, h, Popularity, hd), Slot(lib, authorName, h, Author, hd),
            hd == Popularity, hd == Author, ShownRows(lib, authorName, h, hd));
  }

  lemma FactSlotsRule(lib: Library, authorName: Option<string>, h: Helpers, hd: Heading)
    ensures FactSlots(lib, authorName, h, hd) ==
      if InFacts(hd) then ShownRows(lib, authorName, h, hd) else []
  {
    var r := ShownRows(lib, authorName, h, hd);
    SlotShown(lib, authorName, h, Website, hd);
    SlotShown(lib, authorName, h, Examples, hd);
    SlotShown(lib, authorName, h, NativeCode, hd);
    SlotShown(lib, authorName, h, TypeScriptTypes, hd);
    SlotShown(lib, authorName, h, ConfigPlugin, hd);
    SlotShown(lib, authorName, h, License, hd);
    var w, e, n := Slot(lib, authorName, h, Website, hd), Slot(lib, authorName, h, Examples, hd), Slot(lib, authorName, h, NativeCode, hd);
    var t, c, l := Slot(lib, authorName, h, TypeScriptTypes, hd), Slot(lib, authorName, h, ConfigPlugin, hd), Slot(lib, authorName, h, License, hd);
    Combine(w, e, hd == Website, hd == Examples, r);
    Combine(w + e, n, hd == Website || hd == Examples, hd == NativeCode, r);
    Combine(w + e + n, t, hd == Website || hd == Examples || hd == NativeCode, hd == TypeScriptTypes, r);
    Combine(w + e + n + t, c, hd == Website || hd == Examples || hd == NativeCode || hd == TypeScriptTypes, hd == ConfigPlugin, r);
    Combine(w + e + n + t + c, l, hd == Website || hd == Examples || hd == NativeCode || hd == TypeScriptTypes || hd == ConfigPlugin,
            hd == License, r);
  }

  lemma LeadingSlotsRule(lib: Library, authorName: Option<string>, h: Helpers, hd: Heading)
    ensures LeadingSlots(lib, authorName, h, hd) ==
      if InLeadingStats(hd) then ShownRows(lib, authorName, h, hd) else []
  {
    var r := ShownRows(lib, authorName, h, hd);
    SlotShown(lib, authorName, h, DirectoryScore, hd);
    SlotShown(lib, authorName, h, Updated, hd);
    SlotShown(lib, authorName, h, MonthlyDownloads, hd);
    SlotShown(lib, authorName, h, Stars, hd);
    var d, u := Slot(lib, authorName, h, DirectoryScore, hd), Slot(lib, authorName, h, Updated, hd);
    var m, t := Slot(lib, authorName, h, MonthlyDownloads, hd), Slot(lib, authorName, h, Stars, hd);
    Combine(d, u, hd == DirectoryScore, hd == Updated, r);
    Combine(d + u, m, hd == DirectoryScore || hd == Updated, hd == MonthlyDownloads, r);
    Combine(d + u + m, t, hd == DirectoryScore || hd == Updated || hd == MonthlyDownloads, hd == Stars, r);
  }

  lemma TrailingSlotsRule(lib: Library, authorName: Option<string>, h: Helpers, hd: Heading)
    ensures TrailingSlots(lib, authorName, h, hd) ==
      if InTrailingStats(hd) then ShownRows(lib, authorName, h, hd) else []
  {
    var r := ShownRows(lib, authorName, h, hd);
    SlotShown(lib, authorName, h, Forks, hd);
    SlotShown(lib, authorName, h, Watchers, hd);
    SlotShown(lib, authorName, h, Issues, hd);
    var f, w, i := Slot(lib, authorName, h, Forks, hd), Slot(lib, authorName, h, Watchers, hd), Slot(lib, authorName, h, Issues, hd);
    Combine(f, w, hd == Forks, hd == Watchers, r);
    Combine(f + w, i, hd == Forks || hd == Watchers, hd == Issues, r);
  }

  lemma StatisticSlotsRule(lib: Library, authorName: Option<string>, h: Helpers, hd: Heading)
    ensures StatisticSlots(lib, authorName, h, hd) ==
      if InStatistics(hd) then ShownRows(lib, authorName, h, hd) else []
  {
    var r := ShownRows(lib, authorName, h, hd);
    LeadingSlotsRule(lib, authorName, h, hd);
    TrailingSlotsRule(lib, authorName, h, hd);
    SlotShown(lib, authorName, h, PackageSize, hd);
    var l, d := LeadingSlots(lib, authorName, h, hd), DependencySlot(lib, authorName, h, hd);
    var z, t := Slot(lib, authorName, h, PackageSize, hd), TrailingSlots(lib, authorName, h, hd);
    var cl := InLeadingStats(hd);
    Combine(l, d, cl, hd.Dependencies?, r);
    Combine(l + d, z, cl || hd.Dependencies?, hd == PackageSize, r);
    Combine(l + d + z, t, cl || hd.Dependencies? || hd == PackageSize, InTrailingStats(hd), r);
  }

  /** The column under `hd`, part by part. */
  lemma MetadataUnder(lib: Library, authorName: Option<string>, h: Helpers, hd: Heading)
    ensures var sep := Under([Separator], hd);
      Under(Metadata(lib, authorName, h), hd) ==
        TagSlots(lib, authorName, h, hd) + sep
        + StandingSlots(lib, authorName, h, hd) + sep
        + FactSlots(lib, authorName, h, hd) + sep
        + StatisticSlots(lib, authorName, h, hd)
        + Under(TopicRows(lib), hd)
  {
    var tg, st, fa, sx, tp := TagGroups(lib, h), Standing(lib, authorName, h), Facts(lib, h), Statistics(lib, h), TopicRows(lib);
    var sep := [Separator];
    TagGroupsUnder(lib, authorName, h, hd);
    StandingUnder(lib, authorName, h, hd);
    FactsUnder(lib, authorName, h, hd);
    StatisticsUnder(lib, authorName, h, hd);
    UnderAppend(tg, sep, hd);
    UnderAppend(tg + sep, st, hd);
    UnderAppend(tg + sep + st, sep, hd);
    UnderAppend(tg + sep + st + sep, fa, hd);
    UnderAppend(tg + sep + st + sep + fa, sep, hd);
    UnderAppend(tg + sep + st + sep + fa + sep, sx, hd);
    UnderAppend(tg + sep + st + sep + fa + sep + sx, tp, hd);
  }

  // ---------------------------------------------------------------------
  // Properties of the metadata column.
  // ---------------------------------------------------------------------

  /** The column, heading by heading: under every heading but the
      separator's there is exactly the row drawn for it when its guard
      holds, and nothing otherwise. */
  lemma ColumnRule(lib: Library, authorName: Option<string>, h: Helpers, hd: Heading)
    requires hd != Divider
    ensures Under(Metadata(lib, authorName, h), hd) ==
      if Shown(lib, authorName, h, hd) then [RowFor(lib, authorName, h, hd)] else []
  {
    MetadataUnder(lib, authorName, h, hd);
    AllSlots(lib, authorName, h, hd);
  }

  /** The parts together hold, under every heading but the separator's,
      exactly the row for it when it is shown. */
  lemma AllSlots(lib: Library, authorName: Option<string>, h: Helpers, hd: Heading)
    requires hd != Divider
    ensures var sep, tp := Under([Separator], hd), Under(TopicRows(lib), hd);
      TagSlots(lib, authorName, h, hd) + sep
      + StandingSlots(lib, authorName, h, hd) + sep
      + FactSlots(lib, authorName, h, hd) + sep
      + StatisticSlots(lib, authorName, h, hd)
      + tp
      == if Shown(lib, authorName, h, hd) then [RowFor(lib, authorName, h, hd)] else []
  {
    var r := ShownRows(lib, authorName, h, hd);
    UnderOne(Separator, hd);
    TopicSlotRule(lib, authorName, h, hd);
    TagSlotsRule(lib, authorName, h, hd);
    StandingSlotsRule(lib, authorName, h, hd);
    FactSlotsRule(lib, authorName, h, hd);
    StatisticSlotsRule(lib, authorName, h, hd);
    PartsPartition(hd);
    CombineColumn(TagSlots(lib, authorName, h, hd), StandingSlots(lib, authorName, h, hd),
                  FactSlots(lib, authorName, h, hd), StatisticSlots(lib, authorName, h, hd),
                  Under([Separator], hd), Under(TopicRows(lib), hd),
                  InTagGroups(hd), InStanding(hd), InFacts(hd), InStatistics(hd), hd == Topics, r);
  }

  /** Away from the separator, the topic rows hold just the Topics row. */
  lemma TopicSlotRule(lib: Library, authorName: Option<string>, h: Helpers, hd: Heading)
    requires hd != Divider
    ensures Under(TopicRows(lib), hd) == if hd == Topics then ShownRows(lib, authorName, h, hd) else []
  {
    TopicRowsUnder(lib, authorName, h, hd);
    SlotShown(lib, authorName, h, Topics, hd);
    assert [] + Slot(lib, authorName, h, Topics, hd) == Slot(lib, authorName, h, Topics, hd);
  }

  /** Every heading but the separator belongs to exactly one part of the column. */
  lemma PartsPartition(hd: Heading)
    requires hd != Divider
    ensures InTagGroups(hd) || InStanding(hd) || InFacts(hd) || InStatistics(hd) || hd == Topics
    ensures !(InTagGroups(hd) && InStanding(hd)) && !(InTagGroups(hd) && InFacts(hd))
    ensures !(InTagGroups(hd) && InStatistics(hd)) && !(InTagGroups(hd) && hd == Topics)
    ensures !(InStanding(hd) && InFacts(hd)) && !(InStanding(hd) && InStatistics(hd)) && !(InStanding(hd) && hd == Topics)
    ensures !(InFacts(hd) && InStatistics(hd)) && !(InFacts(hd) && hd == Topics) && !(InStatistics(hd) && hd == Topics)
  {
  }

  /** Parts of which at most one holds anything under a heading, and empty
      separators between them, hold together what that one part holds. */
  lemma CombineColumn(x1: seq<Row>, x2: seq<Row>, x3: seq<Row>, x4: seq<Row>, sep: seq<Row>, tp: seq<Row>,
                      c1: bool, c2: bool, c3: bool, c4: bool, c5: bool, r: seq<Row>)
    requires x1 == (if c1 then r else []) && x2 == (if c2 then r else []) && x3 == (if c3 then r else [])
    requires x4 == (if c4 then r else []) && tp == (if c5 then r else []) && sep == []
    requires !(c1 && c2) && !(c1 && c3) && !(c1 && c4) && !(c1 && c5)
    requires !(c2 && c3) && !(c2 && c4) && !(c2 && c5) && !(c3 && c4) && !(c3 && c5) && !(c4 && c5)
    ensures x1 + sep + x2 + sep + x3 + sep + x4 + tp == if c1 || c2 || c3 || c4 || c5 then r else []
  {
    Combine(x1, sep, c1, false, r);
    Combine(x1 + sep, x2, c1, c2, r);
    Combine(x1 + sep + x2, sep, c1 || c2, false, r);
    Combine(x1 + sep + x2 + sep, x3, c1 || c2, c3, r);
    Combine(x1 + sep + x2 + sep + x3, sep, c1 || c2 || c3, false, r);
    Combine(x1 + sep + x2 + sep + x3 + sep, x4, c1 || c2 || c3, c4, r);
    Combine(x1 + sep + x2 + sep + x3 + sep + x4, tp, c1 || c2 || c3 || c4, c5, r);
  }

  /** Every heading but the separator's is among the column's headings
      exactly when its guard holds. */
  lemma ShownIffInColumn(lib: Library, authorName: Option<string>, h: Helpers, hd: Heading)
    requires hd != Divider
    ensures hd in Headings(Metadata(lib, authorName, h)) <==> Shown(lib, authorName, h, hd)
  {
    ColumnRule(lib, authorName, h, hd);
    UnderNonEmpty(Metadata(lib, authorName, h), hd);
  }

  /** The column has three separators, and a fourth before the topics when
      there are topics. */
  lemma SeparatorRows(lib: Library, authorName: Option<string>, h: Helpers)
    ensures Under(Metadata(lib, authorName, h), Divider) ==
      [Separator, Separator, Separator] + if HasElements(lib.github.topics) then [Separator] else []
  {
    MetadataUnder(lib, authorName, h, Divider);
    DividerSlots(lib, authorName, h);
  }

  /** The parts hold nothing under the separator's heading; the separators
      between them and before the topics are all there is. */
  lemma DividerSlots(lib: Library, authorName: Option<string>, h: Helpers)
    ensures var sep, tp := Under([Separator], Divider), Under(TopicRows(lib), Divider);
      TagSlots(lib, authorName, h, Divider) + sep
      + StandingSlots(lib, authorName, h, Divider) + sep
      + FactSlots(lib, authorName, h, Divider) + sep
      + StatisticSlots(lib, authorName, h, Divider)
      + tp
      == [Separator, Separator, Separator] + if HasElements(lib.github.topics) then [Separator] else []
  {
    UnderOne(Separator, Divider);
    TopicRowsUnder(lib, authorName, h, Divider);
    DividerFrontEmpty(lib, authorName, h);
    DividerBackEmpty(lib, authorName, h);
    SeparatorsOnly(TagSlots(lib, authorName, h, Divider), StandingSlots(lib, authorName, h, Divider),
                   FactSlots(lib, authorName, h, Divider), StatisticSlots(lib, authorName, h, Divider),
                   Under(TopicRows(lib), Divider), if HasElements(lib.github.topics) then [Separator] else []);
  }

  lemma DividerFrontEmpty(lib: Library, authorName: Option<string>, h: Helpers)
    ensures TagSlots(lib, authorName, h, Divider) == [] && StandingSlots(lib, authorName, h, Divider) == []
  {
    TagSlotsRule(lib, authorName, h, Divider);
    StandingSlotsRule(lib, authorName, h, Divider);
  }

  lemma DividerBackEmpty(lib: Library, authorName: Option<string>, h: Helpers)
    ensures FactSlots(lib, authorName, h, Divider) == [] && StatisticSlots(lib, authorName, h, Divider) == []
  {
    FactSlotsRule(lib, authorName, h, Divider);
    StatisticSlotsRule(lib, authorName, h, Divider);
  }

  lemma SeparatorsOnly(x1: seq<Row>, x2: seq<Row>, x3: seq<Row>, x4: seq<Row>, tp: seq<Row>, t: seq<Row>)
    requires x1 == [] && x2 == [] && x3 == [] && x4 == [] && tp == t + []
    ensures x1 + [Separator] + x2 + [Separator] + x3 + [Separator] + x4 + tp == [Separator, Separator, Separator] + t
  {
    assert x1 + [Separator] + x2 + [Separator] + x3 + [Separator] + x4 == [Separator, Separator, Separator];
  }

  /** The Compatibility group comes first when the compatibility helper gives
      any tags; otherwise the column starts with Platforms. */
  lemma CompatibilityGroupFirst(lib: Library, authorName: Option<string>, h: Helpers)
    ensures var rows, tags := Metadata(lib, authorName, h), h.compatibilityTags(lib);
      && (|tags| > 0 ==> rows[0] == TagList(Compatibility, PlainTags(tags)))
      && (|tags| == 0 ==> rows[0] == TagList(Platforms, PlainTags(h.supportedPlatforms(lib))))
  {
    var rows := Metadata(lib, authorName, h);
    assert rows[0] == TagGroups(lib, h)[0];
  }

  /** The Compatibility group appears exactly when there are compatibility
      tags, and then holds them. */
  lemma CompatibilityShown(lib: Library, authorName: Option<string>, h: Helpers)
    ensures var tags := h.compatibilityTags(lib);
      Under(Metadata(lib, authorName, h), Compatibility) ==
        if |tags| > 0 then [TagList(Compatibility, PlainTags(tags))] else []
  {
    ColumnRule(lib, authorName, h, Compatibility);
  }

  /** Each tag group holds one item per tag, with the tag's text, in order. */
  lemma PlainTagsKeepOrder(tags: seq<string>)
    ensures forall k :: 0 <= k < |tags| ==> PlainTags(tags)[k].text == Some(tags[k])
  {
  }

  /** The Platforms group is always shown, once, and holds the supported platforms. */
  lemma PlatformsAlwaysShown(lib: Library, authorName: Option<string>, h: Helpers)
    ensures Under(Metadata(lib, authorName, h), Platforms) == [TagList(Platforms, PlainTags(h.supportedPlatforms(lib)))]
  {
    ColumnRule(lib, authorName, h, Platforms);
  }

  /** The Module Type group appears exactly when the module type helper gives
      tags, and then holds those tags. */
  lemma ModuleTypeGroupRule(lib: Library, authorName: Option<string>, h: Helpers)
    ensures var mods := h.moduleTypeLabel(lib);
      Under(Metadata(lib, authorName, h), ModuleType) == if |mods| > 0 then [TagList(ModuleType, PlainTags(mods))] else []
  {
    ColumnRule(lib, authorName, h, ModuleType);
  }

  /** Popularity is always shown, once; its one tag is the hot one (Bolt,
      orange) exactly when the popularity helper says so, and the muted one
      (line chart, secondary text) otherwise. */
  lemma PopularityAlwaysShown(lib: Library, authorName: Option<string>, h: Helpers)
    ensures var p := h.popularityLabel(lib.popularity);
      && Under(Metadata(lib, authorName, h), Popularity) == [PopularityRow(p)]
      && |PopularityRow(p).items| == 1 && PopularityRow(p).items[0].text == Some(p.text)
      && (PopularityRow(p).items[0].accent == Hot <==> p.isHot)
      && (PopularityRow(p).items[0].accent == Muted <==> !p.isHot)
  {
    ColumnRule(lib, authorName, h, Popularity);
  }

  /** The Author label appears exactly when the author name is a non-empty
      string, and then shows that name. */
  lemma AuthorLabelRule(lib: Library, authorName: Option<string>, h: Helpers)
    ensures Under(Metadata(lib, authorName, h), Author) ==
      if authorName.Some? && authorName.value != "" then [Label(Author, authorName)] else []
  {
    ColumnRule(lib, authorName, h, Author);
  }

  /** The Website link appears exactly when the homepage is a non-empty
      string, and then shows and opens that homepage. */
  lemma WebsiteRule(lib: Library, authorName: Option<string>, h: Helpers)
    ensures var homepage := lib.github.urls.homepage;
      Under(Metadata(lib, authorName, h), Website) ==
        if homepage.Some? && homepage.value != "" then [Link(Website, homepage.value, homepage.value)] else []
  {
    ColumnRule(lib, authorName, h, Website);
  }

  /** The Examples group appears exactly when there are examples, with one
      tag per example labelled "#1", "#2", ... in list order and opening
      that example. */
  lemma ExamplesGroupRule(lib: Library, authorName: Option<string>, h: Helpers)
    ensures var examples := lib.examples;
      Under(Metadata(lib, authorName, h), Examples) ==
        if examples.Some? && |examples.value| > 0 then [TagList(Examples, ExampleItems(examples.value))] else []
    ensures forall ex: seq<string>, k :: 0 <= k < |ex| ==>
      ExampleItems(ex)[k] == Item(Some(ExampleLabel(k)), Regular, Some(Address(ex[k])))
  {
    ColumnRule(lib, authorName, h, Examples);
  }

  /** An example's label is '#' followed by its one-based position, so the
      labels of different examples differ. */
  lemma ExampleLabelNumbersExample(j: nat, k: nat)
    ensures var text := ExampleLabel(k);
      text[0] == '#' && IsIntegerText(text[1..]) && ParseInt(text[1..]) == k + 1
    ensures j != k ==> ExampleLabel(j) != ExampleLabel(k)
  {
    var text := ExampleLabel(k);
    assert text[1..] == NatToString(k + 1) == IntToString(k + 1);
    ParseIntToString(k + 1);
    if ExampleLabel(j) == ExampleLabel(k) {
      assert ExampleLabel(j)[1..] == NatToString(j + 1);
      NatToStringInjective(j + 1, k + 1);
    }
  }

  /** Native Code appears exactly when the library has native code, as a
      plain label without text. */
  lemma NativeCodeRule(lib: Library, authorName: Option<string>, h: Helpers)
    ensures Under(Metadata(lib, authorName, h), NativeCode) ==
      if lib.github.hasNativeCode then [Label(NativeCode, None)] else []
  {
    ColumnRule(lib, authorName, h, NativeCode);
  }

  /** TypeScript Types appears exactly when `hasTypes` is true, a missing
      value counting as false, as a plain label without text. */
  lemma TypeScriptTypesRule(lib: Library, authorName: Option<string>, h: Helpers)
    ensures Under(Metadata(lib, authorName, h), TypeScriptTypes) ==
      if lib.github.hasTypes == Some(true) then [Label(TypeScriptTypes, None)] else []
  {
    ColumnRule(lib, authorName, h, TypeScriptTypes);
  }

  /** Config Plugin appears exactly when the config plugin helper says so,
      as a plain label without text. */
  lemma ConfigPluginRule(lib: Library, authorName: Option<string>, h: Helpers)
    ensures Under(Metadata(lib, authorName, h), ConfigPlugin) ==
      if h.hasConfigPlugin(lib) then [Label(ConfigPlugin, None)] else []
  {
    ColumnRule(lib, authorName, h, ConfigPlugin);
  }

  /** The License label appears exactly when the license has a non-empty
      name; it reads "Unrecognized License" for "Other" and the name otherwise. */
  lemma LicenseLabelRule(lib: Library, authorName: Option<string>, h: Helpers)
    ensures var license := lib.github.license;
      Under(Metadata(lib, authorName, h), License) ==
        if license.Some? && license.value.name != "" then [Label(License, Some(LicenseText(license.value.name)))] else []
    ensures forall name :: name != "Other" ==> LicenseText(name) == name
    ensures LicenseText("Other") == "Unrecognized License"
  {
    ColumnRule(lib, authorName, h, License);
  }

  /** The Directory Score tag is always shown, once; it reads "<score> / 100"
      and opens the scoring page, and the score can be read back from its text. */
  lemma DirectoryScoreRule(lib: Library, authorName: Option<string>, h: Helpers)
    ensures var text := ScoreText(lib.score);
      && Under(Metadata(lib, authorName, h), DirectoryScore) == [Stat(DirectoryScore, Some(text), Some(ScoringPage))]
      && |text| > 6 && text[|text| - 6..] == " / 100"
      && IsIntegerText(text[..|text| - 6]) && ParseInt(text[..|text| - 6]) == lib.score
  {
    ColumnRule(lib, authorName, h, DirectoryScore);
    var text := ScoreText(lib.score);
    assert text[..|text| - 6] == IntToString(lib.score);
    ParseIntToString(lib.score);
  }

  /** Updated is always shown, once, as the time since the last update, with no action. */
  lemma UpdatedRule(lib: Library, authorName: Option<string>, h: Helpers)
    ensures Under(Metadata(lib, authorName, h), Updated) ==
      [Stat(Updated, Some(h.timeSinceToday(lib.github.stats.updatedAt)), None)]
  {
    ColumnRule(lib, authorName, h, Updated);
  }

  /** Monthly Downloads is always shown, once, and links to the npm package
      page; it has no text when the npm data or its download count is missing. */
  lemma DownloadsRule(lib: Library, authorName: Option<string>, h: Helpers)
    ensures Under(Metadata(lib, authorName, h), MonthlyDownloads) ==
      [Stat(MonthlyDownloads, DownloadsText(lib, h), Some(NpmPage(lib.npmPkg, Overview)))]
    ensures DownloadsText(lib, h).None? <==> lib.npm.None? || lib.npm.value.downloads.None?
  {
    ColumnRule(lib, authorName, h, MonthlyDownloads);
  }

  /** Stars are always shown, once, as the localised star count opening the
      repository's stargazers page. */
  lemma StarsRule(lib: Library, authorName: Option<string>, h: Helpers)
    ensures Under(Metadata(lib, authorName, h), Stars) ==
      [Stat(Stars, Some(h.localeString(lib.github.stats.stars)), Some(RepositoryPage(lib.github.urls.repo, Stargazers)))]
  {
    ColumnRule(lib, authorName, h, Stars);
  }

  /** A dependency group appears exactly for the known count, zero
      included; it shows the count and opens the package's dependencies tab. */
  lemma DependencyGroupRule(lib: Library, authorName: Option<string>, h: Helpers)
    ensures forall n ::
              Under(Metadata(lib, authorName, h), Dependencies(n)) ==
                if lib.github.stats.dependencies == Some(n)
                then [Stat(Dependencies(n), Some(h.localeString(n)), Some(NpmPage(lib.npmPkg, DependencyTab)))]
                else []
  {
    forall n {
      DependencyRule(lib, authorName, h, n);
    }
  }

  lemma DependencyRule(lib: Library, authorName: Option<string>, h: Helpers, n: int)
    ensures Under(Metadata(lib, authorName, h), Dependencies(n)) ==
              if lib.github.stats.dependencies == Some(n)
              then [Stat(Dependencies(n), Some(h.localeString(n)), Some(NpmPage(lib.npmPkg, DependencyTab)))]
              else []
  {
    ColumnRule(lib, authorName, h, Dependencies(n));
  }

  /** The dependency group is titled "Dependency" for a count of one and
      "Dependencies" for any other count, zero included. */
  lemma DependencyTitle(n: int)
    ensures HeadingText(Dependencies(n)) == "Dependency" <==> n == 1
    ensures HeadingText(Dependencies(n)) == "Dependencies" <==> n != 1
  {
  }

  /** Package Size is shown exactly when the size is present and not zero,
      and then shows the formatted size and links to the package's code tab. */
  lemma PackageSizeRule(lib: Library, authorName: Option<string>, h: Helpers)
    ensures var npm := lib.npm;
      Under(Metadata(lib, authorName, h), PackageSize) ==
        if npm.Some? && npm.value.size.Some? && npm.value.size.value != 0
        then [Stat(PackageSize, Some(h.formatBytes(npm.value.size.value)), Some(NpmPage(lib.npmPkg, CodeTab)))]
        else []
  {
    ColumnRule(lib, authorName, h, PackageSize);
  }

  /** Forks is always shown, once, as the fork count opening the
      repository's network members page. */
  lemma ForksRule(lib: Library, authorName: Option<string>, h: Helpers)
    ensures Under(Metadata(lib, authorName, h), Forks) ==
      [Stat(Forks, Some(h.localeString(lib.github.stats.forks)), Some(RepositoryPage(lib.github.urls.repo, NetworkMembers)))]
  {
    ColumnRule(lib, authorName, h, Forks);
  }

  /** Watchers is always shown, once, as the subscriber count opening the
      repository's watchers page. */
  lemma WatchersRule(lib: Library, authorName: Option<string>, h: Helpers)
    ensures Under(Metadata(lib, authorName, h), Watchers) ==
      [Stat(Watchers, Some(h.localeString(lib.github.stats.subscribers)), Some(RepositoryPage(lib.github.urls.repo, WatcherList)))]
  {
    ColumnRule(lib, authorName, h, Watchers);
  }

  /** Issues is always shown, once, as the open issue count opening the
      repository's issues page. */
  lemma IssuesRule(lib: Library, authorName: Option<string>, h: Helpers)
    ensures Under(Metadata(lib, authorName, h), Issues) ==
      [Stat(Issues, Some(h.localeString(lib.github.stats.issues)), Some(RepositoryPage(lib.github.urls.repo, IssueList)))]
  {
    ColumnRule(lib, authorName, h, Issues);
  }

  /** The Topics group appears exactly when there are topics, with one tag
      per topic in order. */
  lemma TopicsRule(lib: Library, authorName: Option<string>, h: Helpers)
    ensures var topics := lib.github.topics;
      Under(Metadata(lib, authorName, h), Topics) ==
        if topics.Some? && |topics.value| > 0 then [TagList(Topics, PlainTags(topics.value))] else []
  {
    ColumnRule(lib, authorName, h, Topics);
  }

  /** Topics, when there are any, end the column after a fourth separator;
      otherwise the column ends with Issues. */
  lemma ColumnEnd(lib: Library, authorName: Option<string>, h: Helpers)
    ensures var rows := Metadata(lib, authorName, h);
      && (HasElements(lib.github.topics) ==>
            |rows| >= 2 && rows[|rows| - 2..] == [Separator, TagList(Topics, PlainTags(lib.github.topics.value))])
      && (!HasElements(lib.github.topics) ==>
            rows[|rows| - 1] == Stat(Issues, Some(h.localeString(lib.github.stats.issues)), Some(RepositoryPage(lib.github.urls.repo, IssueList))))
  {
    var rows := Metadata(lib, authorName, h);
    var front := TagGroups(lib, h) + [Separator] + Standing(lib, authorName, h) + [Separator] + Facts(lib, h) + [Separator];
    var sx := Statistics(lib, h);
    assert rows == front + sx + TopicRows(lib);
    if HasElements(lib.github.topics) {
      assert rows[|rows| - 2..] == TopicRows(lib);
    } else {
      assert rows == front + sx;
      assert rows[|rows| - 1] == sx[|sx| - 1];
    }
  }

  /** A library with none of its optional data shows only the rows that are
      always there. */
  lemma MinimalLibrary(lib: Library, authorName: Option<string>, h: Helpers)
    requires h.compatibilityTags(lib) == [] && h.moduleTypeLabel(lib) == [] && !h.hasConfigPlugin(lib)
    requires authorName.None?
    requires lib.github.urls.homepage.None? && lib.examples.None? && !lib.github.hasNativeCode
    requires lib.github.hasTypes.None? && lib.github.license.None? && lib.github.topics.None?
    requires lib.github.stats.dependencies.None? && lib.npm.None?
    ensures Headings(Metadata(lib, authorName, h)) ==
      [Platforms, Divider, Popularity, Divider, Divider, DirectoryScore, Updated, MonthlyDownloads, Stars, Forks, Watchers, Issues]
  {
    MetadataHeadings(lib, authorName, h);
    MinimalParts(lib, authorName, h);
    MinimalLayout([DirectoryScore, Updated, MonthlyDownloads, Stars, Forks, Watchers, Issues]);
  }

  lemma MinimalParts(lib: Library, authorName: Option<string>, h: Helpers)
    requires h.compatibilityTags(lib) == [] && h.moduleTypeLabel(lib) == [] && !h.hasConfigPlugin(lib)
    requires authorName.None?
    requires lib.github.urls.homepage.None? && lib.examples.None? && !lib.github.hasNativeCode
    requires lib.github.hasTypes.None? && lib.github.license.None? && lib.github.topics.None?
    requires lib.github.stats.dependencies.None? && lib.npm.None?
    ensures TagGroupHeadings(lib, h) == [Platforms]
    ensures StandingHeadings(authorName) == [Popularity]
    ensures FactHeadings(lib, h) == []
    ensures StatisticHeadings(lib) == [DirectoryScore, Updated, MonthlyDownloads, Stars, Forks, Watchers, Issues]
    ensures TopicHeadings(lib) == []
  {
  }

  lemma MinimalLayout(stats: seq<Heading>)
    ensures [Platforms] + [Divider] + [Popularity] + [Divider] + [] + [Divider] + stats + [] ==
      [Platforms, Divider, Popularity, Divider, Divider] + stats
  {
  }


  // ---------------------------------------------------------------------
  // The leaked zero of the Package Size condition (line 136).
  // ---------------------------------------------------------------------

  /** A child of the metadata element as React receives it: a row, or a
      bare value that a `&&` condition left behind and that React renders as text. */
  datatype Child = RowChild(row: Row) | TextChild(text: string)

  /** `{library.npm?.size && (...)}` as written: a size of 0 is falsy, so the
      expression yields the number 0, which React renders as the text "0". */
  function PackageSizeChildrenAsWritten(lib: Library, h: Helpers): seq<Child> {
    if lib.npm.None? || lib.npm.value.size.None? then []
    else if lib.npm.value.size.value == 0 then [TextChild("0")]
    else [RowChild(PackageSizeRow(lib, h))]
  }

  /** As written, a zero size leaves a stray "0" in the column, while the
      rows the column is meant to hold leave the group out. */
  lemma PackageSizeZeroLeaks(lib: Library, h: Helpers)
    requires lib.npm.Some? && lib.npm.value.size == Some(0)
    ensures PackageSizeChildrenAsWritten(lib, h) == [TextChild("0")]
    ensures PackageSizeRows(lib, h) == []
  {
  }

  /** The corrected group: shown exactly for a present, non-zero size, and
      otherwise the same as the code as written. */
  lemma PackageSizeRowsCorrected(lib: Library, h: Helpers)
    ensures PackageSizeRows(lib, h) == [] <==> lib.npm.None? || lib.npm.value.size.None? || lib.npm.value.size.value == 0
    ensures PackageSizeRows(lib, h) != [] ==> PackageSizeChildrenAsWritten(lib, h) == [RowChild(PackageSizeRows(lib, h)[0])]
    ensures !(lib.npm.Some? && lib.npm.value.size == Some(0)) ==>
      PackageSizeChildrenAsWritten(lib, h) == if PackageSizeRows(lib, h) == [] then [] else [RowChild(PackageSizeRows(lib, h)[0])]
  {
  }

  // ---------------------------------------------------------------------
  // The markdown body (lines 187-193).
  // ---------------------------------------------------------------------

  function ImageMarkdown(image: string): string {
    "![Image](" + image + ")"
  }

  function ImageLines(images: seq<string>): (lines: seq<string>)
    ensures |lines| == |images|
  {
    seq(|images|, k requires 0 <= k < |images| => ImageMarkdown(images[k]))
  }

  /** The images heading and the images, when there are any. */
  function ImagesSection(images: Option<seq<string>>): string {
    if HasElements(images) then "\n### Images\n" + Join(ImageLines(images.value), "\n") else ""
  }

  /** `description ?? ""`. */
  function DescriptionText(lib: Library): string {
    UnwrapOr(lib.github.description, "")
  }

  /** The template literal before trimming. */
  function MarkdownTemplate(lib: Library): string {
    "\n# " + lib.github.name + "\n\n" + DescriptionText(lib) + "\n\n" + ImagesSection(lib.images) + "\n  "
  }

  function Markdown(lib: Library): string {
    Trim(MarkdownTemplate(lib))
  }

  /** With images, the body is the title line, the description and the
      images section, exactly, with nothing trimmed from any of them. */
  lemma MarkdownWithImages(lib: Library)
    requires HasElements(lib.images)
    ensures Markdown(lib) ==
      "# " + lib.github.name + "\n\n" + DescriptionText(lib) + "\n\n"
      + "\n### Images\n" + Join(ImageLines(lib.images.value), "\n")
  {
    var section := ImagesSection(lib.images);
    ImagesSectionEndsVisibly(lib.images.value);
    var body := "# " + lib.github.name + "\n\n" + DescriptionText(lib) + "\n\n" + section;
    assert body[0] == '#';
    assert body[|body| - 1] == section[|section| - 1];
    assert MarkdownTemplate(lib) == "\n" + body + "\n  ";
    TrimSurrounded("\n", body, "\n  ");
  }

  /** The images section ends with the closing parenthesis of the last image. */
  lemma ImagesSectionEndsVisibly(images: seq<string>)
    requires |images| > 0
    ensures var section := ImagesSection(Some(images)); |section| > 0 && section[|section| - 1] == ')'
  {
    var lines := ImageLines(images);
    var last := lines[|lines| - 1];
    assert last == ImageMarkdown(images[|lines| - 1]);
    JoinEndsWithLast(lines, "\n");
  }

  /** Without images, the body is the title line and the description with
      trailing whitespace removed; it always starts with '#'. */
  lemma MarkdownWithoutImages(lib: Library)
    requires !HasElements(lib.images)
    ensures Markdown(lib) == TrimEnd("# " + lib.github.name + "\n\n" + DescriptionText(lib))
    ensures |Markdown(lib)| > 0 && Markdown(lib)[0] == '#'
  {
    var body := "# " + lib.github.name + "\n\n" + DescriptionText(lib);
    assert MarkdownTemplate(lib) == "\n" + (body + "\n\n\n  ");
    TrimStartAfterWhitespace("\n", body + "\n\n\n  ");
    TrimEndBeforeWhitespace(body, "\n\n\n  ");
    assert body[0] == '#';
  }

  /** The body with images, regrouped around each of its line breaks. */
  lemma ImagesBodyRegrouped(name: string, desc: string, joined: string)
    ensures name + "\n\n" + desc + "\n\n" + "\n### Images\n" + joined ==
      name + "\n" + ("" + "\n" + (desc + "\n" + ("" + "\n" + ("" + "\n" + ("### Images" + "\n" + joined)))))
  {
    assert "\n\n" == "\n" + ("" + "\n");
    assert "\n### Images\n" == "\n" + ("### Images" + "\n");
  }

  lemma ImagesHeadRegrouped(a: seq<string>, c: seq<string>, f: seq<string>)
    ensures a + ([""] + (c + ([""] + ([""] + (["### Images"] + f))))) == a + [""] + c + ["", "", "### Images"] + f
  {
    assert [""] + ([""] + ["### Images"]) == ["", "", "### Images"];
  }

  /** How the lines of a body with images fall apart at its line breaks. */
  lemma {:induction false} ImagesBodyLines(name: string, desc: string, joined: string)
    ensures SplitLines(name + "\n\n" + desc + "\n\n" + "\n### Images\n" + joined) ==
      SplitLines(name) + [""] + SplitLines(desc) + ["", "", "### Images"] + SplitLines(joined)
  {
    var t4 := "### Images" + "\n" + joined;
    var t3 := "" + "\n" + t4;
    var t2 := "" + "\n" + t3;
    var t1 := desc + "\n" + t2;
    var t0 := "" + "\n" + t1;
    ImagesBodyRegrouped(name, desc, joined);
    SplitLinesSingle("### Images");
    SplitLinesSingle("");
    var j := SplitLines(joined);
    SplitLinesAppend("### Images", joined);
    assert SplitLines(t4) == ["### Images"] + j;
    SplitLinesAppend("", t4);
    assert SplitLines(t3) == [""] + (["### Images"] + j);
    SplitLinesAppend("", t3);
    assert SplitLines(t2) == [""] + ([""] + (["### Images"] + j));
    SplitLinesAppend(desc, t2);
    SplitLinesAppend("", t1);
    SplitLinesAppend(name, t0);
    var whole := name + "\n" + t0;
    assert SplitLines(whole) == SplitLines(name) + ([""] + (SplitLines(desc) + ([""] + ([""] + (["### Images"] + j)))));
    ImagesHeadRegrouped(SplitLines(name), SplitLines(desc), j);
    assert name + "\n\n" + desc + "\n\n" + "\n### Images\n" + joined == whole;
  }

  /** An image line holds no line break when the image URL holds none. */
  lemma ImageLinesUnbroken(images: seq<string>)
    requires forall k :: 0 <= k < |images| ==> '\n' !in images[k]
    ensures forall k :: 0 <= k < |images| ==> '\n' !in ImageLines(images)[k]
  {
    forall k | 0 <= k < |images| ensures '\n' !in ImageLines(images)[k] {
      assert ImageLines(images)[k] == "![Image](" + images[k] + ")";
    }
  }

  /** Read line by line, a body with images ends with the "### Images"
      heading and one line per image, in order. */
  lemma MarkdownImageLines(lib: Library)
    requires HasElements(lib.images)
    requires forall k :: 0 <= k < |lib.images.value| ==> '\n' !in lib.images.value[k]
    ensures SplitLines(Markdown(lib)) ==
      SplitLines("# " + lib.github.name) + [""] + SplitLines(DescriptionText(lib))
      + ["", "", "### Images"] + ImageLines(lib.images.value)
  {
    MarkdownWithImages(lib);
    var lines := ImageLines(lib.images.value);
    ImageLinesUnbroken(lib.images.value);
    SplitLinesJoin(lines);
    ImagesBodyLines("# " + lib.github.name, DescriptionText(lib), Join(lines, "\n"));
  }

  // ---------------------------------------------------------------------
  // The panel: the hook's author name feeds the column.
  // ---------------------------------------------------------------------

  /** The Author label appears exactly when the registry payload has loaded
      and its author is a non-empty string or a record with a non-empty name,
      and then shows that name; a missing package (non-OK response) or a
      failed fetch shows none. */
  lemma AuthorLabelFromRegistry(lib: Library, state: NpmRegistry.FetchState, h: Helpers)
    ensures Under(Metadata(lib, NpmRegistry.UseNpmRegistry(state).authorName, h), Author) ==
      if && state.data.Loaded?
         && state.data.record.author.Some?
         && var author := state.data.record.author.value;
            if author.AuthorText? then author.text != "" else author.name != ""
      then [Label(Author, NpmRegistry.GetAuthorName(state.data.record.author))]
      else []
  {
    AuthorLabelRule(lib, NpmRegistry.UseNpmRegistry(state).authorName, h);
  }
}
