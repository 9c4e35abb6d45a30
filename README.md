# Library detail panel and npm registry lookup

This project models the detail panel of a Raycast extension that browses the
React Native Directory. The panel has two parts:

- **The metadata column.** This is the ordered list of tag groups, labels,
  links and separators beside a library. It is modelled in `library_detail.dfy`
  as `LibraryDetail.Metadata`. The markdown body above the column is
  `LibraryDetail.Markdown`.
- **The npm registry hook.** It fetches the latest published version of the
  package and derives the author's display name. It is modelled in
  `npm_registry.dfy`: the request URL, the `parseResponse` policy that turns a
  non-OK response into `null`, `getAuthorName`, and the record the hook
  returns.

`types.dfy` holds the library record the panel reads. `js.dfy` holds the parts
of JavaScript's semantics the panel depends on:

- truthiness of optional strings, numbers and lists;
- the decimal text of an integer in a template literal;
- `String.prototype.trim`, with the WhiteSpace and LineTerminator code points
  of ECMA-262;
- `Array.prototype.join`;
- a line-by-line reading of a text (the pieces between its line breaks). The
  panel never splits text; this reading only states how the markdown body
  reads line by line, which `MarkdownImageLines` does.

The helpers the panel imports from its utilities module are not part of this
model. These are the compatibility, platform, module-type and popularity
labels, `hasConfigPlugin`, `formatBytes` and `getTimeSinceToday`.
`toLocaleString` and the scoring page URL are not part of it either. All of
them are fields of a `Helpers` value passed to the model, so every property
holds whatever they compute.

Each row is identified by a `Heading`, and a separator has the heading
`Divider`. `Under(rows, hd)` is the list of rows carrying heading `hd`, in
column order. The column's properties are stated in three ways:

- as the exact sequence of headings (`MetadataHeadings`);
- heading by heading against two reference definitions. `Shown` gives each
  heading's guard in the panel, and `RowFor` gives the row the panel draws
  for it. Under every heading but the separator's, the column holds exactly
  `[RowFor(hd)]` when `Shown(hd)` holds, and nothing otherwise
  (`ColumnRule`). The per-row rules and `ShownIffInColumn` follow from that;
- as the separators the column holds (`SeparatorRows`) and how it ends
  (`ColumnEnd`).

## Model

| member | source | states |
|---|---|---|
| Js.NatToString | src/components/library-detail.tsx:74 | The decimal text of a natural number: non-empty, all digits, no leading zero, and "0" only for zero |
| Js.IntToString | src/components/library-detail.tsx:98 | The text of an integer is non-empty and starts with '-' exactly when the integer is negative |
| Js.ParseIntToString | src/components/library-detail.tsx:98 | An integer's text is well-formed integer text, and reading it back gives the integer |
| Js.NatToStringInjective | src/components/library-detail.tsx:74 | Distinct numbers have distinct decimal texts |
| Js.TrimStart | src/components/library-detail.tsx:193 | Keeps a suffix, drops only whitespace, and the kept text does not start with whitespace |
| Js.TrimEnd | src/components/library-detail.tsx:193 | Keeps a prefix, drops only whitespace, and the kept text does not end with whitespace |
| Js.Trim | src/components/library-detail.tsx:193 | The trimmed text is empty or starts and ends with a non-whitespace character |
| Js.TrimKeepsMiddle | src/components/library-detail.tsx:193 | Trimming keeps the text between a whitespace prefix and a whitespace suffix, and changes nothing in between |
| Js.Join | src/components/library-detail.tsx:192 | A join of at least one part starts with the first part; `JoinEndsWithLast` gives its end and `SplitLinesJoin` shows the parts can be read back |
| Js.TrimStartAfterWhitespace | src/components/library-detail.tsx:187-193 | Leading whitespace in front of a visibly starting text is exactly what TrimStart removes |
| Js.TrimEndBeforeWhitespace | src/components/library-detail.tsx:187-193 | Trailing whitespace does not change what TrimEnd keeps |
| Js.TrimSurrounded | src/components/library-detail.tsx:187-193 | A text that starts and ends visibly survives trimming of whitespace padding unchanged |
| Js.JoinEndsWithLast | src/components/library-detail.tsx:192 | A join ends with the last character of the last part |
| Js.SplitLinesJoin | src/components/library-detail.tsx:192 | Joining break-free lines with "\n" and reading the result line by line gives the lines back |
| NpmRegistry.RegistryUrl | src/hooks/use-npm-registry.tsx:20 | The request URL is the registry base, followed by the package name, followed by "/latest" |
| NpmRegistry.RegistryUrlNamesPackage | src/hooks/use-npm-registry.tsx:20 | The URL starts with the registry base, the package name can be read back from it, and distinct packages get distinct URLs |
| NpmRegistry.ParseResponse | src/hooks/use-npm-registry.tsx:21-26 | A non-OK response becomes `null`, not an error; an OK response yields its decoded body, and fails only when the body does not decode |
| NpmRegistry.GetAuthorName | src/hooks/use-npm-registry.tsx:39-43 | No name exactly when the author is missing or the empty string; otherwise the string itself or the record's name |
| NpmRegistry.AuthorContactIgnored | src/hooks/use-npm-registry.tsx:42 | A record author's email and url never affect the display name |
| NpmRegistry.AuthorFormsAgree | src/hooks/use-npm-registry.tsx:40-42 | A string author and a record author with the same non-empty name display alike; an empty string is dropped, an empty record name is kept |
| NpmRegistry.UseNpmRegistry | src/hooks/use-npm-registry.tsx:29-36 | Passes the data, loading flag and error through, and derives the author name from loaded data only |
| NpmRegistry.Settle | src/hooks/use-npm-registry.tsx:20-27 | A settled fetch is not loading and has an error exactly when it has no data. A transport error is kept. A non-OK response settles to `null` with no error, an OK response with a decodable body to that body with no error, and an undecodable body to a parse error |
| NpmRegistry.NoAuthorWhileLoading | src/hooks/use-npm-registry.tsx:29-34 | While the first request is in flight the hook reports loading and no author |
| NpmRegistry.SettledLookup | src/hooks/use-npm-registry.tsx:20-36 | A settled lookup never reports both an author and an error; a non-OK response (a missing package) reports neither; a decoded body yields its author's name |
| LibraryDetail.TagGroupsHeadings | src/components/library-detail.tsx:26-46 | The tag groups are Compatibility (if any tags), Platforms, and Module Type (if any tags), in that order |
| LibraryDetail.StandingHeadingsAgree | src/components/library-detail.tsx:50-58 | Popularity comes first, followed by Author when the author name is truthy |
| LibraryDetail.FactsHeadings | src/components/library-detail.tsx:62-92 | Website, Examples, Native Code, TypeScript Types, Config Plugin and License appear in that order, each under its own guard |
| LibraryDetail.StatisticsHeadings | src/components/library-detail.tsx:96-168 | Score, Updated, Downloads, Stars, the dependency group if the count is known, Package Size if shown, then Forks, Watchers, Issues |
| LibraryDetail.Metadata | src/components/library-detail.tsx:18-182 | The column the panel draws; `MetadataHeadings` gives its exact heading sequence, and `ColumnRule` gives its row under every heading against the reference `Shown`/`RowFor` |
| LibraryDetail.MetadataHeadings | src/components/library-detail.tsx:24-180 | The whole column's headings in order: the four parts with a separator after each of the first three, then the optional topics |
| LibraryDetail.ColumnRule | src/components/library-detail.tsx:24-180 | Under every heading but the separator's, the column holds exactly one row, the one the panel draws for it, when the heading's guard holds, and no row otherwise |
| LibraryDetail.ShownIffInColumn | src/components/library-detail.tsx:24-180 | Every heading appears in the column exactly when its guard in the panel holds |
| LibraryDetail.SeparatorRows | src/components/library-detail.tsx:48-172 | The column has three separators, plus a fourth exactly when there are topics |
| LibraryDetail.MinimalLibrary | src/components/library-detail.tsx:24-180 | With every optional datum absent, the column is Platforms, Popularity, the statistics that are always shown, and three separators |
| LibraryDetail.CompatibilityGroupFirst | src/components/library-detail.tsx:26-38 | The column opens with the Compatibility group when there are compatibility tags, otherwise with Platforms |
| LibraryDetail.CompatibilityShown | src/components/library-detail.tsx:26-32 | The Compatibility group appears, once, exactly when there are compatibility tags, and then holds them |
| LibraryDetail.PlainTagsKeepOrder | src/components/library-detail.tsx:28-30 | A tag group holds one item per tag, with that tag's text, in order |
| LibraryDetail.PlatformsAlwaysShown | src/components/library-detail.tsx:34-38 | Platforms is always shown, once, holding the supported platforms |
| LibraryDetail.ModuleTypeGroupRule | src/components/library-detail.tsx:40-46 | Module Type appears, once, exactly when there are module-type tags, and then holds them |
| LibraryDetail.PopularityAlwaysShown | src/components/library-detail.tsx:50-56 | Popularity is always shown, once, with one tag, hot exactly when the popularity helper says so and muted otherwise |
| LibraryDetail.AuthorLabelRule | src/components/library-detail.tsx:58 | The Author label appears, once, exactly when the author name is a non-empty string, and then shows it |
| LibraryDetail.WebsiteRule | src/components/library-detail.tsx:62-68 | The Website link appears, once, exactly when the homepage is non-empty, and then shows and opens the homepage |
| LibraryDetail.ExamplesGroupRule | src/components/library-detail.tsx:69-80 | Examples appears, once, exactly when there are examples; tag k is labelled as example k+1 and opens example k |
| LibraryDetail.ExampleLabelNumbersExample | src/components/library-detail.tsx:74 | An example's tag is '#' followed by its one-based position, so different examples get different tags |
| LibraryDetail.NativeCodeRule | src/components/library-detail.tsx:81 | Native Code appears, once, exactly when the library has native code |
| LibraryDetail.TypeScriptTypesRule | src/components/library-detail.tsx:82-84 | TypeScript Types appears, once, exactly when `hasTypes` is true; a missing value counts as false |
| LibraryDetail.ConfigPluginRule | src/components/library-detail.tsx:85 | Config Plugin appears, once, exactly when the config plugin helper says so |
| LibraryDetail.LicenseLabelRule | src/components/library-detail.tsx:86-92 | License appears, once, exactly when the license has a non-empty name; it shows "Unrecognized License" for "Other" and the name otherwise |
| LibraryDetail.DirectoryScoreRule | src/components/library-detail.tsx:96-102 | Directory Score is always shown, once, as "<score> / 100"; the score can be read back from it, and it opens the scoring page |
| LibraryDetail.UpdatedRule | src/components/library-detail.tsx:103-108 | Updated is always shown, once, as the time since the last update, with no action |
| LibraryDetail.DownloadsRule | src/components/library-detail.tsx:109-115 | Monthly Downloads is always shown, once, and opens the npm page; it has no text exactly when the npm data or the count is missing |
| LibraryDetail.StarsRule | src/components/library-detail.tsx:116-122 | Stars is always shown, once, as the star count, and opens the stargazers page |
| LibraryDetail.TargetUrl | src/components/library-detail.tsx:113-166 | An npm target opens a page under the package's npm page, and a repository target opens a page under the repository's URL |
| LibraryDetail.TargetUrlsDistinct | src/components/library-detail.tsx:113-166 | Every npm link opens a page under the package's npm page and every repository link a page under the repository; different tabs or sections give different URLs |
| LibraryDetail.DependencyGroupRule | src/components/library-detail.tsx:123-135 | A dependency group appears for count n exactly when the known count is n, zero included; it shows n and opens the dependencies tab |
| LibraryDetail.HeadingText | src/components/library-detail.tsx:27-173 | Every row but a separator carries a visible, non-empty title; `DependencyTitle` gives the dependency group's title |
| LibraryDetail.DependencyTitle | src/components/library-detail.tsx:125 | The dependency group is titled "Dependency" exactly for a count of one, and "Dependencies" otherwise |
| LibraryDetail.PackageSizeRule | src/components/library-detail.tsx:136-146 | Package Size appears, once, exactly when the size is present and non-zero, showing the formatted size and opening the code tab |
| LibraryDetail.ForksRule | src/components/library-detail.tsx:148-154 | Forks is always shown, once, as the fork count, and opens the network members page |
| LibraryDetail.WatchersRule | src/components/library-detail.tsx:155-161 | Watchers is always shown, once, as the subscriber count, and opens the watchers page |
| LibraryDetail.IssuesRule | src/components/library-detail.tsx:162-168 | Issues is always shown, once, as the issue count, and opens the issues page |
| LibraryDetail.TopicsRule | src/components/library-detail.tsx:170-179 | The Topics group appears, once, exactly when there are topics, and then holds them |
| LibraryDetail.ColumnEnd | src/components/library-detail.tsx:148-180 | With topics, the column ends with a separator and the Topics group; without topics, it ends with the Issues row |
| LibraryDetail.PackageSizeChildrenAsWritten | src/components/library-detail.tsx:136-146 | The children of the Package Size condition as written; `PackageSizeZeroLeaks` shows the stray "0" for a zero size, and `PackageSizeRowsCorrected` relates it to the corrected rows |
| LibraryDetail.PackageSizeZeroLeaks | src/components/library-detail.tsx:136 | As written, a size of 0 leaves a stray "0" in the column where the group is meant to be omitted |
| LibraryDetail.PackageSizeRowsCorrected | src/components/library-detail.tsx:136-146 | The corrected group is omitted exactly for a missing or zero size, and otherwise agrees with the code as written |
| LibraryDetail.MarkdownTemplate | src/components/library-detail.tsx:187-192 | The template string before trimming; `MarkdownWithImages` and `MarkdownWithoutImages` give the trimmed body exactly |
| LibraryDetail.Markdown | src/components/library-detail.tsx:187-193 | The trimmed template; `MarkdownWithImages`, `MarkdownWithoutImages` and `MarkdownImageLines` state its value |
| LibraryDetail.MarkdownWithImages | src/components/library-detail.tsx:187-193 | With images, the body is exactly the title line, the description and the images section, with nothing trimmed from inside |
| LibraryDetail.MarkdownWithoutImages | src/components/library-detail.tsx:187-193 | Without images, the body is the title line and the description, trailing whitespace removed, and it starts with '#' |
| LibraryDetail.ImageLinesUnbroken | src/components/library-detail.tsx:192 | An image URL without line breaks gives an image line without line breaks |
| LibraryDetail.MarkdownImageLines | src/components/library-detail.tsx:192 | Line by line, a body with images ends with the "### Images" heading and one `![Image](url)` line per image, in order |
| LibraryDetail.AuthorLabelFromRegistry | src/components/library-detail.tsx:185-195 | The panel shows an Author label exactly when the registry data is loaded and its author is a non-empty string or a record with a non-empty name, and the label shows that name |

## Left out

- The fetch utility is not part of this model. This covers its caching, its
  re-fetching and how a newer request supersedes an older one. `Settle` models
  only the state after the first request settles.
- JSON decoding of the registry response is not modelled. It is a
  `Response.body` that is present or absent.
- Icons and colours are not modelled, except the popularity tag's hot or muted
  look. Every other item is `Regular`.
- Click actions that open a URL in the browser are modelled only as the URL
  they open (`Item.target`). The browser application named in the calls is not
  part of this model.
- The utility helpers, `toLocaleString` and the scoring page URL are not part
  of this model. They are passed in as a `Helpers` value.
- Numbers are integers. Floating-point values, `NaN` and fractional scores are
  not modelled. The `Updated` timestamp and the clock it is compared against
  live inside the `timeSinceToday` helper.
- React keys are not modelled. Neither are duplicate keys among tags, nor the
  empty-string children that `authorName && ...`, `homepage && ...` and
  `library.github?.license?.name && ...` leave when the value is `""`, which React renders as
  nothing.
- `Metadata` is a sequence of rows, so it does not carry the stray "0"
  child that the Package Size condition leaves for a zero size (line 136).
  That child is modelled only in `PackageSizeChildrenAsWritten`. `Metadata`
  uses the corrected rows (see "## Findings").
- The library record keeps some fields that the panel itself never reads.
  The platform flags, both `newArchitecture` fields, `moduleType` and
  `configPlugin` are kept for the helpers, which receive the whole record and
  may read them. `githubUrl`, `fullName` and the license's
  `key`, `spdxId`, `url` and `id` are kept only so that the record has the
  shape of `LibraryType`. No property depends on any of them. The other
  fields of `LibraryType` are not modelled.
- NpmRegistry.Pending: the state before the first response (loading, no
  data, no error) is assumed. It is how a fetch with no cached data starts,
  and the fetch utility that decides it is not part of this model.
- Rendering of the markdown by Raycast is not modelled. The model stops at the
  markdown string.

## Findings

| source | as written | input that shows it | evidently intended | confidence | as-written member | corrected member |
|---|---|---|---|---|---|---|
| src/components/library-detail.tsx:136 | `{library.npm?.size && (...)}` yields the number 0 when the size is 0, and React renders a number child as text | a library whose npm size is 0 | the Package Size group omitted for a zero size, as the other guards in the panel do with `!!` | medium, not executed | LibraryDetail.PackageSizeZeroLeaks | LibraryDetail.PackageSizeRowsCorrected |
