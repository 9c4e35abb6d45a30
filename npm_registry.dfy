/** The author lookup against the npm registry (src/hooks/use-npm-registry.tsx).
    The fetch itself belongs to an external utility; this module models what
    the hook decides: the request URL, how a response becomes a payload, how
    the author's display name is read from the payload, and what the hook
    returns for a given fetch state. */
module NpmRegistry {
  import opened Js

  /** The registry's `author` field: a plain string or a person record. */
  datatype Author = AuthorText(text: string) | AuthorRecord(name: string, email: Option<string>, url: Option<string>)

  datatype Maintainer = Maintainer(name: string, email: Option<string>)

  datatype RegistryData = RegistryData(
    name: string,
    version: string,
    author: Option<Author>,
    maintainers: Option<seq<Maintainer>>)

  /** The fetch's `data`: `undefined` before anything is loaded, `null` after a
      non-OK response, or the decoded record. */
  datatype Payload = Undefined | Null | Loaded(record: RegistryData)

  datatype FetchError = TransportFailure | ParseFailure

  /** An HTTP response. `body` is the decoded JSON record, or None when the
      body does not decode. */
  datatype Response = Response(status: int, body: Option<RegistryData>)

  /** The fetch's `{ data, isLoading, error }`. */
  datatype FetchState = FetchState(data: Payload, isLoading: bool, error: Option<FetchError>)

  /** What the hook returns. */
  datatype RegistryResult = RegistryResult(
    registryData: Payload,
    authorName: Option<string>,
    isLoadingRegistry: bool,
    registryError: Option<FetchError>)

  const RegistryBase := "https://registry.npmjs.org/"
  const LatestPath := "/latest"

  /** The URL of the latest published version of a package: the registry
      base, then the package name, then "/latest". */
  function RegistryUrl(npmPkg: string): (url: string)
    ensures |url| == |RegistryBase| + |npmPkg| + |LatestPath|
    ensures url[..|RegistryBase|] == RegistryBase
    ensures url[|url| - |LatestPath|..] == LatestPath
    ensures url[|RegistryBase|..|url| - |LatestPath|] == npmPkg
  {
    RegistryBase + npmPkg + LatestPath
  }

  /** The package name that a registry URL asks for. */
  function PackageOfUrl(url: string): (npmPkg: string)
    requires |url| >= |RegistryBase| + |LatestPath|
  {
    url[|RegistryBase|..|url| - |LatestPath|]
  }

  /** The URL names exactly the requested package: reading the package back
      from the URL gives it, so distinct packages get distinct URLs. */
  lemma RegistryUrlNamesPackage(npmPkg: string, other: string)
    ensures RegistryUrl(npmPkg)[..|RegistryBase|] == RegistryBase
    ensures PackageOfUrl(RegistryUrl(npmPkg)) == npmPkg
    ensures RegistryUrl(npmPkg) == RegistryUrl(other) ==> npmPkg == other
  {
    assert PackageOfUrl(RegistryUrl(other)) == other;
  }

  /** `response.ok`: the status lies in the range 200-299. */
  predicate IsOk(status: int) {
    200 <= status <= 299
  }

  /** The hook's `parseResponse`: a non-OK response is `null`, not an error;
      only an OK response has its body decoded. */
  function ParseResponse(response: Response): (r: Result<Payload, FetchError>)
    ensures !IsOk(response.status) ==> r == Ok(Null)
    ensures r.Err? <==> IsOk(response.status) && response.body.None?
    ensures r.Err? ==> r.error == ParseFailure
    ensures r.Ok? && r.value.Loaded? <==> IsOk(response.status) && response.body.Some?
    ensures r.Ok? && r.value.Loaded? ==> response.body == Some(r.value.record)
    ensures r.Ok? ==> !r.value.Undefined?
  {
    if !IsOk(response.status) then Ok(Null)
    else match response.body
      case None => Err(ParseFailure)
      case Some(record) => Ok(Loaded(record))
  }

  /** The display name of a package author: none when the field is missing or
      an empty string, the string itself, or the record's `name`. */
  function GetAuthorName(author: Option<Author>): (name: Option<string>)
    ensures name.None? <==> author.None? || author == Some(AuthorText(""))
    ensures name.Some? && author.value.AuthorText? ==> name.value == author.value.text
    ensures name.Some? && author.value.AuthorRecord? ==> name.value == author.value.name
  {
    match author
    case None => None
    case Some(AuthorText(text)) => if text == "" then None else Some(text)
    case Some(AuthorRecord(name, _, _)) => Some(name)
  }

  /** A record author's contact fields never affect the display name. */
  lemma AuthorContactIgnored(name: string, email1: Option<string>, url1: Option<string>, email2: Option<string>, url2: Option<string>)
    ensures GetAuthorName(Some(AuthorRecord(name, email1, url1))) == GetAuthorName(Some(AuthorRecord(name, email2, url2)))
    ensures GetAuthorName(Some(AuthorRecord(name, email1, url1))) == Some(name)
  {
  }

  /** A string author and a record author with that name display alike,
      except for the empty string, which a record still passes through. */
  lemma AuthorFormsAgree(name: string, email: Option<string>, url: Option<string>)
    ensures name != "" ==> GetAuthorName(Some(AuthorText(name))) == GetAuthorName(Some(AuthorRecord(name, email, url)))
    ensures GetAuthorName(Some(AuthorText(""))) == None
    ensures GetAuthorName(Some(AuthorRecord("", email, url))) == Some("")
  {
  }

  /** The hook: passes the fetch state through and derives the author name
      from the payload. */
  function UseNpmRegistry(state: FetchState): (r: RegistryResult)
    ensures r.registryData == state.data
    ensures r.isLoadingRegistry == state.isLoading
    ensures r.registryError == state.error
    ensures !state.data.Loaded? ==> r.authorName.None?
    ensures state.data.Loaded? ==> r.authorName == GetAuthorName(state.data.record.author)
  {
    var authorName := if state.data.Loaded? then GetAuthorName(state.data.record.author) else None;
    RegistryResult(state.data, authorName, state.isLoading, state.error)
  }

  /** The fetch state while the first request is in flight. */
  function Pending(): (s: FetchState)
    ensures s.isLoading && s.data.Undefined? && s.error.None?
  {
    FetchState(Undefined, true, None)
  }

  /** The fetch state once the first request has settled: either the
      transport failed, or a response arrived and went through ParseResponse. */
  function Settle(outcome: Result<Response, FetchError>): (s: FetchState)
    ensures !s.isLoading
    ensures s.error.Some? <==> s.data.Undefined?
    ensures outcome.Err? ==> s.error == Some(outcome.error)
    ensures outcome.Ok? && !IsOk(outcome.value.status) ==> s == FetchState(Null, false, None)
    ensures outcome.Ok? && IsOk(outcome.value.status) && outcome.value.body.Some? ==>
              s == FetchState(Loaded(outcome.value.body.value), false, None)
    ensures outcome.Ok? && IsOk(outcome.value.status) && outcome.value.body.None? ==>
              s == FetchState(Undefined, false, Some(ParseFailure))
  {
    var parsed := match outcome
      case Err(e) => Err(e)
      case Ok(response) => ParseResponse(response);
    match parsed
    case Ok(payload) => FetchState(payload, false, None)
    case Err(e) => FetchState(Undefined, false, Some(e))
  }

  /** While loading, no author name is known. */
  lemma NoAuthorWhileLoading()
    ensures UseNpmRegistry(Pending()).authorName.None?
    ensures UseNpmRegistry(Pending()).isLoadingRegistry
  {
  }

  /** A settled lookup never reports both an author name and an error, and a
      non-OK response (a package missing from the registry, say) reports
      neither: it is not an error. */
  lemma SettledLookup(outcome: Result<Response, FetchError>)
    ensures var r := UseNpmRegistry(Settle(outcome));
      && !r.isLoadingRegistry
      && !(r.authorName.Some? && r.registryError.Some?)
      && (outcome.Ok? && !IsOk(outcome.value.status) ==>
            r.authorName.None? && r.registryError.None? && r.registryData == Null)
      && (outcome.Err? ==> r.authorName.None? && r.registryError == Some(outcome.error))
      && (outcome.Ok? && IsOk(outcome.value.status) && outcome.value.body.None? ==>
            r.authorName.None? && r.registryError == Some(ParseFailure))
      && (outcome.Ok? && IsOk(outcome.value.status) && outcome.value.body.Some? ==>
            r.registryError.None? && r.authorName == GetAuthorName(outcome.value.body.value.author))
  {
  }
}
