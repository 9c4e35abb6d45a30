/** The library record the panel displays, shaped after `LibraryType`
    (src/types.ts). Optional properties are `Option`s; numbers are integers. */
module Types {
  import opened Js

  datatype ModuleType = Expo | Nitro | Turbo

  /** `Date | string`: the update timestamp as given by the data provider. */
  datatype Timestamp = DateValue(epochMillis: int) | DateText(text: string)

  datatype License = License(key: string, name: string, spdxId: string, url: string, id: string)

  /** `homepage` may be `null` or `undefined`; both are None here. */
  datatype Urls = Urls(repo: string, homepage: Option<string>)

  datatype Stats = Stats(
    updatedAt: Timestamp,
    issues: int,
    subscribers: int,
    stars: int,
    forks: int,
    dependencies: Option<int>)

  /** The `github` part of the record. The license is optional because the
      detail view reads it through optional chaining. */
  datatype GitHub = GitHub(
    name: string,
    fullName: string,
    description: Option<string>,
    topics: Option<seq<string>>,
    hasTypes: Option<bool>,
    newArchitecture: Option<bool>,
    hasNativeCode: bool,
    configPlugin: Option<bool>,
    moduleType: Option<ModuleType>,
    urls: Urls,
    stats: Stats,
    license: Option<License>)

  datatype Npm = Npm(downloads: Option<int>, size: Option<int>)

  /** One library: the directory entry's own flags (platform support by
      platform name) merged with the fetched GitHub and npm data. */
  datatype Library = Library(
    githubUrl: string,
    platforms: map<string, bool>,
    newArchitecture: Option<bool>,
    examples: Option<seq<string>>,
    images: Option<seq<string>>,
    github: GitHub,
    npm: Option<Npm>,
    npmPkg: string,
    score: int,
    popularity: Option<int>)
}
