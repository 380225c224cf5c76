/**
 * The catalogue's data: the raw JSON shapes the front end declares
 * (frontend/src/App.tsx:24-61), the normalised Workspace record
 * (frontend/src/components/workspace-card.tsx:15-31), and the host
 * functions whose semantics come from the browser.
 */
module Dataset {
  import opened Common

  /** One `compatibility` entry, in its two historical shapes. */
  datatype RawCompatibility =
    | VersionText(text: string)
      // the old shape: a plain version string such as "1.16.x"
    | CompatibilityObject(version: Option<string>, availableTags: Option<seq<string>>, image: Option<string>)
      // the new shape; `version` is None when absent or not a string

  /** One workspace definition (`RawWorkspaceDefinition`). */
  datatype RawDefinition = RawDefinition(
    friendlyName: Option<string>,
    description: Option<string>,
    categories: Option<seq<string>>,
    architecture: Option<seq<string>>,
    compatibility: Option<seq<RawCompatibility>>,
    dockerRegistry: Option<string>,
    name: Option<string>)

  /** A workspace group: its `(slug, definition)` pairs in declaration order. */
  type WorkspaceGroup = seq<(string, Option<RawDefinition>)>

  /**
   * One repository entry (`RawRepositoryEntry`). `stars` is the value's
   * numeric coercion, None when that is not a finite number.
   */
  datatype RawRepository = RawRepository(
    githubPages: Option<string>,
    workspaces: Option<seq<Option<WorkspaceGroup>>>,
    stars: Option<real>,
    lastCommit: Option<string>,
    pushedAt: Option<string>)

  /** The whole dataset: `(owner/repo, entry)` pairs in the document's key order. */
  type RawDataset = seq<(string, Option<RawRepository>)>

  /**
   * Host semantics the front end calls but does not define:
   * `toLocaleLowerCase`, `localeCompare`, the WHATWG URL parser's verdict in
   * `isValidHttpUrl` (frontend/src/App.tsx:758-766), and `Date.parse` (None
   * for NaN).
   */
  datatype Runtime = Runtime(
    lower: string -> string,
    collate: (string, string) -> int,
    isHttpUrl: string -> bool,
    parseDate: string -> Option<int>)

  /** The normalised record every later stage works on. */
  datatype Workspace = Workspace(
    slug: string,
    name: string,
    description: string,
    registryUrl: string,
    author: string,
    stars: nat,
    categories: seq<string>,
    architectures: seq<string>,
    dockerImage: Option<string>,
    tags: seq<string>,
    repository: string,
    lastCommit: string,
    lastCommitTimestamp: int,
    compatibilityVersions: seq<string>,
    rawWorkspaceData: RawDefinition)

  /** The text stored as `registryUrl` when the repository's URL is not http(s). */
  const InvalidUrlSentinel := "Valid URL not found"

  const GithubPrefix := "https://github.com/"
}
