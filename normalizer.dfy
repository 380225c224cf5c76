/**
 * `normalizeWorkspaces` and its helpers (frontend/src/App.tsx:637-794):
 * flattening the nested dataset into Workspace records, deriving the
 * repository-level fields once per repository, and the one canonical sort.
 */
module Normalizer {
  import opened Common
  import opened Sorting
  import opened JsText
  import opened Dataset

  const DefaultLastCommit := "2024-01-01T00:00:00Z"
  const NoDescription := "No description available"

  // ---------------------------------------------------------------------
  // Repository-level fields
  // ---------------------------------------------------------------------

  /** `repositoryKey.split('/')[0]`: the longest prefix of the key without a slash. */
  function Author(key: string): (r: string)
    ensures IsPrefix(r, key)
    ensures '/' !in r
    ensures |r| < |key| ==> key[|r|] == '/'
  {
    if key == [] || key[0] == '/' then []
    else
      var rest := Author(key[1..]);
      assert key[..1 + |rest|] == [key[0]] + key[1..][..|rest|];
      [key[0]] + rest
  }

  /**
   * `parseStars` on a value whose numeric coercion is `v` (None when that
   * is not finite): the floor of the number, but never below zero.
   */
  function ParseStars(v: Option<real>): (n: nat)
    ensures v.None? ==> n == 0
    ensures v.Some? && v.value < 0.0 ==> n == 0
    ensures v.Some? && v.value >= 0.0 ==> n as real <= v.value < n as real + 1.0
  {
    match v
    case None => 0
    case Some(x) => if x.Floor < 0 then 0 else x.Floor
  }

  /** `last_commit ?? pushed_at ?? DEFAULT_LAST_COMMIT`. */
  function EffectiveLastCommit(repo: RawRepository): (r: string)
    ensures repo.lastCommit.Some? ==> r == repo.lastCommit.value
    ensures repo.lastCommit.None? && repo.pushedAt.Some? ==> r == repo.pushedAt.value
    ensures repo.lastCommit.None? && repo.pushedAt.None? ==> r == DefaultLastCommit
  {
    repo.lastCommit.GetOr(repo.pushedAt.GetOr(DefaultLastCommit))
  }

  /** `parseTimestamp`: the parsed milliseconds, or 0 when `Date.parse` gives NaN. */
  function ParseTimestamp(rt: Runtime, s: string): (t: int)
    ensures rt.parseDate(s).None? ==> t == 0
    ensures rt.parseDate(s).Some? ==> t == rt.parseDate(s).value
  {
    match rt.parseDate(s)
    case Some(t) => t
    case None => 0
  }

  /**
   * The stored registry URL: the pages URL, else the GitHub URL of the
   * repository, kept only when the URL check accepts it. Whatever is
   * stored is an accepted URL or the sentinel.
   */
  function RegistryUrl(rt: Runtime, key: string, repo: RawRepository): (r: string)
    ensures r == InvalidUrlSentinel || rt.isHttpUrl(r)
    ensures rt.isHttpUrl(repo.githubPages.GetOr(GithubPrefix + key)) ==> r == repo.githubPages.GetOr(GithubPrefix + key)
    ensures !rt.isHttpUrl(repo.githubPages.GetOr(GithubPrefix + key)) ==> r == InvalidUrlSentinel
  {
    var raw := repo.githubPages.GetOr(GithubPrefix + key);
    if rt.isHttpUrl(raw) then raw else InvalidUrlSentinel
  }

  /** The fields computed once per repository and shared by all its records. */
  datatype RepoInfo = RepoInfo(
    author: string,
    registryUrl: string,
    stars: nat,
    lastCommit: string,
    lastCommitTimestamp: int)

  function RepoContext(rt: Runtime, key: string, repo: RawRepository): RepoInfo {
    var last := EffectiveLastCommit(repo);
    RepoInfo(Author(key), RegistryUrl(rt, key, repo), ParseStars(repo.stars), last, ParseTimestamp(rt, last))
  }

  // ---------------------------------------------------------------------
  // Per-definition fields
  // ---------------------------------------------------------------------

  /** JavaScript truthiness of an optional string: present and non-empty. */
  predicate Truthy(s: Option<string>) {
    s.Some? && s.value != ""
  }

  /** `compatibility[0]?.image`, undefined for an empty list or a plain-string entry. */
  function FirstImage(compat: seq<RawCompatibility>): Option<string> {
    if |compat| > 0 && compat[0].CompatibilityObject? then compat[0].image else None
  }

  /**
   * `deriveDockerImage`: the definition's `name`, else the first
   * compatibility entry's image, else `registry/slug`, else nothing. A
   * derived image is never the empty string.
   */
  function DeriveDockerImage(slug: string, d: RawDefinition, compat: seq<RawCompatibility>): (r: Option<string>)
    ensures Truthy(d.name) ==> r == d.name
    ensures !Truthy(d.name) && Truthy(FirstImage(compat)) ==> r == FirstImage(compat)
    ensures !Truthy(d.name) && !Truthy(FirstImage(compat)) && Truthy(d.dockerRegistry) ==>
              r == Some(StripTrailingSlash(d.dockerRegistry.value) + "/" + slug)
    ensures r.None? <==> !Truthy(d.name) && !Truthy(FirstImage(compat)) && !Truthy(d.dockerRegistry)
    ensures r.Some? ==> r.value != ""
  {
    if Truthy(d.name) then d.name
    else if Truthy(FirstImage(compat)) then FirstImage(compat)
    else if Truthy(d.dockerRegistry) then Some(StripTrailingSlash(d.dockerRegistry.value) + "/" + slug)
    else None
  }

  /** The `available_tags` of one entry (none for a plain-string entry). */
  function EntryTags(e: RawCompatibility): seq<string> {
    match e
    case VersionText(_) => []
    case CompatibilityObject(_, tags, _) => tags.GetOr([])
  }

  /** `compatibility.flatMap((entry) => entry.available_tags ?? [])`. */
  function Tags(compat: seq<RawCompatibility>): seq<string>
    decreases |compat|
  {
    if compat == [] then [] else Tags(compat[..|compat| - 1]) + EntryTags(compat[|compat| - 1])
  }

  /** The flattened tags are exactly the tags of the entries. */
  lemma {:induction false} TagsMembers(compat: seq<RawCompatibility>, t: string)
    ensures t in Tags(compat) <==> exists k :: 0 <= k < |compat| && t in EntryTags(compat[k])
    decreases |compat|
  {
    if compat != [] {
      var init := compat[..|compat| - 1];
      TagsMembers(init, t);
      forall k | 0 <= k < |init| ensures compat[k] == init[k] {
      }
    }
  }

  // ---------------------------------------------------------------------
  // Compatibility versions
  // ---------------------------------------------------------------------

  predicate IsDigit(c: char) {
    '0' <= c <= '9'
  }

  predicate AllDigits(s: string) {
    forall i :: 0 <= i < |s| ==> IsDigit(s[i])
  }

  /** The length of the leading run of ASCII digits (`\d`). */
  function DigitRun(s: string): (n: nat)
    ensures n <= |s|
    ensures AllDigits(s[..n])
    ensures n < |s| ==> !IsDigit(s[n])
  {
    if s != [] && IsDigit(s[0]) then
      var n := 1 + DigitRun(s[1..]);
      assert s[..n] == [s[0]] + s[1..][..n - 1];
      n
    else 0
  }

  /**
   * `s[..j]` is what `/^(\d+\.\d+)/` captures in `s`: digits, a dot at `i`,
   * digits, and no further digit at `j` (the match is greedy).
   */
  ghost predicate MajorMinorMatch(s: string, i: int, j: int) {
    0 < i && i + 1 < j <= |s| &&
    AllDigits(s[..i]) && s[i] == '.' && AllDigits(s[i + 1..j]) &&
    (j == |s| || !IsDigit(s[j]))
  }

  /** `normalizeCompatibilityVersion`. */
  function NormalizeCompatibilityVersion(v: string): string {
    var a := DigitRun(v);
    if 0 < a < |v| && v[a] == '.' then
      var b := DigitRun(v[a + 1..]);
      if b > 0 then v[..a + 1 + b] + ".x" else v
    else v
  }

  /** A maximal run of `n` leading digits is what DigitRun measures. */
  lemma {:induction false} DigitRunExact(s: string, n: nat)
    requires n <= |s| && AllDigits(s[..n]) && (n < |s| ==> !IsDigit(s[n]))
    ensures DigitRun(s) == n
  {
    if n > 0 {
      assert s[0] == s[..n][0];
      assert s[1..][..n - 1] == s[..n][1..];
      DigitRunExact(s[1..], n - 1);
    }
  }

  /** A `MAJOR.MINOR` prefix is replaced by itself followed by `.x`. */
  lemma NormalizeMajorMinor(v: string, i: int, j: int)
    requires MajorMinorMatch(v, i, j)
    ensures NormalizeCompatibilityVersion(v) == v[..j] + ".x"
  {
    DigitRunExact(v, i);
    var t := v[i + 1..];
    assert t[..j - i - 1] == v[i + 1..j];
    assert j < |v| ==> t[j - i - 1] == v[j];
    DigitRunExact(t, j - i - 1);
  }

  /** The normaliser changes a version only where it has a `MAJOR.MINOR` prefix. */
  lemma NormalizeChangedMatch(v: string) returns (i: int, j: int)
    requires NormalizeCompatibilityVersion(v) != v
    ensures MajorMinorMatch(v, i, j)
  {
    i := DigitRun(v);
    var t := v[i + 1..];
    var b := DigitRun(t);
    j := i + 1 + b;
    assert v[i + 1..j] == t[..b];
    assert j < |v| ==> v[j] == t[b];
  }

  /** A string without a `MAJOR.MINOR` prefix is returned unchanged. */
  lemma NormalizeNoMajorMinor(v: string)
    requires forall i, j :: !MajorMinorMatch(v, i, j)
    ensures NormalizeCompatibilityVersion(v) == v
  {
    if NormalizeCompatibilityVersion(v) != v {
      var i, j := NormalizeChangedMatch(v);
    }
  }

  /** The `.x` form of a match still starts with the same match. */
  lemma MatchKeptByNormalForm(v: string, i: int, j: int)
    requires MajorMinorMatch(v, i, j)
    ensures MajorMinorMatch(v[..j] + ".x", i, j)
  {
    var w := v[..j] + ".x";
    assert w[..i] == v[..i];
    assert w[i + 1..j] == v[i + 1..j];
  }

  /** Normalising an already normalised version changes nothing. */
  lemma NormalizeIdempotent(v: string)
    ensures NormalizeCompatibilityVersion(NormalizeCompatibilityVersion(v)) == NormalizeCompatibilityVersion(v)
  {
    if NormalizeCompatibilityVersion(v) != v {
      var i, j := NormalizeChangedMatch(v);
      NormalizeMajorMinor(v, i, j);
      var w := v[..j] + ".x";
      MatchKeptByNormalForm(v, i, j);
      NormalizeMajorMinor(w, i, j);
      assert w[..j] == v[..j];
    }
  }

  /** The version an entry contributes: a plain string, or a string `version` field. */
  ghost predicate IsVersionOf(e: RawCompatibility, v: string) {
    (e.VersionText? && v == NormalizeCompatibilityVersion(e.text)) ||
    (e.CompatibilityObject? && e.version.Some? && v == NormalizeCompatibilityVersion(e.version.value))
  }

  function EntryVersions(e: RawCompatibility): (r: seq<string>)
    ensures forall v :: v in r <==> IsVersionOf(e, v)
  {
    match e
    case VersionText(t) => [NormalizeCompatibilityVersion(t)]
    case CompatibilityObject(version, _, _) =>
      if version.Some? then [NormalizeCompatibilityVersion(version.value)] else []
  }

  /** The normalised versions of the entries, in entry order, with repetitions. */
  function VersionTexts(compat: seq<RawCompatibility>): seq<string>
    decreases |compat|
  {
    if compat == [] then [] else VersionTexts(compat[..|compat| - 1]) + EntryVersions(compat[|compat| - 1])
  }

  lemma {:induction false} VersionTextsMembers(compat: seq<RawCompatibility>, v: string)
    ensures v in VersionTexts(compat) <==> exists e :: e in compat && IsVersionOf(e, v)
    decreases |compat|
  {
    if compat != [] {
      var init := compat[..|compat| - 1];
      VersionTextsMembers(init, v);
      assert compat == init + [compat[|compat| - 1]];
    }
  }

  /** What `extractCompatibilityVersions` returns for a definition. */
  function CompatibilityVersions(d: RawDefinition): seq<string> {
    SortBy(CodePointCompare, Dedupe(VersionTexts(d.compatibility.GetOr([]))))
  }

  /**
   * The versions are strictly ascending in code-point order (hence free of
   * duplicates), and they are exactly the normalised plain-string entries
   * and string `version` fields.
   */
  lemma CompatibilityVersionsSpec(d: RawDefinition)
    ensures StrictlyAscending(CompatibilityVersions(d))
    ensures NoDup(CompatibilityVersions(d))
    ensures forall v :: v in CompatibilityVersions(d) <==>
              exists e :: e in d.compatibility.GetOr([]) && IsVersionOf(e, v)
  {
    var texts := VersionTexts(d.compatibility.GetOr([]));
    SortDistinctStrings(Dedupe(texts));
    forall v ensures v in CompatibilityVersions(d) <==> exists e :: e in d.compatibility.GetOr([]) && IsVersionOf(e, v) {
      VersionTextsMembers(d.compatibility.GetOr([]), v);
      assert v in Elements(texts) <==> v in texts;
    }
  }

  /**
   * `extractCompatibilityVersions`: adds each entry's normalised version to
   * an insertion-ordered set, then sorts the set's elements.
   */
  method ExtractCompatibilityVersions(d: RawDefinition) returns (r: seq<string>)
    ensures r == CompatibilityVersions(d)
    ensures StrictlyAscending(r)
    ensures forall v :: v in r <==> exists e :: e in d.compatibility.GetOr([]) && IsVersionOf(e, v)
  {
    var compat := d.compatibility.GetOr([]);
    var versions: seq<string> := [];
    var i := 0;
    while i < |compat|
      invariant 0 <= i <= |compat|
      invariant versions == Dedupe(VersionTexts(compat[..i]))
    {
      assert compat[..i + 1][..i] == compat[..i];
      ghost var before := VersionTexts(compat[..i]);
      var entry := compat[i];
      assert VersionTexts(compat[..i + 1]) == before + EntryVersions(entry);
      match entry {
        case VersionText(t) =>
          var v := NormalizeCompatibilityVersion(t);
          assert EntryVersions(entry) == [v];
          DedupeAppend(before, v);
          if v !in versions {
            versions := versions + [v];
          }
        case CompatibilityObject(version, _, _) =>
          if version.Some? {
            var v := NormalizeCompatibilityVersion(version.value);
            assert EntryVersions(entry) == [v];
            DedupeAppend(before, v);
            if v !in versions {
              versions := versions + [v];
            }
          } else {
            assert before + EntryVersions(entry) == before;
          }
      }
      i := i + 1;
    }
    assert compat[..i] == compat;
    r := SortBy(CodePointCompare, versions);
    CompatibilityVersionsSpec(d);
  }

  /** `Set.add` on an insertion-ordered set. */
  lemma DedupeAppend(s: seq<string>, v: string)
    ensures Dedupe(s + [v]) == if v in Dedupe(s) then Dedupe(s) else Dedupe(s) + [v]
  {
    assert (s + [v])[..|s + [v]| - 1] == s;
  }

  // ---------------------------------------------------------------------
  // Records
  // ---------------------------------------------------------------------

  /** The record one definition yields inside its repository. */
  function RecordOf(info: RepoInfo, key: string, slug: string, d: RawDefinition): Workspace {
    var compat := d.compatibility.GetOr([]);
    Workspace(
      slug, d.friendlyName.GetOr(slug), d.description.GetOr(NoDescription),
      info.registryUrl, info.author, info.stars,
      d.categories.GetOr([]), d.architecture.GetOr([]),
      DeriveDockerImage(slug, d, compat), Tags(compat),
      key, info.lastCommit, info.lastCommitTimestamp,
      CompatibilityVersions(d), d)
  }

  function Groups(repo: RawRepository): seq<Option<WorkspaceGroup>> {
    repo.workspaces.GetOr([])
  }

  /** `Object.entries(workspaceGroup ?? {})`. */
  function Entries(group: Option<WorkspaceGroup>): WorkspaceGroup {
    group.GetOr([])
  }

  /** The records of one group's entries; a null definition yields none. */
  function EntryRecords(info: RepoInfo, key: string, entries: WorkspaceGroup): seq<Workspace>
    decreases |entries|
  {
    if entries == [] then []
    else
      var last := entries[|entries| - 1];
      EntryRecords(info, key, entries[..|entries| - 1]) +
      (if last.1.Some? then [RecordOf(info, key, last.0, last.1.value)] else [])
  }

  function GroupsRecords(info: RepoInfo, key: string, groups: seq<Option<WorkspaceGroup>>): seq<Workspace>
    decreases |groups|
  {
    if groups == [] then []
    else GroupsRecords(info, key, groups[..|groups| - 1]) + EntryRecords(info, key, Entries(groups[|groups| - 1]))
  }

  /** The records of one repository entry; a null repository yields none. */
  function RepoRecords(rt: Runtime, key: string, value: Option<RawRepository>): seq<Workspace> {
    if value.Some? then GroupsRecords(RepoContext(rt, key, value.value), key, Groups(value.value)) else []
  }

  /** The records collected before the sort. */
  function DatasetRecords(rt: Runtime, data: RawDataset): seq<Workspace>
    decreases |data|
  {
    if data == [] then []
    else DatasetRecords(rt, data[..|data| - 1]) + RepoRecords(rt, data[|data| - 1].0, data[|data| - 1].1)
  }

  /** `(g, k)` names a non-null definition of the non-null repository `value`. */
  ghost predicate IsSourceIn(value: Option<RawRepository>, g: int, k: int) {
    value.Some? &&
    0 <= g < |Groups(value.value)| &&
    0 <= k < |Entries(Groups(value.value)[g])| &&
    Entries(Groups(value.value)[g])[k].1.Some?
  }

  ghost function RecordIn(rt: Runtime, key: string, value: Option<RawRepository>, g: int, k: int): Workspace
    requires IsSourceIn(value, g, k)
  {
    var repo := value.value;
    var entry := Entries(Groups(repo)[g])[k];
    RecordOf(RepoContext(rt, key, repo), key, entry.0, entry.1.value)
  }

  /** `(i, g, k)` names a non-null definition of a non-null repository. */
  ghost predicate IsSource(data: RawDataset, i: int, g: int, k: int) {
    0 <= i < |data| && IsSourceIn(data[i].1, g, k)
  }

  /** The record the definition at `(i, g, k)` yields. */
  ghost function SourceRecord(rt: Runtime, data: RawDataset, i: int, g: int, k: int): Workspace
    requires IsSource(data, i, g, k)
  {
    RecordIn(rt, data[i].0, data[i].1, g, k)
  }

  lemma {:induction false} EntryRecordsMembers(info: RepoInfo, key: string, entries: WorkspaceGroup, w: Workspace)
    ensures w in EntryRecords(info, key, entries) <==>
            exists k :: 0 <= k < |entries| && entries[k].1.Some? && w == RecordOf(info, key, entries[k].0, entries[k].1.value)
    decreases |entries|
  {
    if entries != [] {
      var init := entries[..|entries| - 1];
      EntryRecordsMembers(info, key, init, w);
      forall k | 0 <= k < |init| ensures entries[k] == init[k] {
      }
    }
  }

  lemma {:induction false} GroupsRecordsMembers(info: RepoInfo, key: string, groups: seq<Option<WorkspaceGroup>>, w: Workspace)
    ensures w in GroupsRecords(info, key, groups) <==>
            exists g :: 0 <= g < |groups| && w in EntryRecords(info, key, Entries(groups[g]))
    decreases |groups|
  {
    if groups != [] {
      var init := groups[..|groups| - 1];
      GroupsRecordsMembers(info, key, init, w);
      forall g | 0 <= g < |init| ensures groups[g] == init[g] {
      }
    }
  }

  lemma RepoRecordsMembers(rt: Runtime, key: string, value: Option<RawRepository>, w: Workspace)
    ensures w in RepoRecords(rt, key, value) <==> exists g, k :: IsSourceIn(value, g, k) && w == RecordIn(rt, key, value, g, k)
  {
    if value.Some? {
      var repo := value.value;
      var info := RepoContext(rt, key, repo);
      var groups := Groups(repo);
      GroupsRecordsMembers(info, key, groups, w);
      if w in RepoRecords(rt, key, value) {
        var g :| 0 <= g < |groups| && w in EntryRecords(info, key, Entries(groups[g]));
        EntryRecordsMembers(info, key, Entries(groups[g]), w);
        var k :| 0 <= k < |Entries(groups[g])| && Entries(groups[g])[k].1.Some? &&
          w == RecordOf(info, key, Entries(groups[g])[k].0, Entries(groups[g])[k].1.value);
        assert IsSourceIn(value, g, k) && w == RecordIn(rt, key, value, g, k);
      }
      if exists g, k :: IsSourceIn(value, g, k) && w == RecordIn(rt, key, value, g, k) {
        var g, k :| IsSourceIn(value, g, k) && w == RecordIn(rt, key, value, g, k);
        EntryRecordsMembers(info, key, Entries(groups[g]), w);
        assert w in EntryRecords(info, key, Entries(groups[g]));
      }
    }
  }

  lemma {:induction false} DatasetRecordsRepos(rt: Runtime, data: RawDataset, w: Workspace)
    ensures w in DatasetRecords(rt, data) <==> exists i :: 0 <= i < |data| && w in RepoRecords(rt, data[i].0, data[i].1)
    decreases |data|
  {
    if data != [] {
      var init := data[..|data| - 1];
      DatasetRecordsRepos(rt, init, w);
      forall i | 0 <= i < |init| ensures data[i] == init[i] {
      }
    }
  }

  /**
   * Every collected record comes from a non-null definition of a non-null
   * repository, and every such definition yields a collected record.
   */
  lemma DatasetRecordsMembers(rt: Runtime, data: RawDataset, w: Workspace)
    ensures w in DatasetRecords(rt, data) <==>
            exists i, g, k :: IsSource(data, i, g, k) && w == SourceRecord(rt, data, i, g, k)
  {
    DatasetRecordsRepos(rt, data, w);
    if w in DatasetRecords(rt, data) {
      var i :| 0 <= i < |data| && w in RepoRecords(rt, data[i].0, data[i].1);
      RepoRecordsMembers(rt, data[i].0, data[i].1, w);
      var g, k :| IsSourceIn(data[i].1, g, k) && w == RecordIn(rt, data[i].0, data[i].1, g, k);
      assert IsSource(data, i, g, k) && w == SourceRecord(rt, data, i, g, k);
    }
    if exists i, g, k :: IsSource(data, i, g, k) && w == SourceRecord(rt, data, i, g, k) {
      var i, g, k :| IsSource(data, i, g, k) && w == SourceRecord(rt, data, i, g, k);
      RepoRecordsMembers(rt, data[i].0, data[i].1, w);
      assert w in RepoRecords(rt, data[i].0, data[i].1);
    }
  }

  /** The number of non-null definitions in a group. */
  function DefinedCount(entries: WorkspaceGroup): nat {
    |Filter(entries, (e: (string, Option<RawDefinition>)) => e.1.Some?)|
  }

  function GroupsDefinedCount(groups: seq<Option<WorkspaceGroup>>): nat
    decreases |groups|
  {
    if groups == [] then 0
    else GroupsDefinedCount(groups[..|groups| - 1]) + DefinedCount(Entries(groups[|groups| - 1]))
  }

  /** The number of non-null definitions in non-null repositories. */
  function DatasetDefinedCount(data: RawDataset): nat
    decreases |data|
  {
    if data == [] then 0
    else
      var last := data[|data| - 1];
      DatasetDefinedCount(data[..|data| - 1]) + (if last.1.Some? then GroupsDefinedCount(Groups(last.1.value)) else 0)
  }

  lemma {:induction false} EntryRecordsCount(info: RepoInfo, key: string, entries: WorkspaceGroup)
    ensures |EntryRecords(info, key, entries)| == DefinedCount(entries)
    decreases |entries|
  {
    if entries != [] {
      EntryRecordsCount(info, key, entries[..|entries| - 1]);
    }
  }

  lemma {:induction false} GroupsRecordsCount(info: RepoInfo, key: string, groups: seq<Option<WorkspaceGroup>>)
    ensures |GroupsRecords(info, key, groups)| == GroupsDefinedCount(groups)
    decreases |groups|
  {
    if groups != [] {
      GroupsRecordsCount(info, key, groups[..|groups| - 1]);
      EntryRecordsCount(info, key, Entries(groups[|groups| - 1]));
    }
  }

  /** Exactly one record per non-null definition of a non-null repository. */
  lemma {:induction false} DatasetRecordsCount(rt: Runtime, data: RawDataset)
    ensures |DatasetRecords(rt, data)| == DatasetDefinedCount(data)
    decreases |data|
  {
    if data != [] {
      var last := data[|data| - 1];
      DatasetRecordsCount(rt, data[..|data| - 1]);
      if last.1.Some? {
        GroupsRecordsCount(RepoContext(rt, last.0, last.1.value), last.0, Groups(last.1.value));
      }
    }
  }

  /**
   * The fields of the record at `(i, g, k)`: author, registry URL, stars
   * and last commit come from its repository, the name falls back to the
   * slug and the description to a placeholder, categories and
   * architectures default to empty, and the image and tags are derived
   * from the definition's compatibility entries.
   */
  lemma SourceRecordFields(rt: Runtime, data: RawDataset, i: int, g: int, k: int)
    requires IsSource(data, i, g, k)
    ensures var w := SourceRecord(rt, data, i, g, k);
            var key := data[i].0;
            var repo := data[i].1.value;
            var entry := Entries(Groups(repo)[g])[k];
            var d := entry.1.value;
            var compat := d.compatibility.GetOr([]);
            w.repository == key &&
            w.author == Author(key) &&
            w.registryUrl == RegistryUrl(rt, key, repo) &&
            w.stars == ParseStars(repo.stars) &&
            w.lastCommit == EffectiveLastCommit(repo) &&
            w.lastCommitTimestamp == ParseTimestamp(rt, EffectiveLastCommit(repo)) &&
            w.slug == entry.0 &&
            w.name == entry.1.value.friendlyName.GetOr(entry.0) &&
            w.description == entry.1.value.description.GetOr(NoDescription) &&
            w.categories == d.categories.GetOr([]) &&
            w.architectures == d.architecture.GetOr([]) &&
            w.dockerImage == DeriveDockerImage(entry.0, d, compat) &&
            w.tags == Tags(compat) &&
            w.compatibilityVersions == CompatibilityVersions(entry.1.value) &&
            w.rawWorkspaceData == entry.1.value
  {
  }

  /** Object keys are distinct. */
  ghost predicate DistinctKeys(data: RawDataset) {
    forall i, j :: 0 <= i < j < |data| ==> data[i].0 != data[j].0
  }

  /**
   * Two records of the same repository agree on everything derived from
   * the repository.
   */
  lemma SameRepositoryShares(rt: Runtime, data: RawDataset, w1: Workspace, w2: Workspace)
    requires DistinctKeys(data)
    requires w1 in DatasetRecords(rt, data) && w2 in DatasetRecords(rt, data)
    requires w1.repository == w2.repository
    ensures w1.author == w2.author && w1.registryUrl == w2.registryUrl
    ensures w1.stars == w2.stars && w1.lastCommit == w2.lastCommit
    ensures w1.lastCommitTimestamp == w2.lastCommitTimestamp
  {
    DatasetRecordsMembers(rt, data, w1);
    DatasetRecordsMembers(rt, data, w2);
    var i1, g1, k1 :| IsSource(data, i1, g1, k1) && w1 == SourceRecord(rt, data, i1, g1, k1);
    var i2, g2, k2 :| IsSource(data, i2, g2, k2) && w2 == SourceRecord(rt, data, i2, g2, k2);
    assert data[i1].0 == w1.repository && data[i2].0 == w2.repository;
    assert i1 == i2;
  }

  // ---------------------------------------------------------------------
  // The canonical order
  // ---------------------------------------------------------------------

  /** The comparator of frontend/src/App.tsx:695-705. */
  function CanonicalCompare(collate: (string, string) -> int, a: Workspace, b: Workspace): int {
    if b.stars != a.stars then b.stars - a.stars
    else if b.lastCommitTimestamp != a.lastCommitTimestamp then b.lastCommitTimestamp - a.lastCommitTimestamp
    else collate(a.name, b.name)
  }

  function CanonicalOrder(collate: (string, string) -> int): (Workspace, Workspace) -> int {
    (a: Workspace, b: Workspace) => CanonicalCompare(collate, a, b)
  }

  /** Stars descending, then last commit descending, then name ascending. */
  ghost predicate CanonicallyOrdered(collate: (string, string) -> int, s: seq<Workspace>) {
    forall i, j :: 0 <= i < j < |s| ==>
      s[i].stars >= s[j].stars &&
      (s[i].stars == s[j].stars ==> s[i].lastCommitTimestamp >= s[j].lastCommitTimestamp) &&
      (s[i].stars == s[j].stars && s[i].lastCommitTimestamp == s[j].lastCommitTimestamp ==>
         collate(s[i].name, s[j].name) <= 0)
  }

  /** With a consistent name collation the canonical comparator is consistent. */
  lemma CanonicalConsistent(collate: (string, string) -> int)
    requires Consistent(collate)
    ensures Consistent(CanonicalOrder(collate))
  {
    var cmp := CanonicalOrder(collate);
    forall a, b ensures cmp(a, b) < 0 <==> cmp(b, a) > 0 {
      assert cmp(a, b) == CanonicalCompare(collate, a, b) && cmp(b, a) == CanonicalCompare(collate, b, a);
    }
    forall a, b, c | cmp(a, b) <= 0 && cmp(b, c) <= 0 ensures cmp(a, c) <= 0 {
      assert cmp(a, b) == CanonicalCompare(collate, a, b);
      assert cmp(b, c) == CanonicalCompare(collate, b, c);
      assert cmp(a, c) == CanonicalCompare(collate, a, c);
      if a.stars == b.stars == c.stars && a.lastCommitTimestamp == b.lastCommitTimestamp == c.lastCommitTimestamp {
        assert collate(a.name, b.name) <= 0 && collate(b.name, c.name) <= 0;
      }
    }
  }

  /** Sorting with the canonical comparator yields the canonical order. */
  lemma CanonicalSortOrdered(collate: (string, string) -> int, s: seq<Workspace>)
    requires Consistent(collate)
    ensures CanonicallyOrdered(collate, SortBy(CanonicalOrder(collate), s))
  {
    CanonicalConsistent(collate);
    SortBySorted(CanonicalOrder(collate), s);
    var r := SortBy(CanonicalOrder(collate), s);
    forall i, j | 0 <= i < j < |r|
      ensures r[i].stars >= r[j].stars
      ensures r[i].stars == r[j].stars ==> r[i].lastCommitTimestamp >= r[j].lastCommitTimestamp
      ensures r[i].stars == r[j].stars && r[i].lastCommitTimestamp == r[j].lastCommitTimestamp ==>
                collate(r[i].name, r[j].name) <= 0
    {
      assert CanonicalOrder(collate)(r[i], r[j]) <= 0;
    }
  }

  /** What `normalizeWorkspaces` returns. */
  function NormalizedWorkspaces(rt: Runtime, data: RawDataset): seq<Workspace> {
    SortBy(CanonicalOrder(rt.collate), DatasetRecords(rt, data))
  }

  /**
   * The normalised collection is a permutation of the collected records,
   * one per non-null definition, in the canonical order.
   */
  lemma NormalizedWorkspacesSpec(rt: Runtime, data: RawDataset)
    ensures multiset(NormalizedWorkspaces(rt, data)) == multiset(DatasetRecords(rt, data))
    ensures |NormalizedWorkspaces(rt, data)| == DatasetDefinedCount(data)
    ensures forall w :: w in NormalizedWorkspaces(rt, data) <==>
              exists i, g, k :: IsSource(data, i, g, k) && w == SourceRecord(rt, data, i, g, k)
    ensures Consistent(rt.collate) ==> CanonicallyOrdered(rt.collate, NormalizedWorkspaces(rt, data))
  {
    DatasetRecordsCount(rt, data);
    forall w ensures w in NormalizedWorkspaces(rt, data) <==>
              exists i, g, k :: IsSource(data, i, g, k) && w == SourceRecord(rt, data, i, g, k)
    {
      SortByMembers(CanonicalOrder(rt.collate), DatasetRecords(rt, data), w);
      DatasetRecordsMembers(rt, data, w);
    }
    if Consistent(rt.collate) {
      CanonicalSortOrdered(rt.collate, DatasetRecords(rt, data));
    }
  }

  /**
   * The innermost loop of `normalizeWorkspaces`: pushes one record for
   * each non-null definition of a group, in the group's order.
   */
  method PushGroupRecords(info: RepoInfo, key: string, entries: WorkspaceGroup, normalized: seq<Workspace>)
    returns (out: seq<Workspace>)
    ensures out == normalized + EntryRecords(info, key, entries)
  {
    out := normalized;
    var k := 0;
    while k < |entries|
      invariant 0 <= k <= |entries|
      invariant out == normalized + EntryRecords(info, key, entries[..k])
    {
      assert entries[..k + 1][..k] == entries[..k];
      var slug := entries[k].0;
      if entries[k].1.Some? {
        var details := entries[k].1.value;
        var compatibility := details.compatibility.GetOr([]);
        var versions := ExtractCompatibilityVersions(details);
        out := out + [Workspace(
          slug, details.friendlyName.GetOr(slug), details.description.GetOr(NoDescription),
          info.registryUrl, info.author, info.stars,
          details.categories.GetOr([]), details.architecture.GetOr([]),
          DeriveDockerImage(slug, details, compatibility), Tags(compatibility),
          key, info.lastCommit, info.lastCommitTimestamp, versions, details)];
      }
      k := k + 1;
    }
    assert entries[..k] == entries;
  }

  /**
   * One iteration of the outer loop of `normalizeWorkspaces`: derives the
   * repository fields once, then pushes the records of every group.
   */
  method PushRepoRecords(rt: Runtime, key: string, value: Option<RawRepository>, normalized: seq<Workspace>)
    returns (out: seq<Workspace>)
    ensures out == normalized + RepoRecords(rt, key, value)
  {
    out := normalized;
    if value.Some? {
      var repo := value.value;
      var lastCommit := EffectiveLastCommit(repo);
      var info := RepoInfo(Author(key), RegistryUrl(rt, key, repo), ParseStars(repo.stars),
                           lastCommit, ParseTimestamp(rt, lastCommit));
      assert info == RepoContext(rt, key, repo);
      var groups := Groups(repo);
      var g := 0;
      while g < |groups|
        invariant 0 <= g <= |groups|
        invariant out == normalized + GroupsRecords(info, key, groups[..g])
      {
        assert groups[..g + 1][..g] == groups[..g];
        out := PushGroupRecords(info, key, Entries(groups[g]), out);
        g := g + 1;
      }
      assert groups[..g] == groups;
    }
  }

  /**
   * `normalizeWorkspaces`: collects one record per definition, repository
   * by repository, then sorts once.
   */
  method NormalizeWorkspaces(rt: Runtime, data: RawDataset) returns (r: seq<Workspace>)
    ensures r == NormalizedWorkspaces(rt, data)
    ensures multiset(r) == multiset(DatasetRecords(rt, data))
    ensures |r| == DatasetDefinedCount(data)
    ensures Consistent(rt.collate) ==> CanonicallyOrdered(rt.collate, r)
  {
    var normalized: seq<Workspace> := [];
    var i := 0;
    while i < |data|
      invariant 0 <= i <= |data|
      invariant normalized == DatasetRecords(rt, data[..i])
    {
      assert data[..i + 1][..i] == data[..i];
      normalized := PushRepoRecords(rt, data[i].0, data[i].1, normalized);
      i := i + 1;
    }
    assert data[..i] == data;
    r := SortBy(CanonicalOrder(rt.collate), normalized);
    NormalizedWorkspacesSpec(rt, data);
  }
}
