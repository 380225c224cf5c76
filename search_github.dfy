/**
 * The two list-processing steps of the dataset builder, search_github.py:
 * `parse_categories`, and `check_image_pullability` with the fallback of
 * `skopeo_inspect`, whose registry lookups are an oracle.
 */
module SearchGithub {
  import opened Common

  // ---------------------------------------------------------------------
  // parse_categories
  // ---------------------------------------------------------------------

  /** A dictionary key as `.get(key, [])` sees it: absent, holding None, or holding a value. */
  datatype Field<T> = Missing | Null | Present(value: T)

  /** `.get(key, [])` for a key that does not hold None: its value, or [] when absent. */
  function OrEmpty<T>(f: Field<seq<T>>): seq<T> {
    if f.Present? then f.value else []
  }

  /** One workspace's data: its `categories` key. */
  datatype WorkspaceData = WorkspaceData(categories: Field<seq<string>>)

  /** A `{name: data}` dictionary, in iteration order. */
  type WorkspaceMap = seq<(string, WorkspaceData)>

  /** One repository's data: its `workspaces` key. */
  datatype RepoData = RepoData(workspaces: Field<seq<WorkspaceMap>>)

  /** The whole `{repo: data}` dictionary, in iteration order. */
  type AllWorkspaceData = seq<(string, RepoData)>

  function WorkspaceCategories(d: WorkspaceData): set<string> {
    Elements(OrEmpty(d.categories))
  }

  function MapCategories(m: WorkspaceMap): set<string>
    decreases |m|
  {
    if m == [] then {} else MapCategories(m[..|m| - 1]) + WorkspaceCategories(m[|m| - 1].1)
  }

  function MapsCategories(ms: seq<WorkspaceMap>): set<string>
    decreases |ms|
  {
    if ms == [] then {} else MapsCategories(ms[..|ms| - 1]) + MapCategories(ms[|ms| - 1])
  }

  function RepoCategories(d: RepoData): set<string> {
    MapsCategories(OrEmpty(d.workspaces))
  }

  /** The union the nested loops of `parse_categories` build. */
  function AllCategories(data: AllWorkspaceData): set<string>
    decreases |data|
  {
    if data == [] then {} else AllCategories(data[..|data| - 1]) + RepoCategories(data[|data| - 1].1)
  }

  /** `(i, g, k)` names a workspace whose category list contains `c`. */
  predicate ListsCategory(data: AllWorkspaceData, i: int, g: int, k: int, c: string) {
    0 <= i < |data| &&
    0 <= g < |OrEmpty(data[i].1.workspaces)| &&
    0 <= k < |OrEmpty(data[i].1.workspaces)[g]| &&
    c in OrEmpty(OrEmpty(data[i].1.workspaces)[g][k].1.categories)
  }

  /** Some workspace of the dictionary holds `categories: None`. */
  predicate MapHasNull(m: WorkspaceMap) {
    exists k :: 0 <= k < |m| && m[k].1.categories.Null?
  }

  /** The repository holds `workspaces: None`, or one of its workspaces holds `categories: None`. */
  predicate RepoHasNull(d: RepoData) {
    d.workspaces.Null? || exists g :: 0 <= g < |OrEmpty(d.workspaces)| && MapHasNull(OrEmpty(d.workspaces)[g])
  }

  /**
   * A None the loops of `parse_categories` would iterate over (`for
   * workspace in None`) or add (`categories.update(None)`): either raises
   * TypeError.
   */
  predicate HasNull(data: AllWorkspaceData) {
    exists i :: 0 <= i < |data| && RepoHasNull(data[i].1)
  }

  /**
   * `parse_categories`: a set filled by three nested loops, then turned
   * into a list in some order. It raises (None here) exactly when some key
   * it reads holds None; otherwise every listed category is there once.
   */
  method ParseCategories(data: AllWorkspaceData) returns (r: Option<seq<string>>)
    ensures r.None? <==> HasNull(data)
    ensures r.Some? ==> NoDup(r.value) && Elements(r.value) == AllCategories(data)
    ensures r.Some? ==> forall c :: c in r.value <==> exists i, g, k :: ListsCategory(data, i, g, k, c)
  {
    var categories: set<string> := {};
    var i := 0;
    while i < |data|
      invariant 0 <= i <= |data|
      invariant categories == AllCategories(data[..i])
      invariant forall i' :: 0 <= i' < i ==> !RepoHasNull(data[i'].1)
    {
      assert data[..i + 1][..i] == data[..i];
      var next := AddRepoCategories(categories, data[i].1);
      if next.None? {
        return None;
      }
      categories := next.value;
      i := i + 1;
    }
    assert data[..i] == data;
    var listed := SetToList(categories);
    forall c ensures c in listed <==> exists i, g, k :: ListsCategory(data, i, g, k, c) {
      AllCategoriesMembers(data, c);
    }
    r := Some(listed);
  }

  /** The loop over one repository's `workspaces`, adding to `categories`. */
  method AddRepoCategories(categories: set<string>, d: RepoData) returns (r: Option<set<string>>)
    ensures r.None? <==> RepoHasNull(d)
    ensures r.Some? ==> r.value == categories + RepoCategories(d)
  {
    if d.workspaces.Null? {
      return None;
    }
    var workspaces := OrEmpty(d.workspaces);
    var acc := categories;
    var j := 0;
    while j < |workspaces|
      invariant 0 <= j <= |workspaces|
      invariant acc == categories + MapsCategories(workspaces[..j])
      invariant forall g :: 0 <= g < j ==> !MapHasNull(workspaces[g])
    {
      assert workspaces[..j + 1][..j] == workspaces[..j];
      var next := AddMapCategories(acc, workspaces[j]);
      if next.None? {
        return None;
      }
      acc := next.value;
      j := j + 1;
    }
    assert workspaces[..j] == workspaces;
    r := Some(acc);
  }

  /** The loop over one `{name: data}` dictionary, adding each workspace's `categories`. */
  method AddMapCategories(categories: set<string>, workspace: WorkspaceMap) returns (r: Option<set<string>>)
    ensures r.None? <==> MapHasNull(workspace)
    ensures r.Some? ==> r.value == categories + MapCategories(workspace)
  {
    var acc := categories;
    var k := 0;
    while k < |workspace|
      invariant 0 <= k <= |workspace|
      invariant acc == categories + MapCategories(workspace[..k])
      invariant forall k' :: 0 <= k' < k ==> !workspace[k'].1.categories.Null?
    {
      assert workspace[..k + 1][..k] == workspace[..k];
      if workspace[k].1.categories.Null? {
        return None;
      }
      acc := acc + Elements(OrEmpty(workspace[k].1.categories));
      k := k + 1;
    }
    assert workspace[..k] == workspace;
    r := Some(acc);
  }

  /** `list(s)`: the elements of a set, each once, in an order the set chooses. */
  method SetToList(s: set<string>) returns (r: seq<string>)
    ensures NoDup(r) && Elements(r) == s
  {
    var rest := s;
    r := [];
    while rest != {}
      invariant rest <= s && Elements(r) == s - rest
      invariant NoDup(r)
      decreases |rest|
    {
      var c :| c in rest;
      NoDupAppend(r, c);
      assert Elements(r + [c]) == Elements(r) + {c};
      r := r + [c];
      rest := rest - {c};
    }
  }

  lemma {:induction false} MapCategoriesMembers(m: WorkspaceMap, c: string)
    ensures c in MapCategories(m) <==> exists k :: 0 <= k < |m| && c in OrEmpty(m[k].1.categories)
    decreases |m|
  {
    if m != [] {
      var init := m[..|m| - 1];
      MapCategoriesMembers(init, c);
      forall k | 0 <= k < |init| ensures m[k] == init[k] {
      }
    }
  }

  lemma {:induction false} MapsCategoriesMembers(ms: seq<WorkspaceMap>, c: string)
    ensures c in MapsCategories(ms) <==> exists g :: 0 <= g < |ms| && c in MapCategories(ms[g])
    decreases |ms|
  {
    if ms != [] {
      var init := ms[..|ms| - 1];
      MapsCategoriesMembers(init, c);
      forall g | 0 <= g < |init| ensures ms[g] == init[g] {
      }
    }
  }

  lemma {:induction false} AllCategoriesRepos(data: AllWorkspaceData, c: string)
    ensures c in AllCategories(data) <==> exists i :: 0 <= i < |data| && c in RepoCategories(data[i].1)
    decreases |data|
  {
    if data != [] {
      var init := data[..|data| - 1];
      AllCategoriesRepos(init, c);
      forall i | 0 <= i < |init| ensures data[i] == init[i] {
      }
    }
  }

  /** A category is collected exactly when some workspace of some repository lists it. */
  lemma AllCategoriesMembers(data: AllWorkspaceData, c: string)
    ensures c in AllCategories(data) <==> exists i, g, k :: ListsCategory(data, i, g, k, c)
  {
    AllCategoriesRepos(data, c);
    if c in AllCategories(data) {
      var i :| 0 <= i < |data| && c in RepoCategories(data[i].1);
      var ms := OrEmpty(data[i].1.workspaces);
      MapsCategoriesMembers(ms, c);
      var g :| 0 <= g < |ms| && c in MapCategories(ms[g]);
      MapCategoriesMembers(ms[g], c);
      var k :| 0 <= k < |ms[g]| && c in OrEmpty(ms[g][k].1.categories);
      assert ListsCategory(data, i, g, k, c);
    }
    if exists i, g, k :: ListsCategory(data, i, g, k, c) {
      var i, g, k :| ListsCategory(data, i, g, k, c);
      var ms := OrEmpty(data[i].1.workspaces);
      MapCategoriesMembers(ms[g], c);
      MapsCategoriesMembers(ms, c);
      assert c in RepoCategories(data[i].1);
    }
  }

  // ---------------------------------------------------------------------
  // check_image_pullability
  // ---------------------------------------------------------------------

  /** A JSON value as loaded by Python's `json` module. */
  datatype Json =
    | JNull
    | JBool(b: bool)
    | JNum(n: real)
    | JStr(s: string)
    | JArr(items: seq<Json>)
    | JObj(fields: map<string, Json>)

  /** Python truthiness. */
  predicate Truthy(v: Json) {
    match v
    case JNull => false
    case JBool(b) => b
    case JNum(n) => n != 0.0
    case JStr(s) => s != []
    case JArr(items) => items != []
    case JObj(fields) => fields != map[]
  }

  /** `d.get(key)`: the value, or None when the key is absent. */
  function Get(d: map<string, Json>, key: string): Json {
    if key in d then d[key] else JNull
  }

  /**
   * `s.replace(p, '')`: every occurrence of `p` removed, scanning left to
   * right without overlaps.
   */
  function RemoveAll(s: string, p: string): (r: string)
    requires p != []
    ensures |r| <= |s|
    decreases |s|
  {
    if IsPrefix(p, s) then RemoveAll(s[|p|..], p)
    else if s == [] then []
    else [s[0]] + RemoveAll(s[1..], p)
  }

  /** Text that does not contain `p` is left alone. */
  lemma {:induction false} RemoveAllAbsent(s: string, p: string)
    requires p != [] && !Contains(s, p)
    ensures RemoveAll(s, p) == s
    decreases |s|
  {
    if s != [] {
      RemoveAllAbsent(s[1..], p);
    }
  }

  /** A leading occurrence goes, and what follows is cleaned in turn. */
  lemma RemoveAllPrefix(p: string, h: string)
    requires p != []
    ensures RemoveAll(p + h, p) == RemoveAll(h, p)
  {
    assert (p + h)[..|p|] == p && (p + h)[|p|..] == h;
  }

  /** A mismatch at index `i` rules out a prefix. */
  lemma NotPrefixAt(p: string, x: string, i: int)
    requires 0 <= i < |p| && (i >= |x| || x[i] != p[i])
    ensures !IsPrefix(p, x)
  {
    if i < |x| && |p| <= |x| {
      assert x[..|p|][i] == x[i];
    }
  }

  /** When no occurrence of `p` starts inside `q`, putting `q` in front adds none. */
  lemma {:induction false} ContainsAfter(q: string, h: string, p: string)
    requires forall k :: 0 <= k < |q| ==> !IsPrefix(p, q[k..] + h)
    ensures Contains(q + h, p) <==> Contains(h, p)
    decreases |q|
  {
    if q != [] {
      assert (q + h)[1..] == q[1..] + h;
      assert q[0..] == q;
      assert !IsPrefix(p, q[0..] + h);
      forall k | 0 <= k < |q[1..]| ensures !IsPrefix(p, q[1..][k..] + h) {
        assert q[1..][k..] == q[k + 1..];
      }
      ContainsAfter(q[1..], h, p);
    } else {
      assert q + h == h;
    }
  }

  /**
   * The registry clean-up of search_github.py:103-109: a non-empty string
   * loses its scheme prefixes and one trailing '/'. Anything but a string,
   * a missing key included, reaches a string method and raises: None.
   */
  function CleanRegistry(v: Json): (r: Option<string>)
    ensures r.Some? <==> v.JStr?
  {
    match v
    case JStr(s) =>
      var t := if s != [] then RemoveAll(RemoveAll(s, "https://"), "http://") else s;
      Some(StripTrailingSlash(t))
    case _ => None
  }

  /** Host text free of both prefixes: only one trailing '/' is dropped. */
  lemma CleanPlainRegistry(h: string)
    requires !Contains(h, "https://") && !Contains(h, "http://")
    ensures CleanRegistry(JStr(h)) == Some(StripTrailingSlash(h))
  {
    if h != [] {
      RemoveAllAbsent(h, "https://");
      RemoveAllAbsent(h, "http://");
    }
  }

  /** An `https://` URL of such a host becomes the host, minus one trailing '/'. */
  lemma CleanHttpsRegistry(h: string)
    requires !Contains(h, "https://") && !Contains(h, "http://")
    ensures CleanRegistry(JStr("https://" + h)) == Some(StripTrailingSlash(h))
  {
    RemoveAllPrefix("https://", h);
    RemoveAllAbsent(h, "https://");
    RemoveAllAbsent(h, "http://");
  }

  /** An `http://` URL of such a host becomes the host, minus one trailing '/'. */
  lemma CleanHttpRegistry(h: string)
    requires !Contains(h, "https://") && !Contains(h, "http://")
    ensures CleanRegistry(JStr("http://" + h)) == Some(StripTrailingSlash(h))
  {
    var q, p := "http://", "https://";
    forall k | 0 <= k < |q| ensures !IsPrefix(p, q[k..] + h) {
      var x := q[k..] + h;
      if k == 0 {
        assert x[..4] == "http";
        NotPrefixAt(p, x, 4);
      } else {
        NotPrefixAt(p, x, 0);
      }
    }
    ContainsAfter(q, h, p);
    RemoveAllAbsent(q + h, p);
    RemoveAllPrefix(q, h);
    RemoveAllAbsent(h, q);
  }

  /**
   * The `skopeo inspect` oracle: `succeeds(ref)` is whether inspecting
   * `docker://ref` succeeds, and `text(v)` is Python's `str(v)` for an
   * image value that is not a string.
   */
  datatype Skopeo = Skopeo(succeeds: string -> bool, text: Json -> string)

  /** The image reference as the f-string renders it. */
  function ImageText(sk: Skopeo, image: Json): string {
    if image.JStr? then image.s else sk.text(image)
  }

  /**
   * `skopeo_inspect(image, docker_registry=registry)`: the bare reference,
   * then, when the registry is non-empty, the reference under it.
   */
  function SkopeoInspect(sk: Skopeo, image: string, registry: string): bool {
    sk.succeeds(image) || (registry != [] && sk.succeeds(registry + "/" + image))
  }

  /** The fallback only runs after a failure, and only with a registry. */
  lemma SkopeoFallback(sk: Skopeo, image: string, registry: string)
    ensures sk.succeeds(image) ==> SkopeoInspect(sk, image, registry)
    ensures registry == [] ==> (SkopeoInspect(sk, image, registry) <==> sk.succeeds(image))
    ensures !sk.succeeds(image) && registry != [] ==>
              (SkopeoInspect(sk, image, registry) <==> sk.succeeds(registry + "/" + image))
  {
  }

  /** An entry is kept: a dict with a truthy `image` that the inspector accepts. */
  predicate Passes(sk: Skopeo, registry: string, entry: Json) {
    entry.JObj? && Truthy(Get(entry.fields, "image")) &&
    SkopeoInspect(sk, ImageText(sk, Get(entry.fields, "image")), registry)
  }

  function Passing(sk: Skopeo, registry: string): Json -> bool {
    (entry: Json) => Passes(sk, registry, entry)
  }

  /** `pullable_images`. */
  function Kept(sk: Skopeo, registry: string, entries: seq<Json>): seq<Json> {
    Filter(entries, Passing(sk, registry))
  }

  predicate AllDicts(entries: seq<Json>) {
    forall k :: 0 <= k < |entries| ==> entries[k].JObj?
  }

  /** What the function does: it raises, returns None, or returns a workspace dict. */
  datatype PullOutcome = Raises | ReturnsNone | Returns(workspace: map<string, Json>)

  function Compatibility(ws: map<string, Json>): Json {
    if "compatibility" in ws then ws["compatibility"] else JArr([])
  }

  /** `check_image_pullability` as a value. */
  function Pullability(sk: Skopeo, ws: map<string, Json>): PullOutcome {
    match CleanRegistry(Get(ws, "docker_registry"))
    case None => Raises
    case Some(registry) =>
      var compatibility := Compatibility(ws);
      if !compatibility.JArr? || !AllDicts(compatibility.items) then ReturnsNone
      else
        var kept := Kept(sk, registry, compatibility.items);
        if kept == [] then ReturnsNone else Returns(ws["compatibility" := JArr(kept)])
  }

  /**
   * `check_image_pullability`: the loop over `compatibility`, which gives
   * up at the first entry that is not a dict.
   */
  method CheckImagePullability(sk: Skopeo, ws: map<string, Json>) returns (out: PullOutcome)
    ensures out == Pullability(sk, ws)
  {
    var registryValue := Get(ws, "docker_registry");
    if !registryValue.JStr? {
      return Raises;
    }
    var registry := registryValue.s;
    if registry != [] {
      registry := RemoveAll(RemoveAll(registry, "https://"), "http://");
    }
    if registry != [] && registry[|registry| - 1] == '/' {
      registry := registry[..|registry| - 1];
    }
    var compatibility := Compatibility(ws);
    if !compatibility.JArr? {
      return ReturnsNone;
    }
    assert Some(registry) == CleanRegistry(registryValue);
    var allDicts, pullable := CollectPullable(sk, registry, compatibility.items);
    if !allDicts {
      return ReturnsNone;
    }
    if pullable != [] {
      return Returns(ws["compatibility" := JArr(pullable)]);
    }
    return ReturnsNone;
  }

  /**
   * The loop of search_github.py:120-137: the entries that pass, in order;
   * it stops, reporting `false`, at the first entry that is not a dict.
   */
  method CollectPullable(sk: Skopeo, registry: string, entries: seq<Json>) returns (allDicts: bool, pullable: seq<Json>)
    ensures allDicts == AllDicts(entries)
    ensures allDicts ==> pullable == Kept(sk, registry, entries)
  {
    pullable := [];
    var i := 0;
    while i < |entries|
      invariant 0 <= i <= |entries|
      invariant AllDicts(entries[..i])
      invariant pullable == Kept(sk, registry, entries[..i])
    {
      assert entries[..i + 1][..i] == entries[..i];
      var entry := entries[i];
      if !entry.JObj? {
        assert !AllDicts(entries);
        return false, pullable;
      }
      var image := Get(entry.fields, "image");
      if Truthy(image) {
        var result := SkopeoInspect(sk, ImageText(sk, image), registry);
        if result {
          pullable := pullable + [entry];
        }
      }
      i := i + 1;
    }
    assert entries[..i] == entries;
    return true, pullable;
  }

  /** It raises exactly when `docker_registry` is missing or not a string. */
  lemma RaisesIff(sk: Skopeo, ws: map<string, Json>)
    ensures Pullability(sk, ws) == Raises <==> !Get(ws, "docker_registry").JStr?
  {
  }

  /** A `compatibility` value that is not a list gives None. */
  lemma NotAListNone(sk: Skopeo, ws: map<string, Json>)
    requires Get(ws, "docker_registry").JStr?
    requires "compatibility" in ws && !ws["compatibility"].JArr?
    ensures Pullability(sk, ws) == ReturnsNone
  {
  }

  /** One entry that is not a dict gives None, whatever the entries before it. */
  lemma NonDictNone(sk: Skopeo, ws: map<string, Json>, k: int)
    requires Get(ws, "docker_registry").JStr?
    requires Compatibility(ws).JArr? && 0 <= k < |Compatibility(ws).items| && !Compatibility(ws).items[k].JObj?
    ensures Pullability(sk, ws) == ReturnsNone
  {
  }

  /**
   * A returned workspace: its `compatibility` is the non-empty, in-order
   * subsequence of the entries that pass, and every other key is as in
   * the input.
   */
  lemma ReturnedShape(sk: Skopeo, ws: map<string, Json>)
    requires Pullability(sk, ws).Returns?
    ensures var out := Pullability(sk, ws).workspace;
            var registry := CleanRegistry(Get(ws, "docker_registry")).value;
            var entries := Compatibility(ws).items;
            Compatibility(ws).JArr? &&
            "compatibility" in out && out["compatibility"].JArr? &&
            out["compatibility"].items != [] &&
            IsSubsequence(out["compatibility"].items, entries) &&
            (forall e :: e in out["compatibility"].items <==> e in entries && Passes(sk, registry, e)) &&
            (forall key :: key != "compatibility" ==> (key in out <==> key in ws)) &&
            (forall key :: key != "compatibility" && key in ws ==> out[key] == ws[key])
  {
    var registry := CleanRegistry(Get(ws, "docker_registry")).value;
    FilterIsSubsequence(Compatibility(ws).items, Passing(sk, registry));
  }

  /**
   * With a string registry and a list of dicts, a workspace is returned
   * exactly when some entry passes.
   */
  lemma ReturnsIff(sk: Skopeo, ws: map<string, Json>)
    requires Get(ws, "docker_registry").JStr?
    requires Compatibility(ws).JArr? && AllDicts(Compatibility(ws).items)
    ensures var registry := CleanRegistry(Get(ws, "docker_registry")).value;
            Pullability(sk, ws).Returns? <==>
            exists e :: e in Compatibility(ws).items && Passes(sk, registry, e)
  {
    var registry := CleanRegistry(Get(ws, "docker_registry")).value;
    var kept := Kept(sk, registry, Compatibility(ws).items);
    if kept != [] {
      assert kept[0] in kept;
    }
  }

  /** An entry whose `image` is missing or falsy is never kept. */
  lemma NoImageDropped(sk: Skopeo, registry: string, entries: seq<Json>, e: Json)
    requires e.JObj? && !Truthy(Get(e.fields, "image"))
    ensures e !in Kept(sk, registry, entries)
  {
  }
}
