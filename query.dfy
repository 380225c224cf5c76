/**
 * The `filteredWorkspaces` memo (frontend/src/App.tsx:166-256): the
 * search, category and compatibility filters, the 0-3 relevance score,
 * and the two-mode ranking sort.
 */
module Query {
  import opened Common
  import opened Sorting
  import opened JsText
  import opened Dataset
  import opened Categories
  import Normalizer

  /** The user's current choices. */
  datatype Filters = Filters(
    searchTerm: string,
    selectedCategory: string,
    selectedSort: string,
    selectedCompatibilities: seq<string>)

  /** The fields searched, in their order. */
  function RawFields(w: Workspace): seq<string> {
    [w.slug, w.name, w.author, w.repository, w.registryUrl]
  }

  /** The normalised search fields, without the empty ones. */
  function SearchFields(lower: string -> string, w: Workspace): seq<string> {
    Filter(NormalizeAll(lower, RawFields(w)), (f: string) => f != [])
  }

  /** The search condition: no needle, or a field containing it. */
  predicate MatchesSearch(needle: string, fields: seq<string>) {
    needle == [] || exists f :: f in fields && Contains(f, needle)
  }

  /** The canonical category a workspace category resolves to. */
  function Canonical(lower: string -> string, lookup: map<string, string>, category: string): Option<string> {
    Lookup(lookup, NormalizeQuery(lower, category))
  }

  /** `!canonical`: nothing found, or the empty string. */
  predicate Unresolved(canonical: Option<string>) {
    canonical.None? || canonical.value == ""
  }

  /**
   * The category condition: 'all'; for 'other', some category that does
   * not resolve; otherwise some category that resolves to the selection.
   */
  predicate MatchesCategory(lower: string -> string, lookup: map<string, string>, selected: string, categories: seq<string>) {
    selected == "all" ||
    if selected == "other" then
      exists c :: c in categories && Unresolved(Canonical(lower, lookup, c))
    else
      exists c :: c in categories && Canonical(lower, lookup, c) == Some(selected)
  }

  /** The compatibility condition: nothing selected, or a selected version offered. */
  predicate MatchesCompatibility(selected: seq<string>, versions: seq<string>) {
    |selected| == 0 || exists v :: v in selected && v in versions
  }

  /** All three conditions, for the current filters. */
  predicate Matches(lower: string -> string, lookup: map<string, string>, f: Filters, w: Workspace) {
    MatchesSearch(NormalizeQuery(lower, f.searchTerm), SearchFields(lower, w)) &&
    MatchesCategory(lower, lookup, NormalizeQuery(lower, f.selectedCategory), w.categories) &&
    MatchesCompatibility(f.selectedCompatibilities, w.compatibilityVersions)
  }

  /** 3 without a needle; 0 for an exact field, 1 for a prefix, 2 otherwise. */
  function Score(needle: string, fields: seq<string>): nat {
    if needle == [] then 3
    else if needle in fields then 0
    else if exists f :: f in fields && IsPrefix(needle, f) then 1
    else 2
  }

  function ScoreOf(lower: string -> string, f: Filters, w: Workspace): nat {
    Score(NormalizeQuery(lower, f.searchTerm), SearchFields(lower, w))
  }

  /** One entry of `results`. */
  datatype Ranked = Ranked(workspace: Workspace, score: nat)

  function RankedOf(lower: string -> string, lookup: map<string, string>, f: Filters, w: Workspace): Option<Ranked> {
    if Matches(lower, lookup, f, w) then Some(Ranked(w, ScoreOf(lower, f, w))) else None
  }

  function Ranker(lower: string -> string, lookup: map<string, string>, f: Filters): Workspace -> Option<Ranked> {
    (w: Workspace) => RankedOf(lower, lookup, f, w)
  }

  function Matching(lower: string -> string, lookup: map<string, string>, f: Filters): Workspace -> bool {
    (w: Workspace) => Matches(lower, lookup, f, w)
  }

  /** What the `forEach` loop pushes: the matches with their scores, in order. */
  function Collected(lower: string -> string, lookup: map<string, string>, f: Filters, ws: seq<Workspace>): seq<Ranked> {
    FilterMap(ws, Ranker(lower, lookup, f))
  }

  /** The comparator of frontend/src/App.tsx:229-253. */
  function RankCompare(collate: (string, string) -> int, mode: string, a: Ranked, b: Ranked): int {
    var x, y := a.workspace, b.workspace;
    if a.score != b.score then a.score - b.score
    else if mode == "updated" && y.lastCommitTimestamp != x.lastCommitTimestamp then y.lastCommitTimestamp - x.lastCommitTimestamp
    else if y.stars != x.stars then y.stars - x.stars
    else if mode != "updated" && y.lastCommitTimestamp != x.lastCommitTimestamp then y.lastCommitTimestamp - x.lastCommitTimestamp
    else collate(x.name, y.name)
  }

  function RankOrder(collate: (string, string) -> int, mode: string): (Ranked, Ranked) -> int {
    (a: Ranked, b: Ranked) => RankCompare(collate, mode, a, b)
  }

  function Workspaces(s: seq<Ranked>): seq<Workspace> {
    Map(s, (e: Ranked) => e.workspace)
  }

  /** What `filteredWorkspaces` evaluates to. */
  function FilteredWorkspaces(rt: Runtime, lookup: map<string, string>, f: Filters, ws: seq<Workspace>): seq<Workspace> {
    Workspaces(SortBy(RankOrder(rt.collate, f.selectedSort), Collected(rt.lower, lookup, f, ws)))
  }

  /**
   * `filteredWorkspaces`: pushes each match with its score, sorts the
   * results, and keeps the workspaces.
   */
  method FilterWorkspaces(rt: Runtime, lookup: map<string, string>, f: Filters, ws: seq<Workspace>)
    returns (r: seq<Workspace>)
    ensures r == FilteredWorkspaces(rt, lookup, f, ws)
    ensures forall w :: w in r <==> w in ws && Matches(rt.lower, lookup, f, w)
    ensures multiset(r) == multiset(Filter(ws, Matching(rt.lower, lookup, f)))
  {
    var results := CollectMatches(rt.lower, lookup, f, ws);
    var sorted := SortBy(RankOrder(rt.collate, f.selectedSort), results);
    r := Workspaces(sorted);
    FilteredSpec(rt, lookup, f, ws);
  }

  /** The `forEach` of frontend/src/App.tsx:171-227: each match is pushed with its score. */
  method CollectMatches(lower: string -> string, lookup: map<string, string>, f: Filters, ws: seq<Workspace>)
    returns (results: seq<Ranked>)
    ensures results == Collected(lower, lookup, f, ws)
  {
    results := [];
    var i := 0;
    while i < |ws|
      invariant 0 <= i <= |ws|
      invariant results == Collected(lower, lookup, f, ws[..i])
    {
      results := VisitWorkspace(lower, lookup, f, ws, i, results);
      i := i + 1;
    }
    assert ws[..i] == ws;
  }

  /** The `forEach` callback for `ws[i]`: push it with its score when it matches. */
  method VisitWorkspace(lower: string -> string, lookup: map<string, string>, f: Filters, ws: seq<Workspace>, i: int, results: seq<Ranked>)
    returns (out: seq<Ranked>)
    requires 0 <= i < |ws| && results == Collected(lower, lookup, f, ws[..i])
    ensures out == Collected(lower, lookup, f, ws[..i + 1])
  {
    var workspace := ws[i];
    if Matches(lower, lookup, f, workspace) {
      assert Ranker(lower, lookup, f)(workspace) == Some(Ranked(workspace, ScoreOf(lower, f, workspace)));
      FilterMapPush(ws, Ranker(lower, lookup, f), i);
      out := results + [Ranked(workspace, ScoreOf(lower, f, workspace))];
    } else {
      FilterMapSkip(ws, Ranker(lower, lookup, f), i);
      out := results;
    }
  }

  /** The scorer is defined exactly on the matches, and keeps the workspace. */
  lemma RankerMatching(lower: string -> string, lookup: map<string, string>, f: Filters)
    ensures forall w :: Ranker(lower, lookup, f)(w).Some? <==> Matching(lower, lookup, f)(w)
    ensures forall w :: Ranker(lower, lookup, f)(w).Some? ==> Ranker(lower, lookup, f)(w).value.workspace == w
  {
  }

  /** Dropping the scores from the pushed results leaves the matching workspaces in order. */
  lemma CollectedWorkspaces(lower: string -> string, lookup: map<string, string>, f: Filters, ws: seq<Workspace>)
    ensures Workspaces(Collected(lower, lookup, f, ws)) == Filter(ws, Matching(lower, lookup, f))
  {
    RankerMatching(lower, lookup, f);
    FilterMapProject(ws, Ranker(lower, lookup, f), Matching(lower, lookup, f), (e: Ranked) => e.workspace);
  }

  /** Every pushed result carries its workspace's score. */
  lemma CollectedScores(lower: string -> string, lookup: map<string, string>, f: Filters, ws: seq<Workspace>, e: Ranked)
    requires e in Collected(lower, lookup, f, ws)
    ensures e.workspace in ws && Matches(lower, lookup, f, e.workspace)
    ensures e.score == ScoreOf(lower, f, e.workspace)
  {
    FilterMapMembers(ws, Ranker(lower, lookup, f), e);
    var k :| 0 <= k < |ws| && Ranker(lower, lookup, f)(ws[k]) == Some(e);
    assert RankedOf(lower, lookup, f, ws[k]) == Some(e);
  }

  /**
   * The result holds exactly the workspaces that meet all three
   * conditions, each as often as in the input.
   */
  lemma FilteredSpec(rt: Runtime, lookup: map<string, string>, f: Filters, ws: seq<Workspace>)
    ensures forall w :: w in FilteredWorkspaces(rt, lookup, f, ws) <==> w in ws && Matches(rt.lower, lookup, f, w)
    ensures multiset(FilteredWorkspaces(rt, lookup, f, ws)) == multiset(Filter(ws, Matching(rt.lower, lookup, f)))
  {
    var collected := Collected(rt.lower, lookup, f, ws);
    var sorted := SortBy(RankOrder(rt.collate, f.selectedSort), collected);
    var kept := Filter(ws, Matching(rt.lower, lookup, f));
    CollectedWorkspaces(rt.lower, lookup, f, ws);
    MapPermutation(sorted, collected, (e: Ranked) => e.workspace);
    forall w ensures w in FilteredWorkspaces(rt, lookup, f, ws) <==> w in ws && Matches(rt.lower, lookup, f, w) {
      assert w in FilteredWorkspaces(rt, lookup, f, ws) <==> w in multiset(Workspaces(sorted));
      assert w in kept <==> w in multiset(kept);
    }
  }

  /** `a` may precede `b` among results with equal scores. */
  ghost predicate TieOrdered(collate: (string, string) -> int, mode: string, a: Workspace, b: Workspace) {
    if mode == "updated" then
      a.lastCommitTimestamp > b.lastCommitTimestamp ||
      (a.lastCommitTimestamp == b.lastCommitTimestamp &&
        (a.stars > b.stars || (a.stars == b.stars && collate(a.name, b.name) <= 0)))
    else
      a.stars > b.stars ||
      (a.stars == b.stars &&
        (a.lastCommitTimestamp > b.lastCommitTimestamp ||
          (a.lastCommitTimestamp == b.lastCommitTimestamp && collate(a.name, b.name) <= 0)))
  }

  /** Scores ascend; within a score the mode's keys and then the name decide. */
  ghost predicate RankedOrdered(lower: string -> string, collate: (string, string) -> int, f: Filters, r: seq<Workspace>) {
    forall i, j :: 0 <= i < j < |r| ==>
      ScoreOf(lower, f, r[i]) < ScoreOf(lower, f, r[j]) ||
      (ScoreOf(lower, f, r[i]) == ScoreOf(lower, f, r[j]) && TieOrdered(collate, f.selectedSort, r[i], r[j]))
  }

  /** With a consistent collation the ranking comparator is consistent. */
  lemma RankConsistent(collate: (string, string) -> int, mode: string)
    requires Consistent(collate)
    ensures Consistent(RankOrder(collate, mode))
  {
    var cmp := RankOrder(collate, mode);
    forall a, b ensures cmp(a, b) < 0 <==> cmp(b, a) > 0 {
      assert cmp(a, b) == RankCompare(collate, mode, a, b) && cmp(b, a) == RankCompare(collate, mode, b, a);
    }
    forall a, b, c | cmp(a, b) <= 0 && cmp(b, c) <= 0 ensures cmp(a, c) <= 0 {
      assert cmp(a, b) == RankCompare(collate, mode, a, b);
      assert cmp(b, c) == RankCompare(collate, mode, b, c);
      assert cmp(a, c) == RankCompare(collate, mode, a, c);
      var x, y, z := a.workspace, b.workspace, c.workspace;
      if a.score == b.score == c.score && x.stars == y.stars == z.stars &&
         x.lastCommitTimestamp == y.lastCommitTimestamp == z.lastCommitTimestamp {
        assert collate(x.name, y.name) <= 0 && collate(y.name, z.name) <= 0;
      }
    }
  }

  /** What "not after" under the ranking comparator means for two results. */
  lemma RankLe(collate: (string, string) -> int, mode: string, a: Ranked, b: Ranked)
    requires RankCompare(collate, mode, a, b) <= 0
    ensures a.score < b.score || (a.score == b.score && TieOrdered(collate, mode, a.workspace, b.workspace))
  {
  }

  /** The result is in ranking order whenever the collation is consistent. */
  lemma FilteredOrdered(rt: Runtime, lookup: map<string, string>, f: Filters, ws: seq<Workspace>)
    requires Consistent(rt.collate)
    ensures RankedOrdered(rt.lower, rt.collate, f, FilteredWorkspaces(rt, lookup, f, ws))
  {
    var collected := Collected(rt.lower, lookup, f, ws);
    var cmp := RankOrder(rt.collate, f.selectedSort);
    var sorted := SortBy(cmp, collected);
    var r := FilteredWorkspaces(rt, lookup, f, ws);
    RankConsistent(rt.collate, f.selectedSort);
    SortBySorted(cmp, collected);
    forall i, j | 0 <= i < j < |r|
      ensures ScoreOf(rt.lower, f, r[i]) < ScoreOf(rt.lower, f, r[j]) ||
              (ScoreOf(rt.lower, f, r[i]) == ScoreOf(rt.lower, f, r[j]) && TieOrdered(rt.collate, f.selectedSort, r[i], r[j]))
    {
      assert cmp(sorted[i], sorted[j]) <= 0;
      RankLe(rt.collate, f.selectedSort, sorted[i], sorted[j]);
      SortByMembers(cmp, collected, sorted[i]);
      SortByMembers(cmp, collected, sorted[j]);
      CollectedScores(rt.lower, lookup, f, ws, sorted[i]);
      CollectedScores(rt.lower, lookup, f, ws, sorted[j]);
    }
  }

  /** The score is 3 exactly when the needle is empty. */
  lemma ScoreThreeIffNoNeedle(needle: string, fields: seq<string>)
    ensures Score(needle, fields) == 3 <==> needle == []
    ensures needle != [] && MatchesSearch(needle, fields) ==> Score(needle, fields) <= 2
  {
  }

  /** An exact field match is also a prefix match and a substring match. */
  lemma ExactIsPrefixIsContained(needle: string, field: string)
    requires needle == field
    ensures IsPrefix(needle, field) && Contains(field, needle)
  {
    assert field[..|needle|] == field;
  }

  /** In a ranked result a lower score always comes first. */
  lemma LowerScoreFirst(lower: string -> string, collate: (string, string) -> int, f: Filters, r: seq<Workspace>, i: int, j: int)
    requires RankedOrdered(lower, collate, f, r)
    requires 0 <= i < |r| && 0 <= j < |r| && ScoreOf(lower, f, r[i]) < ScoreOf(lower, f, r[j])
    ensures i < j
  {
  }

  /** A field equal to a non-empty needle scores 0. */
  lemma ScoreExact(needle: string, fields: seq<string>)
    requires needle != [] && needle in fields
    ensures Score(needle, fields) == 0
  {
  }

  /** Without an equal field, a non-empty needle scores more than 0. */
  lemma ScoreNotExact(needle: string, fields: seq<string>)
    requires needle != [] && needle !in fields
    ensures Score(needle, fields) > 0
  {
  }

  /** A field starting with a non-empty needle scores at most 1. */
  lemma ScorePrefix(needle: string, fields: seq<string>)
    requires needle != [] && exists field :: field in fields && IsPrefix(needle, field)
    ensures Score(needle, fields) <= 1
  {
  }

  /** When no field starts with a non-empty needle, the score is 2. */
  lemma ScoreInfix(needle: string, fields: seq<string>)
    requires needle != [] && forall field :: field in fields ==> !IsPrefix(needle, field)
    ensures Score(needle, fields) == 2
  {
    if needle in fields {
      ExactIsPrefixIsContained(needle, needle);
    }
  }

  /** No field of a workspace is empty, so an empty needle is never one of them. */
  lemma SearchFieldsNonEmpty(lower: string -> string, w: Workspace)
    ensures [] !in SearchFields(lower, w)
  {
  }

  /**
   * Every result with a field equal to the needle comes before every
   * result without one.
   */
  lemma ExactMatchesFirst(rt: Runtime, lookup: map<string, string>, f: Filters, ws: seq<Workspace>, i: int, j: int)
    requires Consistent(rt.collate)
    requires var r := FilteredWorkspaces(rt, lookup, f, ws);
             0 <= i < |r| && 0 <= j < |r| &&
             NormalizeQuery(rt.lower, f.searchTerm) in SearchFields(rt.lower, r[i]) &&
             NormalizeQuery(rt.lower, f.searchTerm) !in SearchFields(rt.lower, r[j])
    ensures i < j
  {
    var r := FilteredWorkspaces(rt, lookup, f, ws);
    var needle := NormalizeQuery(rt.lower, f.searchTerm);
    SearchFieldsNonEmpty(rt.lower, r[i]);
    ScoreExact(needle, SearchFields(rt.lower, r[i]));
    ScoreNotExact(needle, SearchFields(rt.lower, r[j]));
    FilteredOrdered(rt, lookup, f, ws);
    LowerScoreFirst(rt.lower, rt.collate, f, r, i, j);
  }

  /**
   * With a needle, every result with a field starting with the needle
   * comes before every result where it only occurs further in.
   */
  lemma PrefixMatchesBeforeInfix(rt: Runtime, lookup: map<string, string>, f: Filters, ws: seq<Workspace>, i: int, j: int)
    requires Consistent(rt.collate)
    requires NormalizeQuery(rt.lower, f.searchTerm) != []
    requires var r := FilteredWorkspaces(rt, lookup, f, ws);
             var needle := NormalizeQuery(rt.lower, f.searchTerm);
             0 <= i < |r| && 0 <= j < |r| &&
             (exists field :: field in SearchFields(rt.lower, r[i]) && IsPrefix(needle, field)) &&
             (forall field :: field in SearchFields(rt.lower, r[j]) ==> !IsPrefix(needle, field))
    ensures i < j
  {
    var r := FilteredWorkspaces(rt, lookup, f, ws);
    var needle := NormalizeQuery(rt.lower, f.searchTerm);
    ScorePrefix(needle, SearchFields(rt.lower, r[i]));
    ScoreInfix(needle, SearchFields(rt.lower, r[j]));
    FilteredOrdered(rt, lookup, f, ws);
    LowerScoreFirst(rt.lower, rt.collate, f, r, i, j);
  }

  /** A workspace without categories matches the category 'all' and nothing else. */
  lemma NoCategoriesOnlyAll(lower: string -> string, lookup: map<string, string>, selected: string)
    ensures MatchesCategory(lower, lookup, selected, []) <==> selected == "all"
  {
  }

  /**
   * Against the table built from `configs`, a specific selection matches
   * exactly when some category resolves to it by label or first alias.
   */
  lemma MatchesCategoryResolve(lower: string -> string, configs: seq<CategoryDefinition>, selected: string, categories: seq<string>)
    requires selected != "all" && selected != "other"
    ensures MatchesCategory(lower, AliasLookup(configs), selected, categories) <==>
            exists c :: c in categories && Resolve(configs, NormalizeQuery(lower, c)) == Some(selected)
  {
    forall c | c in categories
      ensures Canonical(lower, AliasLookup(configs), c) == Resolve(configs, NormalizeQuery(lower, c))
    {
      AliasLookupSpec(configs, NormalizeQuery(lower, c));
    }
  }

  /**
   * The 'other' selection matches exactly when some category resolves
   * neither by label nor by alias, or resolves to the empty string.
   */
  lemma MatchesCategoryOther(lower: string -> string, configs: seq<CategoryDefinition>, categories: seq<string>)
    ensures MatchesCategory(lower, AliasLookup(configs), "other", categories) <==>
            exists c :: c in categories && Unresolved(Resolve(configs, NormalizeQuery(lower, c)))
  {
    forall c | c in categories
      ensures Canonical(lower, AliasLookup(configs), c) == Resolve(configs, NormalizeQuery(lower, c))
    {
      AliasLookupSpec(configs, NormalizeQuery(lower, c));
    }
  }

  /** The filters the page opens with (frontend/src/App.tsx:78-81). */
  function InitialFilters(): Filters {
    Filters("", "all", "stars", [])
  }

  /** The opening search text and category survive normalisation as themselves. */
  lemma InitialFiltersNormalized(lower: string -> string)
    ensures NormalizeQuery(lower, "") == lower("")
    ensures NormalizeQuery(lower, "all") == lower("all")
  {
    TrimUnspaced("");
    assert !IsJsSpace('a') && !IsJsSpace('l');
    TrimUnspaced("all");
  }

  /** Under the opening filters every workspace matches, with the no-search score. */
  lemma InitialFiltersMatch(lower: string -> string, lookup: map<string, string>, w: Workspace)
    requires lower("") == "" && lower("all") == "all"
    ensures Matches(lower, lookup, InitialFilters(), w)
    ensures ScoreOf(lower, InitialFilters(), w) == 3
  {
    InitialFiltersNormalized(lower);
    var fields := SearchFields(lower, w);
    assert MatchesSearch(NormalizeQuery(lower, ""), fields);
    assert MatchesCategory(lower, lookup, NormalizeQuery(lower, "all"), w.categories);
    assert Score(NormalizeQuery(lower, ""), fields) == 3;
  }

  /** Under the opening filters every workspace is pushed, in order. */
  lemma InitialCollectedAll(lower: string -> string, lookup: map<string, string>, ws: seq<Workspace>)
    requires lower("") == "" && lower("all") == "all"
    ensures Workspaces(Collected(lower, lookup, InitialFilters(), ws)) == ws
  {
    var p := Matching(lower, lookup, InitialFilters());
    forall k | 0 <= k < |ws| ensures p(ws[k]) {
      InitialFiltersMatch(lower, lookup, ws[k]);
    }
    CollectedWorkspaces(lower, lookup, InitialFilters(), ws);
    FilterKeepsAll(ws, p);
  }

  /** Under the opening filters every workspace is pushed, in order, with score 3. */
  lemma InitialCollected(lower: string -> string, lookup: map<string, string>, ws: seq<Workspace>)
    requires lower("") == "" && lower("all") == "all"
    ensures |Collected(lower, lookup, InitialFilters(), ws)| == |ws|
    ensures forall k :: 0 <= k < |ws| ==> Collected(lower, lookup, InitialFilters(), ws)[k] == Ranked(ws[k], 3)
  {
    var c := Collected(lower, lookup, InitialFilters(), ws);
    InitialCollectedAll(lower, lookup, ws);
    forall k | 0 <= k < |ws| ensures c[k] == Ranked(ws[k], 3) {
      assert c[k].workspace == Workspaces(c)[k];
      CollectedScores(lower, lookup, InitialFilters(), ws, c[k]);
      InitialFiltersMatch(lower, lookup, ws[k]);
    }
  }

  /**
   * Results of equal score over workspaces in the canonical order are in
   * order for the 'stars' ranking: there it agrees with the canonical comparator.
   */
  lemma CanonicalIsStarsRanked(collate: (string, string) -> int, c: seq<Ranked>)
    requires forall i, j :: 0 <= i < j < |c| ==> c[i].score == c[j].score
    requires Normalizer.CanonicallyOrdered(collate, Workspaces(c))
    ensures Sorted(RankOrder(collate, "stars"), c)
  {
    var ws := Workspaces(c);
    forall i, j | 0 <= i < j < |c| ensures RankOrder(collate, "stars")(c[i], c[j]) <= 0 {
      assert c[i].workspace == ws[i] && c[j].workspace == ws[j];
    }
  }

  /**
   * Under the opening filters a list already in the canonical order comes
   * back unchanged: every entry scores 3, ranking by stars then agrees
   * with the canonical comparator, and the stable sort keeps ties in place.
   */
  lemma InitialFiltersKeepOrder(rt: Runtime, lookup: map<string, string>, ws: seq<Workspace>)
    requires rt.lower("") == "" && rt.lower("all") == "all"
    requires Consistent(rt.collate) && Normalizer.CanonicallyOrdered(rt.collate, ws)
    ensures FilteredWorkspaces(rt, lookup, InitialFilters(), ws) == ws
  {
    var c := Collected(rt.lower, lookup, InitialFilters(), ws);
    var cmp := RankOrder(rt.collate, "stars");
    InitialCollected(rt.lower, lookup, ws);
    assert Workspaces(c) == ws;
    CanonicalIsStarsRanked(rt.collate, c);
    RankConsistent(rt.collate, "stars");
    SortBySortedIsIdentity(cmp, c);
  }

  /** The page's first render lists the normalised collection in its canonical order. */
  lemma InitialViewIsNormalized(rt: Runtime, lookup: map<string, string>, data: RawDataset)
    requires rt.lower("") == "" && rt.lower("all") == "all" && Consistent(rt.collate)
    ensures FilteredWorkspaces(rt, lookup, InitialFilters(), Normalizer.NormalizedWorkspaces(rt, data)) ==
            Normalizer.NormalizedWorkspaces(rt, data)
  {
    Normalizer.NormalizedWorkspacesSpec(rt, data);
    InitialFiltersKeepOrder(rt, lookup, Normalizer.NormalizedWorkspaces(rt, data));
  }
}
