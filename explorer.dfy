/**
 * The explorer page's state (frontend/src/App.tsx:78-82): the four
 * filter choices, incremental paging in steps of LOAD_STEP, and the
 * handlers that change them.
 */
module Explorer {
  import opened Common
  import opened Sorting
  import opened Dataset
  import Query
  import Normalizer

  /** `LOAD_STEP`: the page size and the number of cards one "load more" adds. */
  const LoadStep: nat := 24

  /** `safeVisibleCount`: the cards shown, never more than there are. */
  function ShownCount(visibleCount: nat, total: nat): (n: nat)
    ensures n <= visibleCount && n <= total
    ensures n == visibleCount || n == total
  {
    if visibleCount < total then visibleCount else total
  }

  /** `visibleWorkspaces`: the first `ShownCount` results. */
  function VisibleWorkspaces<T>(results: seq<T>, visibleCount: nat): (r: seq<T>)
    ensures IsPrefix(r, results)
    ensures |r| == ShownCount(visibleCount, |results|)
  {
    results[..ShownCount(visibleCount, |results|)]
  }

  /** `hasMore`: some results are not shown yet. */
  predicate HasMore(visibleCount: nat, total: nat) {
    total > ShownCount(visibleCount, total)
  }

  /** The "load more" update: one more step, capped at the number of results. */
  function NextVisibleCount(current: nat, total: nat): (n: nat)
    ensures n <= total
    ensures n <= current + LoadStep
    ensures n == total || n == current + LoadStep
  {
    if current + LoadStep < total then current + LoadStep else total
  }

  /** There is more to show exactly when fewer cards are asked for than there are results. */
  lemma HasMoreIff(visibleCount: nat, total: nat)
    ensures HasMore(visibleCount, total) <==> visibleCount < total
    ensures !HasMore(visibleCount, total) ==> ShownCount(visibleCount, total) == total
  {
  }

  /**
   * Whenever the button is shown, a click reveals between one and
   * LOAD_STEP more cards, and the button stays exactly when more than a
   * step was missing.
   */
  lemma LoadMoreProgress(current: nat, total: nat)
    requires HasMore(current, total)
    ensures ShownCount(current, total) < ShownCount(NextVisibleCount(current, total), total)
    ensures ShownCount(NextVisibleCount(current, total), total) - ShownCount(current, total) <= LoadStep
    ensures HasMore(NextVisibleCount(current, total), total) <==> total > current + LoadStep
  {
  }

  /** The visible count after `clicks` presses of "load more". */
  function AfterClicks(current: nat, total: nat, clicks: nat): nat {
    if clicks == 0 then current else NextVisibleCount(AfterClicks(current, total, clicks - 1), total)
  }

  /** Pressing "load more" ceil((total - current) / LOAD_STEP) times shows every result. */
  lemma {:induction false} ClicksToShowAll(current: nat, total: nat)
    requires current <= total
    ensures ShownCount(AfterClicks(current, total, (total - current + LoadStep - 1) / LoadStep), total) == total
    ensures !HasMore(AfterClicks(current, total, (total - current + LoadStep - 1) / LoadStep), total)
    decreases total - current
  {
    var k := (total - current + LoadStep - 1) / LoadStep;
    if k > 0 {
      var next := NextVisibleCount(current, total);
      assert (total - next + LoadStep - 1) / LoadStep == k - 1;
      ClicksToShowAll(next, total);
      AfterClicksShift(current, total, k - 1);
    }
  }

  /** Counting the first click separately. */
  lemma {:induction false} AfterClicksShift(current: nat, total: nat, clicks: nat)
    ensures AfterClicks(current, total, clicks + 1) == AfterClicks(NextVisibleCount(current, total), total, clicks)
  {
    if clicks > 0 {
      AfterClicksShift(current, total, clicks - 1);
    }
  }

  /** The page's filter state and paging. */
  class ExplorerState {
    var searchTerm: string
    var selectedCategory: string
    var selectedSort: string
    var selectedCompatibilities: seq<string>
    var visibleCount: nat

    /**
     * The handlers never put a version in the selection twice, and never
     * put 'all' in it: picking 'all' clears the selection instead.
     */
    ghost predicate Valid()
      reads this
    {
      NoDup(selectedCompatibilities) && "all" !in selectedCompatibilities
    }

    /** The filters the result list is computed from. */
    function CurrentFilters(): (f: Query.Filters)
      reads this
      ensures f.searchTerm == searchTerm && f.selectedCategory == selectedCategory
      ensures f.selectedSort == selectedSort && f.selectedCompatibilities == selectedCompatibilities
    {
      Query.Filters(searchTerm, selectedCategory, selectedSort, selectedCompatibilities)
    }

    /**
     * `visibleWorkspaces` over the collection `ws`: a prefix of the ranked
     * results for the current filters, as long as the shown count, made
     * only of workspaces of `ws` that meet those filters.
     */
    function VisibleCards(rt: Runtime, lookup: map<string, string>, ws: seq<Workspace>): (r: seq<Workspace>)
      reads this
      ensures IsPrefix(r, Query.FilteredWorkspaces(rt, lookup, CurrentFilters(), ws))
      ensures |r| == ShownCount(visibleCount, |Query.FilteredWorkspaces(rt, lookup, CurrentFilters(), ws)|)
      ensures forall w :: w in r ==> w in ws && Query.Matches(rt.lower, lookup, CurrentFilters(), w)
    {
      var results := Query.FilteredWorkspaces(rt, lookup, CurrentFilters(), ws);
      Query.FilteredSpec(rt, lookup, CurrentFilters(), ws);
      var r := VisibleWorkspaces(results, visibleCount);
      assert forall w :: w in r ==> w in results;
      r
    }

    /**
     * The version select's displayed value: 'all' exactly when nothing is
     * selected, else the first pick.
     */
    function CompatibilitySelectValue(): (v: string)
      requires Valid()
      reads this
      ensures v == "all" <==> |selectedCompatibilities| == 0
      ensures |selectedCompatibilities| > 0 ==> v == selectedCompatibilities[0] && v in selectedCompatibilities
    {
      if |selectedCompatibilities| == 0 then "all" else selectedCompatibilities[0]
    }

    /** The initial state. */
    constructor ()
      ensures Valid()
      ensures searchTerm == [] && selectedCategory == "all" && selectedSort == "stars"
      ensures selectedCompatibilities == [] && visibleCount == LoadStep
      ensures CurrentFilters() == Query.InitialFilters()
    {
      searchTerm := [];
      selectedCategory := "all";
      selectedSort := "stars";
      selectedCompatibilities := [];
      visibleCount := LoadStep;
    }

    /**
     * Typing in the search box. React skips the update, and so the paging
     * reset, when the text is unchanged.
     */
    method SetSearchTerm(value: string)
      requires Valid()
      modifies this
      ensures Valid()
      ensures searchTerm == value
      ensures visibleCount == if value != old(searchTerm) then LoadStep else old(visibleCount)
      ensures selectedCategory == old(selectedCategory) && selectedSort == old(selectedSort)
      ensures selectedCompatibilities == old(selectedCompatibilities)
    {
      if value != searchTerm {
        searchTerm := value;
        visibleCount := LoadStep;
      }
    }

    /** Picking a category; a change resets the paging. */
    method SetSelectedCategory(value: string)
      requires Valid()
      modifies this
      ensures Valid()
      ensures selectedCategory == value
      ensures visibleCount == if value != old(selectedCategory) then LoadStep else old(visibleCount)
      ensures searchTerm == old(searchTerm) && selectedSort == old(selectedSort)
      ensures selectedCompatibilities == old(selectedCompatibilities)
    {
      if value != selectedCategory {
        selectedCategory := value;
        visibleCount := LoadStep;
      }
    }

    /** Picking a sort mode; a change resets the paging. */
    method SetSelectedSort(value: string)
      requires Valid()
      modifies this
      ensures Valid()
      ensures selectedSort == value
      ensures visibleCount == if value != old(selectedSort) then LoadStep else old(visibleCount)
      ensures searchTerm == old(searchTerm) && selectedCategory == old(selectedCategory)
      ensures selectedCompatibilities == old(selectedCompatibilities)
    {
      if value != selectedSort {
        selectedSort := value;
        visibleCount := LoadStep;
      }
    }

    /**
     * The version select's handler: 'all' clears the selection, a new
     * version is appended, a version already selected changes nothing.
     * A new array always resets the paging, even an empty one replacing
     * an empty one.
     */
    method SelectCompatibility(value: string)
      requires Valid()
      modifies this
      ensures Valid()
      ensures value == "all" ==> selectedCompatibilities == [] && visibleCount == LoadStep
      ensures value != "all" && value in old(selectedCompatibilities) ==>
                selectedCompatibilities == old(selectedCompatibilities) && visibleCount == old(visibleCount)
      ensures value != "all" && value !in old(selectedCompatibilities) ==>
                selectedCompatibilities == old(selectedCompatibilities) + [value] && visibleCount == LoadStep
      ensures CompatibilitySelectValue() ==
                if value == "all" || |old(selectedCompatibilities)| == 0 then value
                else old(CompatibilitySelectValue())
      ensures searchTerm == old(searchTerm) && selectedCategory == old(selectedCategory)
      ensures selectedSort == old(selectedSort)
    {
      if value == "all" {
        selectedCompatibilities := [];
        visibleCount := LoadStep;
      } else if value !in selectedCompatibilities {
        NoDupAppend(selectedCompatibilities, value);
        selectedCompatibilities := selectedCompatibilities + [value];
        visibleCount := LoadStep;
      }
    }

    /** A badge's remove button: drops that version, keeps the others in order, resets the paging. */
    method RemoveCompatibility(compat: string)
      requires Valid()
      modifies this
      ensures Valid()
      ensures selectedCompatibilities == Filter(old(selectedCompatibilities), (c: string) => c != compat)
      ensures Elements(selectedCompatibilities) == Elements(old(selectedCompatibilities)) - {compat}
      ensures visibleCount == LoadStep
      ensures searchTerm == old(searchTerm) && selectedCategory == old(selectedCategory)
      ensures selectedSort == old(selectedSort)
    {
      FilterKeepsNoDup(selectedCompatibilities, (c: string) => c != compat);
      selectedCompatibilities := Filter(selectedCompatibilities, (c: string) => c != compat);
      visibleCount := LoadStep;
    }

    /** The "load more" button, for a result list of `total` workspaces. */
    method LoadMore(total: nat)
      requires Valid()
      modifies this
      ensures Valid()
      ensures visibleCount == NextVisibleCount(old(visibleCount), total)
      ensures old(HasMore(visibleCount, total)) ==> old(ShownCount(visibleCount, total)) < ShownCount(visibleCount, total)
      ensures searchTerm == old(searchTerm) && selectedCategory == old(selectedCategory)
      ensures selectedSort == old(selectedSort) && selectedCompatibilities == old(selectedCompatibilities)
    {
      if HasMore(visibleCount, total) {
        LoadMoreProgress(visibleCount, total);
      }
      visibleCount := NextVisibleCount(visibleCount, total);
    }
  }

  /**
   * The first render: under the opening filters the cards are the first
   * LOAD_STEP workspaces of the normalised collection, in its canonical order.
   */
  lemma InitialCards(rt: Runtime, lookup: map<string, string>, data: RawDataset)
    requires rt.lower("") == "" && rt.lower("all") == "all" && Consistent(rt.collate)
    ensures var ws := Normalizer.NormalizedWorkspaces(rt, data);
            VisibleWorkspaces(Query.FilteredWorkspaces(rt, lookup, Query.InitialFilters(), ws), LoadStep) ==
            ws[..ShownCount(LoadStep, |ws|)]
  {
    Query.InitialViewIsNormalized(rt, lookup, data);
  }
}
