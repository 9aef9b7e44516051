/** The processing order of the overflow pass: the tab list sorted, stably, with a
    comparator that pushes the selected tab behind every other one. */
module TabOrder {
  import opened SeqUtil
  import opened FilterStates

  /** The rank the comparator sorts by: 1 for the selected tab, 0 for every other. */
  function SortKey(rt: ResourceType, selected: ResourceType): int {
    if rt == selected then 1 else 0
  }

  /** The sort comparator: positive when `a` must come after `b`, negative when
      before, zero when the pair keeps its relative order. On two distinct tabs it is
      the difference of their sort keys, hence a consistent comparator; on the
      selected tab against itself it answers "after" instead of "equal". */
  function Compare(a: ResourceType, b: ResourceType, selected: ResourceType): (c: int)
    ensures a != b ==> c == SortKey(a, selected) - SortKey(b, selected)
    ensures a == b ==> (c != 0 <==> a == selected)
  {
    if a == selected then 1
    else if b == selected then -1
    else 0
  }

  /** Inserts `x` behind `sorted`, moving it forward past every element that the
      comparator places after it; elements that compare as equal are not passed,
      which keeps the sort stable. */
  function Insert(sorted: seq<ResourceType>, x: ResourceType, selected: ResourceType): (r: seq<ResourceType>)
    ensures multiset(r) == multiset(sorted) + multiset{x}
    ensures |r| == |sorted| + 1
    decreases |sorted|
  {
    if |sorted| == 0 then [x]
    else
      var init, last := sorted[..|sorted| - 1], sorted[|sorted| - 1];
      assert sorted == init + [last];
      if Compare(last, x, selected) > 0 then Insert(init, x, selected) + [last]
      else sorted + [x]
  }

  /** Stable insertion sort of `tabs` under `Compare`. JavaScript's `Array.prototype.sort`
      is stable, and every stable sort yields the same result for a consistent comparator.
      `Compare` is not consistent, since it answers "after" for the selected tab against
      itself; but a sort only compares elements at different positions, and on a list
      without duplicates those are distinct tabs, where `Compare` is consistent. */
  function SortTabs(tabs: seq<ResourceType>, selected: ResourceType): (r: seq<ResourceType>)
    ensures multiset(r) == multiset(tabs)
    ensures |r| == |tabs|
  {
    if |tabs| == 0 then []
    else
      var init := tabs[..|tabs| - 1];
      assert tabs == init + [tabs[|tabs| - 1]];
      assert multiset(tabs) == multiset(init) + multiset{tabs[|tabs| - 1]};
      Insert(SortTabs(init, selected), tabs[|tabs| - 1], selected)
  }

  /** A tab inserted behind a run without the selected tab stays at the end. */
  lemma InsertBehindUnselected(s: seq<ResourceType>, x: ResourceType, selected: ResourceType)
    requires selected !in s
    ensures Insert(s, x, selected) == s + [x]
  {
    if |s| > 0 {
      assert s[|s| - 1] in s;
    }
  }

  /** An unselected tab inserted behind the selected tab passes it, and only it. */
  lemma InsertPassesSelected(s: seq<ResourceType>, x: ResourceType, selected: ResourceType)
    requires selected !in s && x != selected
    ensures Insert(s + [selected], x, selected) == s + [x, selected]
  {
    assert (s + [selected])[..|s|] == s;
    InsertBehindUnselected(s, x, selected);
  }

  lemma SortSnoc(init: seq<ResourceType>, x: ResourceType, selected: ResourceType)
    ensures SortTabs(init + [x], selected) == Insert(SortTabs(init, selected), x, selected)
  {
    assert (init + [x])[..|init|] == init;
  }

  lemma WithoutSnoc(init: seq<ResourceType>, x: ResourceType, selected: ResourceType)
    ensures Without(init + [x], selected)
            == Without(init, selected) + (if x == selected then [] else [x])
  {
    assert (init + [x])[..|init|] == init;
  }

  /** Without the selected tab in the list, the comparator returns zero on every pair
      and the stable sort leaves the list as it is. */
  lemma {:induction false} SortWithoutSelected(tabs: seq<ResourceType>, selected: ResourceType)
    requires selected !in tabs
    ensures SortTabs(tabs, selected) == tabs
    decreases |tabs|
  {
    if |tabs| > 0 {
      var init, x := tabs[..|tabs| - 1], tabs[|tabs| - 1];
      assert tabs == init + [x];
      SortWithoutSelected(init, selected);
      SortSnoc(init, x, selected);
      InsertBehindUnselected(init, x, selected);
    }
  }

  /** Last sort step when the selected tab comes last already. */
  lemma SortStepSelected(init: seq<ResourceType>, selected: ResourceType)
    requires selected !in init
    ensures SortTabs(init + [selected], selected) == Without(init + [selected], selected) + [selected]
  {
    SortSnoc(init, selected, selected);
    WithoutSnoc(init, selected, selected);
    SortWithoutSelected(init, selected);
    InsertBehindUnselected(init, selected, selected);
  }

  /** Last sort step when an unselected tab follows the sorted rest. */
  lemma SortStepOther(init: seq<ResourceType>, x: ResourceType, selected: ResourceType)
    requires x != selected
    requires SortTabs(init, selected) == Without(init, selected) + [selected]
    ensures SortTabs(init + [x], selected) == Without(init + [x], selected) + [selected]
  {
    SortSnoc(init, x, selected);
    WithoutSnoc(init, x, selected);
    InsertPassesSelected(Without(init, selected), x, selected);
  }

  /** On duplicate-free tabs holding the selected tab, the sort keeps every other tab in
      its original order and moves the selected tab to the very end. */
  lemma {:induction false} SortMovesSelectedLast(tabs: seq<ResourceType>, selected: ResourceType)
    requires NoDup(tabs) && selected in tabs
    ensures SortTabs(tabs, selected) == Without(tabs, selected) + [selected]
    decreases |tabs|
  {
    var init, x := tabs[..|tabs| - 1], tabs[|tabs| - 1];
    assert tabs == init + [x];
    assert NoDup(init) && x !in init;
    if x == selected {
      SortStepSelected(init, selected);
    } else {
      SortMovesSelectedLast(init, selected);
      SortStepOther(init, x, selected);
    }
  }

  /** Every tab's own position in `ResourceTypes` increases along `s`. */
  predicate InDisplayOrder(s: seq<ResourceType>) {
    forall i, j :: 0 <= i < j < |s| ==> Rank(s[i]) < Rank(s[j])
  }

  /** A subsequence of a list in display order is in display order. */
  lemma {:induction false} DisplayOrderSubsequence(sub: seq<ResourceType>, s: seq<ResourceType>)
    requires IsSubsequence(sub, s) && InDisplayOrder(s)
    ensures InDisplayOrder(sub)
    decreases |s|
  {
    if |sub| > 0 {
      var sInit := s[..|s| - 1];
      assert InDisplayOrder(sInit);
      if sub[|sub| - 1] == s[|s| - 1] && IsSubsequence(sub[..|sub| - 1], sInit) {
        var subInit := sub[..|sub| - 1];
        DisplayOrderSubsequence(subInit, sInit);
        SubsequenceMembers(subInit, sInit);
        forall i, j | 0 <= i < j < |sub|
          ensures Rank(sub[i]) < Rank(sub[j])
        {
          assert sub[i] == subInit[i];
          if j == |sub| - 1 {
            assert sub[i] in sInit;
            var k :| 0 <= k < |sInit| && sInit[k] == sub[i];
            assert Rank(sInit[k]) < Rank(s[|s| - 1]);
          } else {
            assert sub[j] == subInit[j];
          }
        }
      } else {
        DisplayOrderSubsequence(sub, sInit);
      }
    }
  }

  /** The tab list itself is in display order. */
  lemma ResourceTypesInDisplayOrder()
    ensures InDisplayOrder(ResourceTypes)
  {
    ResourceTypesEnumerate();
  }

  /** The first tab of a list in display order has the least rank in it. */
  lemma DisplayOrderFirstIsLeast(s: seq<ResourceType>)
    requires |s| > 0 && InDisplayOrder(s)
    ensures forall rt :: rt in s ==> Rank(s[0]) <= Rank(rt)
  {
    forall rt | rt in s
      ensures Rank(s[0]) <= Rank(rt)
    {
      var k :| 0 <= k < |s| && s[k] == rt;
      if k > 0 {
        assert Rank(s[0]) < Rank(s[k]);
      }
    }
  }

  /** Sorting a duplicate-free list in display order that holds the selected tab: the
      other tabs come first, still in display order, and the selected tab comes last. */
  lemma SortedOrderFacts(tabs: seq<ResourceType>, selected: ResourceType)
    requires NoDup(tabs) && InDisplayOrder(tabs) && selected in tabs
    ensures var order := SortTabs(tabs, selected);
      && order == Without(tabs, selected) + [selected]
      && NoDup(order)
      && |order| == |tabs| && order[|order| - 1] == selected
      && InDisplayOrder(order[..|order| - 1])
      && IsSubsequence(order[..|order| - 1], tabs)
  {
    SortMovesSelectedLast(tabs, selected);
    WithoutNoDup(tabs, selected);
    WithoutSubsequence(tabs, selected);
    var others := Without(tabs, selected);
    var order := SortTabs(tabs, selected);
    assert order[..|order| - 1] == others;
    DisplayOrderSubsequence(others, tabs);
    NoDupSnoc(others, selected);
  }

  /** The order the overflow pass visits the tabs in: the tab list with the selected
      tab moved to the end. `ProcessingOrderIsSorted` shows that this is what the
      stable sort of the tab list under `Compare` returns. */
  function ProcessingOrder(selected: ResourceType): (order: seq<ResourceType>)
    ensures |order| == |ResourceTypes| && order[|order| - 1] == selected
  {
    ResourceTypesEnumerate();
    WithoutMembers(ResourceTypes, selected);
    WithoutNoDup(ResourceTypes, selected);
    Without(ResourceTypes, selected) + [selected]
  }

  /** The visiting order is the stable sort of the tab list under the comparator. */
  lemma ProcessingOrderIsSorted(selected: ResourceType)
    ensures ProcessingOrder(selected) == SortTabs(ResourceTypes, selected)
  {
    ResourceTypesEnumerate();
    SortMovesSelectedLast(ResourceTypes, selected);
  }

  /** The processing order holds every tab once. */
  lemma ProcessingOrderIsPermutation(selected: ResourceType)
    ensures NoDup(ProcessingOrder(selected))
    ensures multiset(ProcessingOrder(selected)) == multiset(ResourceTypes)
  {
    ResourceTypesEnumerate();
    SortedOrderFacts(ResourceTypes, selected);
  }

  /** Dropping the selected tab from the processing order leaves the other tabs in
      display order. */
  lemma ProcessingOrderWithout(selected: ResourceType)
    ensures Without(ProcessingOrder(selected), selected) == Without(ResourceTypes, selected)
  {
    WithoutSnoc(Without(ResourceTypes, selected), selected, selected);
  }

  /** Removing the tab at position `k` from a list whose tabs sit at their own rank:
      the tabs before it keep their rank as position, the ones after it move up by one. */
  lemma WithoutRanks(tabs: seq<ResourceType>, k: nat)
    requires k < |tabs|
    requires forall j :: 0 <= j < |tabs| ==> Rank(tabs[j]) == j
    ensures var others := Without(tabs, tabs[k]);
      && |others| == |tabs| - 1
      && forall i :: 0 <= i < |others| ==> Rank(others[i]) == if i < k then i else i + 1
  {
    assert NoDup(tabs) by {
      forall i, j | 0 <= i < j < |tabs|
        ensures tabs[i] != tabs[j]
      {
        assert Rank(tabs[i]) != Rank(tabs[j]);
      }
    }
    WithoutAt(tabs, k);
    var others := tabs[..k] + tabs[k + 1..];
    forall i | 0 <= i < |others|
      ensures Rank(others[i]) == if i < k then i else i + 1
    {
      if i < k {
        assert others[i] == tabs[i];
      } else {
        assert others[i] == tabs[i + 1];
      }
    }
  }

  /** `WithoutRanks` with the removed tab put back at the end. */
  lemma CutOrderRanks(order: seq<ResourceType>, tabs: seq<ResourceType>, k: nat)
    requires k < |tabs|
    requires forall j :: 0 <= j < |tabs| ==> Rank(tabs[j]) == j
    requires order == Without(tabs, tabs[k]) + [tabs[k]]
    ensures forall i :: 0 <= i < |order| - 1 ==> Rank(order[i]) == if i < k then i else i + 1
  {
    WithoutRanks(tabs, k);
    var others := Without(tabs, tabs[k]);
    forall i | 0 <= i < |order| - 1
      ensures Rank(order[i]) == if i < k then i else i + 1
    {
      assert order[i] == others[i];
    }
  }

  /** In the processing order the tab at position `i` is the one of rank `i` before the
      selected tab's rank, and of rank `i + 1` from there on. */
  lemma ProcessingOrderRanks(selected: ResourceType)
    ensures var order, k := ProcessingOrder(selected), Rank(selected);
      forall i :: 0 <= i < |order| - 1 ==> Rank(order[i]) == if i < k then i else i + 1
  {
    ResourceTypesEnumerate();
    CutOrderRanks(ProcessingOrder(selected), ResourceTypes, Rank(selected));
  }

  /** The tabs the processing order puts before the selected one keep display order. */
  lemma ProcessingOrderKeepsDisplayOrder(selected: ResourceType)
    ensures var order := ProcessingOrder(selected);
      && InDisplayOrder(order[..|order| - 1])
      && IsSubsequence(order[..|order| - 1], ResourceTypes)
  {
    var order, others := ProcessingOrder(selected), Without(ResourceTypes, selected);
    ResourceTypesInDisplayOrder();
    WithoutSubsequence(ResourceTypes, selected);
    DisplayOrderSubsequence(others, ResourceTypes);
    assert order[..|order| - 1] == others;
  }

  /** The processing order is a permutation of the tabs that ends with the selected tab
      and keeps the other six in display order. */
  lemma ProcessingOrderShape(selected: ResourceType)
    ensures var order, k := ProcessingOrder(selected), Rank(selected);
      && NoDup(order)
      && multiset(order) == multiset(ResourceTypes)
      && order[|order| - 1] == selected
      && (forall i :: 0 <= i < |order| - 1 ==> Rank(order[i]) == if i < k then i else i + 1)
      && InDisplayOrder(order[..|order| - 1])
      && IsSubsequence(order[..|order| - 1], ResourceTypes)
  {
    ProcessingOrderIsPermutation(selected);
    ProcessingOrderRanks(selected);
    ProcessingOrderKeepsDisplayOrder(selected);
  }
}
