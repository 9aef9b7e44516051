/** The overflow computation of the network filter bar: which resource-type tabs are
    hidden behind the "More" button, given the widths of the tab elements and the width
    of their container.

    Widths are whole pixels: `offsetWidth` is an integer, and for an integer total `x`
    the comparison with the fractional container width `c` is the same as with
    `floor(c)` (see `FractionalWidthExact`), so the container width is taken as that
    floor. */
module NetworkFilters {
  import opened Wrappers
  import opened SeqUtil
  import opened FilterStates
  import opened TabOrder
  import opened GreedyPass

  /** Width set aside for the "More" button. */
  const MoreButtonReserve: int := 60

  /** The width available to the tabs. */
  function Budget(containerWidth: int): (budget: int)
    ensures budget + MoreButtonReserve == containerWidth && budget < containerWidth
  {
    containerWidth - MoreButtonReserve
  }

  /** Comparing an integer width total against the fractional container width loses
      nothing when the container width is rounded down. */
  lemma FractionalWidthExact(total: int, containerWidth: real)
    ensures (total as real > containerWidth - MoreButtonReserve as real)
            <==> total > Budget(containerWidth.Floor)
  {
  }

  /** The width of the DOM child at index `i`, or `None` past the last child. */
  function ChildWidth(widths: seq<nat>, i: nat): (w: Option<nat>)
    ensures w.Some? <==> i < |widths|
    ensures w.Some? ==> w.value == widths[i]
  {
    if i < |widths| then Some(widths[i]) else None
  }

  /** The widths as the pass reads them: the i-th tab visited gets the width of the i-th
      child, although the children stay in display order while the visiting order has
      the selected tab moved to the end. */
  function MeasuredByIndex(widths: seq<nat>): (m: seq<Option<nat>>)
    ensures |m| == |ResourceTypes|
    ensures forall i :: 0 <= i < |m| ==> m[i] == ChildWidth(widths, i)
  {
    seq(|ResourceTypes|, i requires 0 <= i => ChildWidth(widths, i))
  }

  /** With seven children or more, every tab the pass visits reads a width. */
  lemma AllChildrenPresent(widths: seq<nat>)
    requires |widths| >= |ResourceTypes|
    ensures forall i :: 0 <= i < |ResourceTypes| ==> MeasuredByIndex(widths)[i].Some?
  {
  }

  /** Past the last child, the pass reads no width. */
  lemma ChildrenMissingFrom(widths: seq<nat>)
    ensures forall i :: |widths| <= i < |ResourceTypes| ==> MeasuredByIndex(widths)[i].None?
  {
  }

  /** The hidden list built by the pass, before the final reordering step. */
  function NewHidden(widths: seq<nat>, containerWidth: int, selected: ResourceType): (newHidden: seq<ResourceType>)
    ensures selected !in newHidden
    ensures IsSubsequence(newHidden, ProcessingOrder(selected))
  {
    var order := ProcessingOrder(selected);
    FullPassHidden(order, MeasuredByIndex(widths), selected, Budget(containerWidth));
    Pass(order, MeasuredByIndex(widths), selected, Budget(containerWidth), |order|).hidden
  }

  /** The final step: a hidden selected tab is moved to the back of the list. */
  function MoveSelectedToBack(hidden: seq<ResourceType>, selected: ResourceType): (r: seq<ResourceType>)
    ensures selected in hidden ==> |r| > 0 && r[|r| - 1] == selected
    ensures forall y :: y in r <==> y in hidden
    ensures selected !in hidden ==> r == hidden
    ensures Without(r, selected) == Without(hidden, selected)
    ensures |r| == |Without(hidden, selected)| + (if selected in hidden then 1 else 0)
  {
    WithoutMembers(hidden, selected);
    WithoutSnoc(Without(hidden, selected), selected, selected);
    if selected in hidden then Without(hidden, selected) + [selected] else hidden
  }

  /** A hidden list taken, without the selected tab, from the processing order is taken
      from the other tabs, in display order. */
  lemma HiddenFromOtherTabs(hidden: seq<ResourceType>, selected: ResourceType)
    requires IsSubsequence(hidden, ProcessingOrder(selected)) && selected !in hidden
    ensures IsSubsequence(hidden, ResourceTypes)
    ensures NoDup(hidden) && InDisplayOrder(hidden) && |hidden| < |ResourceTypes|
  {
    var order := ProcessingOrder(selected);
    var others := order[..|order| - 1];
    assert order == others + [selected];
    SubsequenceDropLast(hidden, others, selected);
    ProcessingOrderShape(selected);
    SubsequenceTransitive(hidden, others, ResourceTypes);
    ResourceTypesEnumerate();
    SubsequenceNoDup(hidden, ResourceTypes);
    DisplayOrderSubsequence(hidden, others);
    SubsequenceLength(hidden, others);
  }

  /** The hidden tabs after a layout pass. The final reordering step never fires,
      since the pass never hides the selected tab. */
  function ComputeHidden(widths: seq<nat>, containerWidth: int, selected: ResourceType): (hidden: seq<ResourceType>)
    ensures hidden == NewHidden(widths, containerWidth, selected)
    ensures selected !in hidden
    ensures IsSubsequence(hidden, ResourceTypes) && NoDup(hidden) && InDisplayOrder(hidden)
    ensures |hidden| < |ResourceTypes|
  {
    var newHidden := NewHidden(widths, containerWidth, selected);
    HiddenFromOtherTabs(newHidden, selected);
    MoveSelectedToBack(newHidden, selected)
  }

  /** The layout effect: without a mounted container it returns before touching the
      hidden list; otherwise the hidden list is recomputed from the children's widths. */
  function LayoutEffect(previous: seq<ResourceType>, children: Option<seq<nat>>, containerWidth: int,
                        selected: ResourceType): (hidden: seq<ResourceType>)
    ensures children.None? ==> hidden == previous
    ensures children.Some? ==> hidden == ComputeHidden(children.value, containerWidth, selected)
    ensures children.Some? ==> selected !in hidden && IsSubsequence(hidden, ResourceTypes)
  {
    match children
    case None => previous
    case Some(widths) => ComputeHidden(widths, containerWidth, selected)
  }

  // ---------------------------------------------------------------------------------
  // Properties of the computed hidden list

  /** The hidden list is exactly the one the greedy rule allows, over the processing
      order with the widths paired by child index. */
  lemma ComputeHiddenIsGreedy(widths: seq<nat>, containerWidth: int, selected: ResourceType, hidden: seq<ResourceType>)
    ensures hidden == ComputeHidden(widths, containerWidth, selected)
            <==> GreedyConsistent(ProcessingOrder(selected), MeasuredByIndex(widths), selected, Budget(containerWidth), hidden)
  {
    ProcessingOrderIsPermutation(selected);
    PassCharacterized(ProcessingOrder(selected), MeasuredByIndex(widths), selected, Budget(containerWidth), hidden);
  }

  /** The widths read for the visible unselected tabs add up to at most the budget. */
  lemma ComputeHiddenBudget(widths: seq<nat>, containerWidth: int, selected: ResourceType)
    ensures var hidden := ComputeHidden(widths, containerWidth, selected);
      KeptUnselectedWidth(ProcessingOrder(selected), MeasuredByIndex(widths), selected, hidden, |ResourceTypes|)
        <= Max(Budget(containerWidth), 0)
  {
    var order, measured := ProcessingOrder(selected), MeasuredByIndex(widths);
    ProcessingOrderIsPermutation(selected);
    PassIsGreedy(order, measured, selected, Budget(containerWidth));
    GreedyBudget(order, measured, selected, Budget(containerWidth), ComputeHidden(widths, containerWidth, selected), |order|);
  }

  /** The widths read for the first `n` tabs are the first `n` children's widths. */
  lemma {:induction false} PresentWidthByIndex(widths: seq<nat>, n: nat)
    requires n <= |ResourceTypes|
    ensures PresentWidth(MeasuredByIndex(widths), n) == Sum(widths[..Min(|widths|, n)])
  {
    if n > 0 {
      PresentWidthByIndex(widths, n - 1);
      if n <= |widths| {
        assert widths[..n][..n - 1] == widths[..n - 1];
      }
    }
  }

  /** When the seven tab children fit in the budget nothing is hidden and the "More"
      button is not shown. */
  lemma ComputeHiddenFits(widths: seq<nat>, containerWidth: int, selected: ResourceType)
    requires Sum(widths[..Min(|widths|, |ResourceTypes|)]) <= Budget(containerWidth)
    ensures ComputeHidden(widths, containerWidth, selected) == []
    ensures !MoreVisible(ComputeHidden(widths, containerWidth, selected))
  {
    PresentWidthByIndex(widths, |ResourceTypes|);
    FitsHidesNothing(ProcessingOrder(selected), MeasuredByIndex(widths), selected, Budget(containerWidth), |ResourceTypes|);
  }

  /** With a container narrower than the "More" reserve every unselected tab that has a
      child is hidden. */
  lemma ComputeHiddenNegativeBudget(widths: seq<nat>, containerWidth: int, selected: ResourceType)
    requires Budget(containerWidth) < 0
    ensures var order, hidden := ProcessingOrder(selected), ComputeHidden(widths, containerWidth, selected);
      forall i :: 0 <= i < |order| ==> (order[i] in hidden <==> i < |widths| && order[i] != selected)
  {
    var order, measured := ProcessingOrder(selected), MeasuredByIndex(widths);
    ProcessingOrderIsPermutation(selected);
    HiddenOfFullPass(widths, containerWidth, selected);
    PassIsGreedy(order, measured, selected, Budget(containerWidth));
    NegativeLimitHidesAll(order, measured, selected, Budget(containerWidth), ComputeHidden(widths, containerWidth, selected));
  }

  /** With a container narrower than the "More" reserve and all seven children present,
      every unselected tab is hidden, in display order. */
  lemma ComputeHiddenNegativeBudgetAll(widths: seq<nat>, containerWidth: int, selected: ResourceType)
    requires Budget(containerWidth) < 0 && |widths| >= |ResourceTypes|
    ensures ComputeHidden(widths, containerWidth, selected) == Without(ResourceTypes, selected)
  {
    var order, measured := ProcessingOrder(selected), MeasuredByIndex(widths);
    ProcessingOrderIsPermutation(selected);
    HiddenOfFullPass(widths, containerWidth, selected);
    AllChildrenPresent(widths);
    PassNegativeLimitAllPresent(order, measured, selected, Budget(containerWidth));
    ProcessingOrderWithout(selected);
  }

  /** A tab whose child index is past the last child is never hidden. */
  lemma ComputeHiddenSkipsMissingChildren(widths: seq<nat>, containerWidth: int, selected: ResourceType)
    ensures forall i :: |widths| <= i < |ResourceTypes| ==>
      ProcessingOrder(selected)[i] !in ComputeHidden(widths, containerWidth, selected)
  {
    var order, measured := ProcessingOrder(selected), MeasuredByIndex(widths);
    ProcessingOrderIsPermutation(selected);
    HiddenOfFullPass(widths, containerWidth, selected);
    ChildrenMissingFrom(widths);
    MissingChildrenSkipped(order, measured, selected, Budget(containerWidth), |widths|);
  }

  /** Clicking "More" selects a tab that was hidden, so the selection really changes;
      that tab is the leftmost hidden one in display order, and no later layout pass
      hides it while it stays selected. */
  lemma MoreClickSelectsHiddenTab(state: FilterState, widths: seq<nat>, containerWidth: int)
    requires MoreVisible(ComputeHidden(widths, containerWidth, state.resourceType))
    ensures var hidden := ComputeHidden(widths, containerWidth, state.resourceType);
      var next := ClickMore(state, hidden);
      && next.resourceType != state.resourceType
      && next.searchValue == state.searchValue
      && (forall rt :: rt in hidden ==> Rank(next.resourceType) <= Rank(rt))
      && (forall w: seq<nat>, c: int :: next.resourceType !in ComputeHidden(w, c, next.resourceType))
  {
    DisplayOrderFirstIsLeast(ComputeHidden(widths, containerWidth, state.resourceType));
  }

  // ---------------------------------------------------------------------------------
  // Width pairing: the pass reads the width of the child at the visiting index, not the
  // child of the tab it is visiting.

  /** The widths paired with each tab's own child. */
  function MeasuredByOwnChild(order: seq<ResourceType>, widths: seq<nat>): (m: seq<Option<nat>>)
    ensures |m| == |order|
    ensures forall i :: 0 <= i < |order| ==> m[i] == ChildWidth(widths, Rank(order[i]))
  {
    seq(|order|, i requires 0 <= i < |order| => ChildWidth(widths, Rank(order[i])))
  }

  /** The hidden tabs when every tab is charged its own width. */
  function ComputeHiddenCorrected(widths: seq<nat>, containerWidth: int, selected: ResourceType): (hidden: seq<ResourceType>)
    ensures selected !in hidden
    ensures IsSubsequence(hidden, ResourceTypes) && NoDup(hidden) && InDisplayOrder(hidden)
  {
    var order := ProcessingOrder(selected);
    var hidden := Pass(order, MeasuredByOwnChild(order, widths), selected, Budget(containerWidth), |order|).hidden;
    FullPassHidden(order, MeasuredByOwnChild(order, widths), selected, Budget(containerWidth));
    HiddenFromOtherTabs(hidden, selected);
    hidden
  }

  /** The corrected hidden list is exactly the one the greedy rule allows when every
      tab is charged its own width. */
  lemma CorrectedIsGreedy(widths: seq<nat>, containerWidth: int, selected: ResourceType, hidden: seq<ResourceType>)
    ensures var order := ProcessingOrder(selected);
      hidden == ComputeHiddenCorrected(widths, containerWidth, selected)
      <==> GreedyConsistent(order, MeasuredByOwnChild(order, widths), selected, Budget(containerWidth), hidden)
  {
    var order := ProcessingOrder(selected);
    ProcessingOrderIsPermutation(selected);
    PassCharacterized(order, MeasuredByOwnChild(order, widths), selected, Budget(containerWidth), hidden);
  }

  /** Total own width of the tabs of `tabs` that have a child, are not the selected tab
      and are not hidden: the visible unselected tabs, as laid out on screen. */
  function VisibleWidth(tabs: seq<ResourceType>, widths: seq<nat>, selected: ResourceType, hidden: seq<ResourceType>): nat {
    if |tabs| == 0 then 0
    else
      var t := tabs[|tabs| - 1];
      VisibleWidth(tabs[..|tabs| - 1], widths, selected, hidden)
      + (if t != selected && t !in hidden && Rank(t) < |widths| then widths[Rank(t)] else 0)
  }

  lemma VisibleWidthSnoc(tabs: seq<ResourceType>, t: ResourceType, widths: seq<nat>, selected: ResourceType, hidden: seq<ResourceType>)
    ensures VisibleWidth(tabs + [t], widths, selected, hidden)
            == VisibleWidth(tabs, widths, selected, hidden)
               + (if t != selected && t !in hidden && Rank(t) < |widths| then widths[Rank(t)] else 0)
  {
    assert (tabs + [t])[..|tabs|] == tabs;
  }

  /** The selected tab contributes nothing, so removing it leaves the visible width. */
  lemma {:induction false} VisibleWidthWithout(tabs: seq<ResourceType>, widths: seq<nat>, selected: ResourceType, hidden: seq<ResourceType>)
    ensures VisibleWidth(Without(tabs, selected), widths, selected, hidden) == VisibleWidth(tabs, widths, selected, hidden)
    decreases |tabs|
  {
    if |tabs| > 0 {
      var init, t := tabs[..|tabs| - 1], tabs[|tabs| - 1];
      assert tabs == init + [t];
      VisibleWidthWithout(init, widths, selected, hidden);
      WithoutSnoc(init, t, selected);
      if t != selected {
        VisibleWidthSnoc(Without(init, selected), t, widths, selected, hidden);
      }
    }
  }

  /** With own-child widths, the pass's kept unselected width is the visible width of
      the tabs visited so far. */
  lemma {:induction false} KeptIsVisibleWidth(order: seq<ResourceType>, widths: seq<nat>, selected: ResourceType,
                                              hidden: seq<ResourceType>, n: nat)
    requires n <= |order|
    ensures KeptUnselectedWidth(order, MeasuredByOwnChild(order, widths), selected, hidden, n)
            == VisibleWidth(order[..n], widths, selected, hidden)
  {
    if n > 0 {
      KeptIsVisibleWidth(order, widths, selected, hidden, n - 1);
      assert order[..n] == order[..n - 1] + [order[n - 1]];
      VisibleWidthSnoc(order[..n - 1], order[n - 1], widths, selected, hidden);
    }
  }

  /** `KeptIsVisibleWidth` for the whole order. */
  lemma KeptIsVisibleWidthFull(order: seq<ResourceType>, widths: seq<nat>, selected: ResourceType, hidden: seq<ResourceType>)
    ensures KeptUnselectedWidth(order, MeasuredByOwnChild(order, widths), selected, hidden, |order|)
            == VisibleWidth(order, widths, selected, hidden)
  {
    KeptIsVisibleWidth(order, widths, selected, hidden, |order|);
    assert order[..|order|] == order;
  }

  /** The visible width does not depend on where the selected tab is placed. */
  lemma VisibleWidthProcessingOrder(widths: seq<nat>, selected: ResourceType, hidden: seq<ResourceType>)
    ensures VisibleWidth(ProcessingOrder(selected), widths, selected, hidden)
            == VisibleWidth(ResourceTypes, widths, selected, hidden)
  {
    var others := Without(ResourceTypes, selected);
    VisibleWidthSnoc(others, selected, widths, selected, hidden);
    VisibleWidthWithout(ResourceTypes, widths, selected, hidden);
  }

  /** The property the pass is meant to have: the tabs left on screen, other than the
      selected one, fit in the budget by their own widths. */
  lemma CorrectedOwnWidthBudget(widths: seq<nat>, containerWidth: int, selected: ResourceType)
    ensures VisibleWidth(ResourceTypes, widths, selected, ComputeHiddenCorrected(widths, containerWidth, selected))
            <= Max(Budget(containerWidth), 0)
  {
    var order := ProcessingOrder(selected);
    var measured := MeasuredByOwnChild(order, widths);
    var hidden := ComputeHiddenCorrected(widths, containerWidth, selected);
    CorrectedIsGreedy(widths, containerWidth, selected, hidden);
    GreedyBudget(order, measured, selected, Budget(containerWidth), hidden, |order|);
    KeptIsVisibleWidthFull(order, widths, selected, hidden);
    VisibleWidthProcessingOrder(widths, selected, hidden);
  }

  /** When the selected tab is the last one the two pairings coincide, and only then. */
  lemma PairingAgreesOnlyForLastTab(selected: ResourceType)
    ensures (forall i :: 0 <= i < |ResourceTypes| ==> Rank(ProcessingOrder(selected)[i]) == i) <==> selected == Image
  {
    ProcessingOrderRanks(selected);
    RanksIdentityOnlyForLast(ProcessingOrder(selected), selected);
  }

  /** With `Image` selected both pairings give every tab its own width, so the pass as
      written and the corrected pass hide the same tabs. */
  lemma ImageSelectedPassesAgree(widths: seq<nat>, containerWidth: int, selected: ResourceType)
    requires selected == Image
    ensures ComputeHidden(widths, containerWidth, selected) == ComputeHiddenCorrected(widths, containerWidth, selected)
  {
    var order := ProcessingOrder(selected);
    PairingAgreesOnlyForLastTab(selected);
    assert MeasuredByIndex(widths) == MeasuredByOwnChild(order, widths);
    HiddenOfFullPass(widths, containerWidth, selected);
  }

  /** An order of the seven tabs with the selected tab moved to the end keeps every tab
      at its own rank exactly when the selected tab already was the last one. */
  lemma RanksIdentityOnlyForLast(order: seq<ResourceType>, selected: ResourceType)
    requires |order| == |ResourceTypes| && order[|order| - 1] == selected
    requires forall i :: 0 <= i < |order| - 1 ==> Rank(order[i]) == if i < Rank(selected) then i else i + 1
    ensures (forall i :: 0 <= i < |order| ==> Rank(order[i]) == i) <==> selected == Image
  {
    if selected == Image {
      forall i | 0 <= i < |order|
        ensures Rank(order[i]) == i
      {
      }
    } else {
      assert Rank(order[|order| - 1]) != |order| - 1;
    }
  }

  /** A seven-tab order whose first six tabs have ranks one to six and whose last tab
      is `All`. */
  lemma RanksAfterAll(order: seq<ResourceType>, selected: ResourceType)
    requires |order| == |ResourceTypes| && order[|order| - 1] == selected && selected == All
    requires forall i :: 0 <= i < |order| - 1 ==> Rank(order[i]) == if i < Rank(selected) then i else i + 1
    ensures order == [Fetch, HTML, JS, CSS, Font, Image, All]
  {
    forall i | 0 <= i < |order| - 1
      ensures order[i] == ResourceTypes[i + 1]
    {
      assert ResourceTypes[Rank(order[i])] == order[i];
    }
  }

  /** Under the default filter, which selects `All`, the other tabs are visited in
      display order and `All` last. */
  lemma DefaultProcessingOrder(selected: ResourceType)
    requires selected == DefaultFilterState.resourceType
    ensures ProcessingOrder(selected) == [Fetch, HTML, JS, CSS, Font, Image, All]
  {
    ProcessingOrderRanks(selected);
    RanksAfterAll(ProcessingOrder(selected), selected);
  }

  /** The pass over the default processing order with a 50-pixel budget, when exactly
      one of the seven widths read is 100 pixels and the others are 0. */
  lemma ExamplePass(order: seq<ResourceType>, m: seq<Option<nat>>, selected: ResourceType, limit: int, wide: nat)
    requires order == [Fetch, HTML, JS, CSS, Font, Image, All] && selected == All
    requires |m| == 7 && wide < 2 && limit == 50
    requires m[0] == Some(if wide == 0 then 100 else 0) && m[1] == Some(if wide == 1 then 100 else 0)
    requires m[2] == Some(0) && m[3] == Some(0) && m[4] == Some(0) && m[5] == Some(0) && m[6] == Some(0)
    ensures Pass(order, m, selected, limit, |order|) == PassState(0, [if wide == 0 then Fetch else HTML])
  {
    assert Pass(order, m, selected, limit, 1) == PassState(0, if wide == 0 then [Fetch] else []);
    assert Pass(order, m, selected, limit, 2) == PassState(0, [order[wide]]);
    assert Pass(order, m, selected, limit, 3) == PassState(0, [order[wide]]);
    assert Pass(order, m, selected, limit, 4) == PassState(0, [order[wide]]);
    assert Pass(order, m, selected, limit, 5) == PassState(0, [order[wide]]);
    assert Pass(order, m, selected, limit, 6) == PassState(0, [order[wide]]);
  }

  /** The computed hidden list is the one the pass leaves after the last tab. */
  lemma HiddenOfFullPass(widths: seq<nat>, containerWidth: int, selected: ResourceType)
    ensures var order := ProcessingOrder(selected);
      ComputeHidden(widths, containerWidth, selected)
        == Pass(order, MeasuredByIndex(widths), selected, Budget(containerWidth), |order|).hidden
  {
  }

  /** The example widths as read by child index. */
  lemma ExampleWidths(widths: seq<nat>)
    requires |widths| == 7 && widths[0] == 0 && widths[1] == 100 && widths[2] == 0 && widths[3] == 0
             && widths[4] == 0 && widths[5] == 0 && widths[6] == 0
    ensures var m := MeasuredByIndex(widths);
      && m[0] == Some(0) && m[1] == Some(100) && m[2] == Some(0) && m[3] == Some(0)
      && m[4] == Some(0) && m[5] == Some(0) && m[6] == Some(0)
  {
  }

  /** The example widths as charged to each tab of the default processing order. */
  lemma ExampleOwnWidths(order: seq<ResourceType>, widths: seq<nat>)
    requires order == [Fetch, HTML, JS, CSS, Font, Image, All]
    requires widths == [0, 100, 0, 0, 0, 0, 0]
    ensures var m := MeasuredByOwnChild(order, widths);
      && m[0] == Some(100) && m[1] == Some(0) && m[2] == Some(0) && m[3] == Some(0)
      && m[4] == Some(0) && m[5] == Some(0) && m[6] == Some(0)
  {
  }

  /** The pass over the default processing order, with the example widths read by
      child index, hides `HTML`. */
  lemma ExamplePassByIndex(widths: seq<nat>, limit: int, selected: ResourceType)
    requires |widths| == 7 && widths[0] == 0 && widths[1] == 100 && widths[2] == 0 && widths[3] == 0
             && widths[4] == 0 && widths[5] == 0 && widths[6] == 0
    requires limit == 50 && selected == All
    ensures var order := ProcessingOrder(selected);
      Pass(order, MeasuredByIndex(widths), selected, limit, |order|).hidden == [HTML]
  {
    DefaultProcessingOrder(selected);
    var order := ProcessingOrder(selected);
    ExampleWidths(widths);
    ExamplePass(order, MeasuredByIndex(widths), selected, limit, 1);
  }

  /** The pass as written on the example input of `AsWrittenBreaksOwnWidthBudget`. */
  lemma ExampleAsWritten(widths: seq<nat>, containerWidth: int, selected: ResourceType)
    requires |widths| == 7 && widths[0] == 0 && widths[1] == 100 && widths[2] == 0 && widths[3] == 0
             && widths[4] == 0 && widths[5] == 0 && widths[6] == 0
    requires containerWidth == 110 && selected == All
    ensures ComputeHidden(widths, containerWidth, selected) == [HTML]
  {
    ExamplePassByIndex(widths, Budget(containerWidth), selected);
    HiddenOfFullPass(widths, containerWidth, selected);
  }

  /** The corrected pass on the same input. */
  lemma ExampleCorrected(widths: seq<nat>, containerWidth: int, selected: ResourceType)
    requires widths == [0, 100, 0, 0, 0, 0, 0] && containerWidth == 110 && selected == All
    ensures ComputeHiddenCorrected(widths, containerWidth, selected) == [Fetch]
  {
    DefaultProcessingOrder(selected);
    var order := ProcessingOrder(selected);
    ExampleOwnWidths(order, widths);
    ExamplePass(order, MeasuredByOwnChild(order, widths), selected, Budget(containerWidth), 0);
  }

  /** With only `HTML` hidden, the `Fetch` tab stays on screen with its 100 pixels. */
  lemma ExampleVisibleWidth(widths: seq<nat>, selected: ResourceType, hidden: seq<ResourceType>)
    requires widths == [0, 100, 0, 0, 0, 0, 0] && selected == All && hidden == [HTML]
    ensures VisibleWidth(ResourceTypes, widths, selected, hidden) == 100
  {
    var tabs := ResourceTypes;
    assert VisibleWidth(tabs[..1], widths, selected, hidden) == 0 by {
      assert tabs[..1][..0] == [];
    }
    assert VisibleWidth(tabs[..2], widths, selected, hidden) == 100 by {
      assert tabs[..2][..1] == tabs[..1];
    }
    assert VisibleWidth(tabs[..3], widths, selected, hidden) == 100 by {
      assert tabs[..3][..2] == tabs[..2];
    }
    assert VisibleWidth(tabs[..4], widths, selected, hidden) == 100 by {
      assert tabs[..4][..3] == tabs[..3];
    }
    assert VisibleWidth(tabs[..5], widths, selected, hidden) == 100 by {
      assert tabs[..5][..4] == tabs[..4];
    }
    assert VisibleWidth(tabs[..6], widths, selected, hidden) == 100 by {
      assert tabs[..6][..5] == tabs[..5];
    }
    assert tabs[..7] == tabs;
  }

  /** With `All` selected, children widths [0, 100, 0, 0, 0, 0, 0] and a 110-pixel
      container (budget 50), the pass charges the 100-pixel `Fetch` child to `HTML`:
      it hides `HTML`, whose own width is 0, and leaves `Fetch` on screen, 50 pixels
      over the budget. Charging own widths hides `Fetch` instead. */
  lemma AsWrittenBreaksOwnWidthBudget(widths: seq<nat>, containerWidth: int, selected: ResourceType)
    requires widths == [0, 100, 0, 0, 0, 0, 0] && containerWidth == 110 && selected == All
    ensures ComputeHidden(widths, containerWidth, selected) == [HTML]
    ensures VisibleWidth(ResourceTypes, widths, selected, ComputeHidden(widths, containerWidth, selected))
            > Max(Budget(containerWidth), 0)
    ensures ComputeHiddenCorrected(widths, containerWidth, selected) == [Fetch]
  {
    ExampleAsWritten(widths, containerWidth, selected);
    ExampleVisibleWidth(widths, selected, [HTML]);
    ExampleCorrected(widths, containerWidth, selected);
  }

  // ---------------------------------------------------------------------------------
  // The hidden count is not monotone in the container width

  /** A list ending in `Image` whose other tabs sit at their own rank is the tab list. */
  lemma RanksBeforeImage(order: seq<ResourceType>, selected: ResourceType)
    requires |order| == |ResourceTypes| && order[|order| - 1] == selected && selected == Image
    requires forall i :: 0 <= i < |order| - 1 ==> Rank(order[i]) == if i < Rank(selected) then i else i + 1
    ensures order == ResourceTypes
  {
    forall i | 0 <= i < |order| - 1
      ensures order[i] == ResourceTypes[i]
    {
      assert ResourceTypes[Rank(order[i])] == order[i];
    }
  }

  /** With `Image`, the last tab, selected, the pass visits the tabs in display order. */
  lemma ImageProcessingOrder(selected: ResourceType)
    requires selected == Image
    ensures ProcessingOrder(selected) == ResourceTypes
  {
    ProcessingOrderRanks(selected);
    RanksBeforeImage(ProcessingOrder(selected), selected);
  }

  /** The widths [10, 100, 10, 10, 0, 0, 0] as read by child index. */
  lemma NarrowingWidths(widths: seq<nat>)
    requires |widths| == 7 && widths[0] == 10 && widths[1] == 100 && widths[2] == 10 && widths[3] == 10
             && widths[4] == 0 && widths[5] == 0 && widths[6] == 0
    ensures var m := MeasuredByIndex(widths);
      && m[0] == Some(10) && m[1] == Some(100) && m[2] == Some(10) && m[3] == Some(10)
      && m[4] == Some(0) && m[5] == Some(0) && m[6] == Some(0)
  {
  }

  /** The pass in display order with a 115-pixel budget: `All` and `Fetch` fill 110
      pixels, so the 10-pixel `HTML` and `JS` no longer fit. */
  lemma WidePass(order: seq<ResourceType>, m: seq<Option<nat>>, selected: ResourceType, limit: int)
    requires |order| == 7 && order[0] == All && order[1] == Fetch && order[2] == HTML && order[3] == JS
    requires order[4] == CSS && order[5] == Font && order[6] == Image && selected == Image && |m| == 7 && limit == 115
    requires m[0] == Some(10) && m[1] == Some(100) && m[2] == Some(10) && m[3] == Some(10)
    requires m[4] == Some(0) && m[5] == Some(0) && m[6] == Some(0)
    ensures Pass(order, m, selected, limit, |order|).hidden == [HTML, JS]
  {
    assert Pass(order, m, selected, limit, 1) == PassState(10, []);
    assert Pass(order, m, selected, limit, 2) == PassState(110, []);
    assert Pass(order, m, selected, limit, 3) == PassState(110, [HTML]);
    assert Pass(order, m, selected, limit, 4) == PassState(110, [HTML, JS]);
    assert Pass(order, m, selected, limit, 5) == PassState(110, [HTML, JS]);
    assert Pass(order, m, selected, limit, 6) == PassState(110, [HTML, JS]);
  }

  /** The same pass with a 105-pixel budget: the 100-pixel `Fetch` is hidden, which
      leaves room for every tab after it. */
  lemma NarrowPass(order: seq<ResourceType>, m: seq<Option<nat>>, selected: ResourceType, limit: int)
    requires |order| == 7 && order[0] == All && order[1] == Fetch && order[2] == HTML && order[3] == JS
    requires order[4] == CSS && order[5] == Font && order[6] == Image && selected == Image && |m| == 7 && limit == 105
    requires m[0] == Some(10) && m[1] == Some(100) && m[2] == Some(10) && m[3] == Some(10)
    requires m[4] == Some(0) && m[5] == Some(0) && m[6] == Some(0)
    ensures Pass(order, m, selected, limit, |order|).hidden == [Fetch]
  {
    assert Pass(order, m, selected, limit, 1) == PassState(10, []);
    assert Pass(order, m, selected, limit, 2) == PassState(10, [Fetch]);
    assert Pass(order, m, selected, limit, 3) == PassState(20, [Fetch]);
    assert Pass(order, m, selected, limit, 4) == PassState(30, [Fetch]);
    assert Pass(order, m, selected, limit, 5) == PassState(30, [Fetch]);
    assert Pass(order, m, selected, limit, 6) == PassState(30, [Fetch]);
  }

  /** The pass over the display order with the example widths read by child index. */
  lemma NarrowingPassByIndex(widths: seq<nat>, limit: int, selected: ResourceType)
    requires |widths| == 7 && widths[0] == 10 && widths[1] == 100 && widths[2] == 10 && widths[3] == 10
             && widths[4] == 0 && widths[5] == 0 && widths[6] == 0
    requires (limit == 115 || limit == 105) && selected == Image
    ensures var order := ProcessingOrder(selected);
      Pass(order, MeasuredByIndex(widths), selected, limit, |order|).hidden
        == if limit == 115 then [HTML, JS] else [Fetch]
  {
    ImageProcessingOrder(selected);
    NarrowingWidths(widths);
    if limit == 115 {
      WidePass(ProcessingOrder(selected), MeasuredByIndex(widths), selected, limit);
    } else {
      NarrowPass(ProcessingOrder(selected), MeasuredByIndex(widths), selected, limit);
    }
  }

  /** The computed hidden list on the example widths, for either container width. */
  lemma NarrowingExample(widths: seq<nat>, containerWidth: int, selected: ResourceType)
    requires |widths| == 7 && widths[0] == 10 && widths[1] == 100 && widths[2] == 10 && widths[3] == 10
             && widths[4] == 0 && widths[5] == 0 && widths[6] == 0
    requires (containerWidth == 175 || containerWidth == 165) && selected == Image
    ensures ComputeHidden(widths, containerWidth, selected) == if containerWidth == 175 then [HTML, JS] else [Fetch]
  {
    NarrowingPassByIndex(widths, Budget(containerWidth), selected);
    HiddenOfFullPass(widths, containerWidth, selected);
  }

  /** Narrowing the container can hide fewer tabs: with `Image` selected and children
      widths [10, 100, 10, 10, 0, 0, 0], a 175-pixel container hides `HTML` and `JS`,
      while a 165-pixel one hides only `Fetch`, whose width then frees room for the
      tabs after it. */
  lemma NarrowingCanHideFewer()
    ensures ComputeHidden([10, 100, 10, 10, 0, 0, 0], 175, Image) == [HTML, JS]
    ensures ComputeHidden([10, 100, 10, 10, 0, 0, 0], 165, Image) == [Fetch]
    ensures |ComputeHidden([10, 100, 10, 10, 0, 0, 0], 165, Image)| < |ComputeHidden([10, 100, 10, 10, 0, 0, 0], 175, Image)|
  {
    NarrowingExample([10, 100, 10, 10, 0, 0, 0], 175, Image);
    NarrowingExample([10, 100, 10, 10, 0, 0, 0], 165, Image);
  }
}
