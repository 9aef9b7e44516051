/** The greedy width pass of the overflow computation, over any processing order.

    `order[i]` is the i-th tab visited and `measured[i]` the width the pass reads for
    it: `Some(w)` for a DOM child of width `w`, `None` when no child sits at the index
    the pass looks up. The pass keeps a running total of the widths it kept; a tab is
    hidden when its width would push that total past `limit`, unless it is the selected
    tab. A tab without a child is skipped: neither hidden nor counted. */
module GreedyPass {
  import opened Wrappers
  import opened SeqUtil
  import opened FilterStates

  /** The two variables the pass updates: the running width total and the hidden list. */
  datatype PassState = PassState(cumulative: int, hidden: seq<ResourceType>)

  /** One visit of a tab: a tab without a child changes nothing; otherwise the tab is
      hidden, and the total left alone, exactly when it is unselected and its width
      would take the total past `limit`; a tab not hidden adds its width to the total. */
  function Step(st: PassState, rt: ResourceType, child: Option<nat>, selected: ResourceType, limit: int): (r: PassState)
    ensures child.None? ==> r == st
    ensures r.hidden == st.hidden || r.hidden == st.hidden + [rt]
    ensures r.hidden != st.hidden <==> child.Some? && rt != selected && st.cumulative + child.value > limit
    ensures r.hidden != st.hidden ==> r.cumulative == st.cumulative
    ensures r.hidden == st.hidden && child.Some? ==> r.cumulative == st.cumulative + child.value
  {
    match child
    case None => st
    case Some(w) =>
      if st.cumulative + w > limit && rt != selected then st.(hidden := st.hidden + [rt])
      else st.(cumulative := st.cumulative + w)
  }

  /** The state after visiting the first `n` tabs of `order`. */
  function Pass(order: seq<ResourceType>, measured: seq<Option<nat>>, selected: ResourceType, limit: int, n: nat): (st: PassState)
    requires |measured| == |order| && n <= |order|
    ensures selected !in st.hidden
    ensures IsSubsequence(st.hidden, order[..n])
    ensures st.cumulative >= 0
  {
    if n == 0 then PassState(0, [])
    else
      var prev := Pass(order, measured, selected, limit, n - 1);
      assert order[..n] == order[..n - 1] + [order[n - 1]];
      SubsequenceSnoc(prev.hidden, order[..n - 1], order[n - 1]);
      SubsequenceExtend(prev.hidden, order[..n - 1], order[n - 1]);
      Step(prev, order[n - 1], measured[n - 1], selected, limit)
  }

  /** The complete pass hides a subsequence of the order, never the selected tab. */
  lemma FullPassHidden(order: seq<ResourceType>, measured: seq<Option<nat>>, selected: ResourceType, limit: int)
    requires |measured| == |order|
    ensures var hidden := Pass(order, measured, selected, limit, |order|).hidden;
      selected !in hidden && IsSubsequence(hidden, order)
  {
    assert order[..|order|] == order;
  }

  /** The pass as the source writes it: a loop over the order that mutates a running
      total and appends to the hidden list. */
  method RunPass(order: seq<ResourceType>, measured: seq<Option<nat>>, selected: ResourceType, limit: int)
    returns (cumulative: int, hidden: seq<ResourceType>)
    requires |measured| == |order|
    ensures PassState(cumulative, hidden) == Pass(order, measured, selected, limit, |order|)
    ensures selected !in hidden
  {
    cumulative, hidden := 0, [];
    var index := 0;
    while index < |order|
      invariant index <= |order|
      invariant PassState(cumulative, hidden) == Pass(order, measured, selected, limit, index)
    {
      var rt := order[index];
      match measured[index] {
        case None =>
        case Some(w) =>
          if cumulative + w > limit && rt != selected {
            hidden := hidden + [rt];
          } else {
            cumulative := cumulative + w;
          }
      }
      index := index + 1;
    }
  }

  // ---------------------------------------------------------------------------------
  // A description of the result that does not run the pass

  /** Total width of the tabs before position `i` that have a child and are not in
      `hidden`: what the running total holds when the pass reaches position `i`. */
  function KeptWidthBefore(order: seq<ResourceType>, measured: seq<Option<nat>>, hidden: seq<ResourceType>, i: nat): nat
    requires |measured| == |order| && i <= |order|
  {
    if i == 0 then 0
    else
      KeptWidthBefore(order, measured, hidden, i - 1)
      + (if measured[i - 1].Some? && order[i - 1] !in hidden then measured[i - 1].value else 0)
  }

  /** Whether `hidden` holds the tab at position `i` is the greedy decision: exactly when
      the tab has a child, is not the selected tab, and its width added to the width
      kept before it exceeds `limit`. */
  predicate GreedyAt(order: seq<ResourceType>, measured: seq<Option<nat>>, selected: ResourceType, limit: int,
                     hidden: seq<ResourceType>, i: nat)
    requires |measured| == |order| && i < |order|
  {
    order[i] in hidden
    <==>
    (measured[i].Some? && order[i] != selected
     && KeptWidthBefore(order, measured, hidden, i) + measured[i].value > limit)
  }

  /** The greedy decision holds at every position before `n`. */
  predicate GreedyUpTo(order: seq<ResourceType>, measured: seq<Option<nat>>, selected: ResourceType, limit: int,
                       hidden: seq<ResourceType>, n: nat)
    requires |measured| == |order| && n <= |order|
  {
    forall i :: 0 <= i < n ==> GreedyAt(order, measured, selected, limit, hidden, i)
  }

  /** `hidden` lists, in visiting order, exactly the tabs the greedy rule hides. */
  predicate GreedyConsistent(order: seq<ResourceType>, measured: seq<Option<nat>>, selected: ResourceType, limit: int,
                             hidden: seq<ResourceType>)
    requires |measured| == |order|
  {
    IsSubsequence(hidden, order) && GreedyUpTo(order, measured, selected, limit, hidden, |order|)
  }

  /** The kept width before `i` depends only on which of the first `i` tabs are hidden. */
  lemma {:induction false} KeptWidthAgree(order: seq<ResourceType>, measured: seq<Option<nat>>,
                                          h1: seq<ResourceType>, h2: seq<ResourceType>, i: nat)
    requires |measured| == |order| && i <= |order|
    requires forall j :: 0 <= j < i ==> (order[j] in h1 <==> order[j] in h2)
    ensures KeptWidthBefore(order, measured, h1, i) == KeptWidthBefore(order, measured, h2, i)
  {
    if i > 0 {
      KeptWidthAgree(order, measured, h1, h2, i - 1);
    }
  }

  /** Appending the tab at position `j` to a hidden list changes nothing about the
      positions before `j`, since the order holds that tab only once. */
  lemma GreedyAfterAppend(order: seq<ResourceType>, measured: seq<Option<nat>>, selected: ResourceType, limit: int,
                          prev: seq<ResourceType>, next: seq<ResourceType>, j: nat)
    requires |measured| == |order| && j < |order| && NoDup(order)
    requires next == prev || next == prev + [order[j]]
    requires GreedyUpTo(order, measured, selected, limit, prev, j)
    ensures GreedyUpTo(order, measured, selected, limit, next, j)
    ensures KeptWidthBefore(order, measured, next, j) == KeptWidthBefore(order, measured, prev, j)
  {
    forall k | 0 <= k < j
      ensures order[k] in prev <==> order[k] in next
    {
      assert order[k] != order[j];
    }
    forall k | 0 <= k < j
      ensures GreedyAt(order, measured, selected, limit, next, k)
    {
      assert GreedyAt(order, measured, selected, limit, prev, k);
      KeptWidthAgree(order, measured, prev, next, k);
    }
    KeptWidthAgree(order, measured, prev, next, j);
  }

  /** One visit keeps what the pass maintains: the running total is the kept width,
      every decision so far is the greedy one, and no later tab is hidden yet. */
  lemma StepKeepsInvariant(order: seq<ResourceType>, measured: seq<Option<nat>>, selected: ResourceType, limit: int,
                           prev: PassState, j: nat)
    requires |measured| == |order| && j < |order| && NoDup(order)
    requires prev.cumulative == KeptWidthBefore(order, measured, prev.hidden, j)
    requires GreedyUpTo(order, measured, selected, limit, prev.hidden, j)
    requires forall i :: j <= i < |order| ==> order[i] !in prev.hidden
    ensures var st := Step(prev, order[j], measured[j], selected, limit);
      && st.cumulative == KeptWidthBefore(order, measured, st.hidden, j + 1)
      && GreedyUpTo(order, measured, selected, limit, st.hidden, j + 1)
      && forall i :: j + 1 <= i < |order| ==> order[i] !in st.hidden
  {
    var st := Step(prev, order[j], measured[j], selected, limit);
    GreedyAfterAppend(order, measured, selected, limit, prev.hidden, st.hidden, j);
    assert GreedyAt(order, measured, selected, limit, st.hidden, j);
    forall i | j + 1 <= i < |order|
      ensures order[i] !in st.hidden
    {
      assert order[i] != order[j];
    }
  }

  /** What the pass maintains after `n` visits: the running total is the kept width,
      every decision so far is the greedy one, and no later tab is hidden yet. */
  lemma {:induction false} PassInvariant(order: seq<ResourceType>, measured: seq<Option<nat>>, selected: ResourceType, limit: int, n: nat)
    requires |measured| == |order| && n <= |order| && NoDup(order)
    ensures var st := Pass(order, measured, selected, limit, n);
      && st.cumulative == KeptWidthBefore(order, measured, st.hidden, n)
      && GreedyUpTo(order, measured, selected, limit, st.hidden, n)
      && forall i :: n <= i < |order| ==> order[i] !in st.hidden
  {
    if n > 0 {
      PassInvariant(order, measured, selected, limit, n - 1);
      StepKeepsInvariant(order, measured, selected, limit, Pass(order, measured, selected, limit, n - 1), n - 1);
    }
  }

  /** The pass produces a greedy-consistent hidden list. */
  lemma PassIsGreedy(order: seq<ResourceType>, measured: seq<Option<nat>>, selected: ResourceType, limit: int)
    requires |measured| == |order| && NoDup(order)
    ensures GreedyConsistent(order, measured, selected, limit, Pass(order, measured, selected, limit, |order|).hidden)
  {
    PassInvariant(order, measured, selected, limit, |order|);
    assert order[..|order|] == order;
  }

  /** Two greedy-consistent lists agree on the first `n` tabs: each decision depends only
      on the decisions before it. */
  lemma {:induction false} GreedyMembersAgree(order: seq<ResourceType>, measured: seq<Option<nat>>, selected: ResourceType, limit: int,
                                              h1: seq<ResourceType>, h2: seq<ResourceType>, n: nat)
    requires |measured| == |order| && n <= |order|
    requires GreedyUpTo(order, measured, selected, limit, h1, n) && GreedyUpTo(order, measured, selected, limit, h2, n)
    ensures forall j :: 0 <= j < n ==> (order[j] in h1 <==> order[j] in h2)
  {
    if n > 0 {
      GreedyMembersAgree(order, measured, selected, limit, h1, h2, n - 1);
      KeptWidthAgree(order, measured, h1, h2, n - 1);
      assert GreedyAt(order, measured, selected, limit, h1, n - 1);
      assert GreedyAt(order, measured, selected, limit, h2, n - 1);
    }
  }

  /** The greedy rule admits one hidden list only. */
  lemma GreedyConsistentUnique(order: seq<ResourceType>, measured: seq<Option<nat>>, selected: ResourceType, limit: int,
                               h1: seq<ResourceType>, h2: seq<ResourceType>)
    requires |measured| == |order| && NoDup(order)
    requires GreedyConsistent(order, measured, selected, limit, h1)
    requires GreedyConsistent(order, measured, selected, limit, h2)
    ensures h1 == h2
  {
    GreedyMembersAgree(order, measured, selected, limit, h1, h2, |order|);
    SubsequenceMembers(h1, order);
    SubsequenceMembers(h2, order);
    forall y
      ensures y in h1 <==> y in h2
    {
      if y in h1 || y in h2 {
        assert y in order;
        var j :| 0 <= j < |order| && order[j] == y;
      }
    }
    SubsequenceDeterminedByMembers(h1, h2, order);
  }

  /** The pass's hidden list is characterised by the greedy rule: a list is the pass's
      result exactly when it is greedy-consistent. */
  lemma PassCharacterized(order: seq<ResourceType>, measured: seq<Option<nat>>, selected: ResourceType, limit: int,
                          hidden: seq<ResourceType>)
    requires |measured| == |order| && NoDup(order)
    ensures hidden == Pass(order, measured, selected, limit, |order|).hidden
            <==> GreedyConsistent(order, measured, selected, limit, hidden)
  {
    PassIsGreedy(order, measured, selected, limit);
    if GreedyConsistent(order, measured, selected, limit, hidden) {
      GreedyConsistentUnique(order, measured, selected, limit, hidden,
                             Pass(order, measured, selected, limit, |order|).hidden);
    }
  }

  // ---------------------------------------------------------------------------------
  // Consequences of the greedy rule

  /** Total width of the tabs before position `n` that have a child, are not the
      selected tab, and are not hidden. */
  function KeptUnselectedWidth(order: seq<ResourceType>, measured: seq<Option<nat>>, selected: ResourceType,
                               hidden: seq<ResourceType>, n: nat): nat
    requires |measured| == |order| && n <= |order|
  {
    if n == 0 then 0
    else
      KeptUnselectedWidth(order, measured, selected, hidden, n - 1)
      + (if measured[n - 1].Some? && order[n - 1] != selected && order[n - 1] !in hidden
         then measured[n - 1].value else 0)
  }

  /** The visible unselected tabs fit in the budget; when the budget is negative none
      of them is visible. */
  lemma {:induction false} GreedyBudget(order: seq<ResourceType>, measured: seq<Option<nat>>, selected: ResourceType, limit: int,
                                        hidden: seq<ResourceType>, n: nat)
    requires |measured| == |order| && n <= |order|
    requires GreedyUpTo(order, measured, selected, limit, hidden, n)
    ensures KeptUnselectedWidth(order, measured, selected, hidden, n) <= KeptWidthBefore(order, measured, hidden, n)
    ensures KeptUnselectedWidth(order, measured, selected, hidden, n) <= Max(limit, 0)
  {
    if n > 0 {
      GreedyBudget(order, measured, selected, limit, hidden, n - 1);
      assert GreedyAt(order, measured, selected, limit, hidden, n - 1);
    }
  }

  /** Total width of the tabs before position `n` that have a child. */
  function PresentWidth(measured: seq<Option<nat>>, n: nat): nat
    requires n <= |measured|
  {
    if n == 0 then 0
    else PresentWidth(measured, n - 1) + (if measured[n - 1].Some? then measured[n - 1].value else 0)
  }

  /** When all measured tabs fit in the budget, nothing is hidden and the running total
      is their whole width. */
  lemma {:induction false} FitsHidesNothing(order: seq<ResourceType>, measured: seq<Option<nat>>, selected: ResourceType, limit: int, n: nat)
    requires |measured| == |order| && n <= |order|
    requires PresentWidth(measured, n) <= limit
    ensures Pass(order, measured, selected, limit, n).hidden == []
    ensures Pass(order, measured, selected, limit, n).cumulative == PresentWidth(measured, n)
  {
    if n > 0 {
      FitsHidesNothing(order, measured, selected, limit, n - 1);
    }
  }

  /** With a negative budget every unselected tab that has a child is hidden: no width
      is negative, so even the first one overflows. */
  lemma NegativeLimitHidesAll(order: seq<ResourceType>, measured: seq<Option<nat>>, selected: ResourceType, limit: int,
                              hidden: seq<ResourceType>)
    requires |measured| == |order| && limit < 0
    requires GreedyConsistent(order, measured, selected, limit, hidden)
    ensures forall i :: 0 <= i < |order| ==> (order[i] in hidden <==> measured[i].Some? && order[i] != selected)
  {
    forall i | 0 <= i < |order|
      ensures order[i] in hidden <==> measured[i].Some? && order[i] != selected
    {
      assert GreedyAt(order, measured, selected, limit, hidden, i);
    }
  }

  /** With a negative budget and a child for every tab, the hidden list is the whole
      order without the selected tab. */
  lemma NegativeLimitHidesAllPresent(order: seq<ResourceType>, measured: seq<Option<nat>>, selected: ResourceType, limit: int,
                                     hidden: seq<ResourceType>)
    requires |measured| == |order| && NoDup(order) && limit < 0
    requires forall i :: 0 <= i < |order| ==> measured[i].Some?
    requires GreedyConsistent(order, measured, selected, limit, hidden)
    ensures hidden == Without(order, selected)
  {
    NegativeLimitHidesAll(order, measured, selected, limit, hidden);
    WithoutMembers(order, selected);
    WithoutSubsequence(order, selected);
    SubsequenceMembers(hidden, order);
    forall y
      ensures y in hidden <==> y in Without(order, selected)
    {
      if y in order {
        var i :| 0 <= i < |order| && order[i] == y;
      }
    }
    SubsequenceDeterminedByMembers(hidden, Without(order, selected), order);
  }

  /** `NegativeLimitHidesAllPresent` for the pass itself. */
  lemma PassNegativeLimitAllPresent(order: seq<ResourceType>, measured: seq<Option<nat>>, selected: ResourceType, limit: int)
    requires |measured| == |order| && NoDup(order) && limit < 0
    requires forall i :: 0 <= i < |order| ==> measured[i].Some?
    ensures Pass(order, measured, selected, limit, |order|).hidden == Without(order, selected)
  {
    PassIsGreedy(order, measured, selected, limit);
    NegativeLimitHidesAllPresent(order, measured, selected, limit, Pass(order, measured, selected, limit, |order|).hidden);
  }

  /** A tab without a child is skipped: the pass neither hides it nor adds to the total. */
  lemma MissingChildSkipped(order: seq<ResourceType>, measured: seq<Option<nat>>, selected: ResourceType, limit: int, i: nat)
    requires |measured| == |order| && NoDup(order) && i < |order| && measured[i].None?
    ensures order[i] !in Pass(order, measured, selected, limit, |order|).hidden
    ensures Pass(order, measured, selected, limit, i + 1) == Pass(order, measured, selected, limit, i)
  {
    PassIsGreedy(order, measured, selected, limit);
    assert GreedyAt(order, measured, selected, limit, Pass(order, measured, selected, limit, |order|).hidden, i);
  }

  /** Every tab from position `from` on lacks a child, so none of them is hidden. */
  lemma MissingChildrenSkipped(order: seq<ResourceType>, measured: seq<Option<nat>>, selected: ResourceType, limit: int,
                               from: nat)
    requires |measured| == |order| && NoDup(order)
    requires forall i :: from <= i < |order| ==> measured[i].None?
    ensures forall i :: from <= i < |order| ==> order[i] !in Pass(order, measured, selected, limit, |order|).hidden
  {
    forall i | from <= i < |order|
      ensures order[i] !in Pass(order, measured, selected, limit, |order|).hidden
    {
      MissingChildSkipped(order, measured, selected, limit, i);
    }
  }
}
