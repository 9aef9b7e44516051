# Network filter tab overflow

A model of the filter bar of the trace viewer's network tab
(`packages/trace-viewer/src/ui/networkFilters.tsx`). The bar shows a search box and
seven resource-type tabs (`All`, `Fetch`, `HTML`, `JS`, `CSS`, `Font`, `Image`). When
the tabs do not fit in their container, a layout effect decides which tabs to hide
behind a "More ▼" button: it visits the tabs in an order that puts the selected tab
last, keeps a running total of the widths it keeps, and hides every unselected tab
whose width as the pass reads it (the width of the child at the same index in the
visiting order; see "## Findings") would push the total past the container width
minus a 60-pixel reserve for the button. Clicking "More" selects the first hidden tab.

The project is split along the source's concepts:

- `filter_state.dfy` (`FilterStates`): the tab enumeration, the filter record, the
  default record and the three user edits (typing, clicking a tab, clicking "More").
- `tab_order.dfy` (`TabOrder`): the sort comparator and the stable sort that yields
  the visiting order.
- `greedy_pass.dfy` (`GreedyPass`): the width pass over any visiting order, its loop
  form, and a description of its result that does not run the pass (the greedy rule).
- `network_filters.dfy` (`NetworkFilters`): the layout effect itself, its properties,
  and the width-pairing finding below.
- `seq_util.dfy` (`SeqUtil`) and `wrappers.dfy` (`Wrappers`): sequence vocabulary
  and `Option`.

Inputs that the component reads from the browser are parameters: the widths of the
container's children (`offsetWidth`, whole pixels) are a `seq<nat>` indexed like the
children, a missing container is `None`, and the container width is the integer part
of the measured width. `NetworkFilters.FractionalWidthExact` shows that the integer
part loses nothing: for a whole-pixel total `t` and a fractional width `c`,
`t > c - 60` holds exactly when `t > floor(c) - 60`.

The number of hidden tabs is not monotone in the container width. Because the pass
is greedy, a wide tab hidden early frees room for the tabs after it, so a narrower
container can hide fewer tabs than a wider one: `NetworkFilters.NarrowingCanHideFewer`
gives an input where 175 pixels hide two tabs and 165 pixels hide one.

## Model

| member | source | states |
|---|---|---|
| FilterStates.Rank | packages/trace-viewer/src/ui/networkFilters.tsx:21 | every tab has a position in the tab list, and the tab list at that position is the tab itself |
| FilterStates.ResourceTypesEnumerate | packages/trace-viewer/src/ui/networkFilters.tsx:21-22 | the tab list names every resource type, each exactly once, each at its own position |
| FilterStates.DefaultFilterStateIsFirstTab | packages/trace-viewer/src/ui/networkFilters.tsx:29 | the default record has empty search text and selects `All`, the first tab |
| FilterStates.EditSearch | packages/trace-viewer/src/ui/networkFilters.tsx:88 | typing sets the search text to the typed value and keeps the selected tab |
| FilterStates.SelectTab | packages/trace-viewer/src/ui/networkFilters.tsx:96-98 | clicking a tab selects that tab and keeps the search text |
| FilterStates.EditsCommute | packages/trace-viewer/src/ui/networkFilters.tsx:88-97 | the two edits touch different fields: they commute, repeating one changes nothing, and re-applying the current value is the identity |
| FilterStates.MoreVisible | packages/trace-viewer/src/ui/networkFilters.tsx:108 | the "More" button is shown exactly when some tab is in the hidden list |
| FilterStates.ClickMore | packages/trace-viewer/src/ui/networkFilters.tsx:108-116 | only callable while a tab is hidden; selects the first hidden tab, which is one of the hidden tabs, and keeps the search text |
| TabOrder.Compare | packages/trace-viewer/src/ui/networkFilters.tsx:52-56 | on two distinct tabs the comparator is the difference of their sort keys (1 for the selected tab, 0 otherwise), so it is consistent there; on a tab against itself it is non-zero exactly for the selected tab |
| TabOrder.Insert | packages/trace-viewer/src/ui/networkFilters.tsx:52-56 | one insertion step of the sort adds exactly the inserted tab to the list: the result is the old list plus that tab as a multiset, one longer |
| TabOrder.SortTabs | packages/trace-viewer/src/ui/networkFilters.tsx:52-56 | the sorted list is a permutation of the tab list |
| TabOrder.SortWithoutSelected | packages/trace-viewer/src/ui/networkFilters.tsx:52-56 | when the selected tab is not in the list the comparator ties every pair and the stable sort leaves the list unchanged |
| TabOrder.SortMovesSelectedLast | packages/trace-viewer/src/ui/networkFilters.tsx:52-56 | on a duplicate-free list holding the selected tab, the sort keeps every other tab in its original order and moves the selected tab to the end |
| TabOrder.ProcessingOrder | packages/trace-viewer/src/ui/networkFilters.tsx:52-56 | the visiting order has seven tabs and ends with the selected tab |
| TabOrder.ProcessingOrderIsSorted | packages/trace-viewer/src/ui/networkFilters.tsx:52-56 | the visiting order (the tab list with the selected tab moved to the end) is exactly what the stable sort of the tab list under the source's comparator returns |
| TabOrder.ProcessingOrderShape | packages/trace-viewer/src/ui/networkFilters.tsx:52-56 | the visiting order is a duplicate-free permutation of the seven tabs that ends with the selected tab; the first six are the other tabs in display order, at position `i` the tab of rank `i` before the selected tab's rank and `i + 1` after it |
| TabOrder.ProcessingOrderWithout | packages/trace-viewer/src/ui/networkFilters.tsx:52-56 | dropping the selected tab from the visiting order leaves the tab list without the selected tab |
| NetworkFilters.DefaultProcessingOrder | packages/trace-viewer/src/ui/networkFilters.tsx:52-56 | under the default `All` selection the tabs are visited as Fetch, HTML, JS, CSS, Font, Image, All |
| GreedyPass.Step | packages/trace-viewer/src/ui/networkFilters.tsx:60-68 | a visit without a child changes nothing; otherwise the visited tab is appended to the hidden list, with the total unchanged, exactly when it is unselected and its width would take the total past the budget, and a tab not hidden adds its width to the total |
| GreedyPass.Pass | packages/trace-viewer/src/ui/networkFilters.tsx:58-69 | after any number of visits the pass has never hidden the selected tab, its hidden list is a subsequence of the tabs visited so far, and its total is non-negative |
| GreedyPass.RunPass | packages/trace-viewer/src/ui/networkFilters.tsx:58-69 | the loop that mutates a running total and appends to the hidden list ends in the state of the recursive pass, and never hides the selected tab |
| GreedyPass.PassInvariant | packages/trace-viewer/src/ui/networkFilters.tsx:58-69 | after `n` visits the running total is the width of the tabs kept so far, every decision so far is the greedy one, and no later tab is hidden yet |
| GreedyPass.GreedyConsistentUnique | packages/trace-viewer/src/ui/networkFilters.tsx:58-69 | over a duplicate-free order at most one hidden list follows the greedy rule and lists its tabs in visiting order |
| GreedyPass.PassCharacterized | packages/trace-viewer/src/ui/networkFilters.tsx:58-69 | a list is the pass's hidden list if and only if it follows the greedy rule |
| GreedyPass.GreedyBudget | packages/trace-viewer/src/ui/networkFilters.tsx:64-68 | under the greedy rule the kept unselected tabs' widths add up to at most the kept total and at most the budget (or 0 when the budget is negative) |
| GreedyPass.FitsHidesNothing | packages/trace-viewer/src/ui/networkFilters.tsx:64-68 | when all widths read fit in the budget nothing is hidden and the total is their sum |
| GreedyPass.NegativeLimitHidesAll | packages/trace-viewer/src/ui/networkFilters.tsx:64-65 | with a negative budget a tab is hidden exactly when it has a child and is not the selected tab |
| GreedyPass.NegativeLimitHidesAllPresent | packages/trace-viewer/src/ui/networkFilters.tsx:64-65 | with a negative budget and a child for every tab, the hidden list is the order without the selected tab |
| GreedyPass.MissingChildSkipped | packages/trace-viewer/src/ui/networkFilters.tsx:60-61 | a tab without a child is neither hidden nor counted: that visit leaves the state unchanged |
| NetworkFilters.Budget | packages/trace-viewer/src/ui/networkFilters.tsx:41-64 | the width available to the tabs is the container width less the 60-pixel reserve for the "More" button |
| NetworkFilters.ChildWidth | packages/trace-viewer/src/ui/networkFilters.tsx:60-62 | a width is read exactly when a child exists at the index, and it is that child's width |
| NetworkFilters.MeasuredByIndex | packages/trace-viewer/src/ui/networkFilters.tsx:58-62 | the i-th tab visited is given the width of the i-th child, for all seven visits |
| NetworkFilters.FractionalWidthExact | packages/trace-viewer/src/ui/networkFilters.tsx:64 | comparing a whole-pixel total against the fractional width minus 60 is the same as against its integer part minus 60 |
| NetworkFilters.NewHidden | packages/trace-viewer/src/ui/networkFilters.tsx:47-69 | the list built by the pass never holds the selected tab and keeps the visiting order |
| NetworkFilters.MoveSelectedToBack | packages/trace-viewer/src/ui/networkFilters.tsx:71-78 | the final step keeps the same members, leaves the other tabs in their order and number, puts a hidden selected tab last exactly once, and is the identity when the selected tab is not hidden |
| NetworkFilters.ComputeHidden | packages/trace-viewer/src/ui/networkFilters.tsx:44-78 | the final step never changes the pass's list; the hidden tabs exclude the selected one, are distinct, are in display order, and are at most six |
| NetworkFilters.LayoutEffect | packages/trace-viewer/src/ui/networkFilters.tsx:44-79 | without a container the hidden list is left as it was; with one it is recomputed and never holds the selected tab |
| NetworkFilters.ComputeHiddenIsGreedy | packages/trace-viewer/src/ui/networkFilters.tsx:58-69 | a list is the computed hidden list if and only if it follows the greedy rule over the visiting order with widths paired by child index |
| NetworkFilters.ComputeHiddenBudget | packages/trace-viewer/src/ui/networkFilters.tsx:64-68 | the widths charged to the unselected tabs left on screen add up to at most the container width minus 60 (or 0 when that is negative) |
| NetworkFilters.ComputeHiddenFits | packages/trace-viewer/src/ui/networkFilters.tsx:58-69 | when the first seven children's widths add up to at most the budget nothing is hidden and the "More" button is not shown |
| NetworkFilters.ComputeHiddenNegativeBudget | packages/trace-viewer/src/ui/networkFilters.tsx:64-65 | with a container narrower than 60 pixels a visited tab is hidden exactly when its child index exists and it is not the selected tab |
| NetworkFilters.ComputeHiddenNegativeBudgetAll | packages/trace-viewer/src/ui/networkFilters.tsx:64-65 | with a container narrower than 60 pixels and all seven children present, every unselected tab is hidden, in display order |
| NetworkFilters.ComputeHiddenSkipsMissingChildren | packages/trace-viewer/src/ui/networkFilters.tsx:60-61 | a tab visited at an index past the last child is never hidden |
| NetworkFilters.MoreClickSelectsHiddenTab | packages/trace-viewer/src/ui/networkFilters.tsx:108-116 | clicking "More" changes the selection, keeps the search text, picks the hidden tab leftmost in display order, and no later pass hides the newly selected tab |
| NetworkFilters.PairingAgreesOnlyForLastTab | packages/trace-viewer/src/ui/networkFilters.tsx:58-60 | every visited tab reads its own child's width if and only if the selected tab is `Image`, the last tab |
| NetworkFilters.ImageSelectedPassesAgree | packages/trace-viewer/src/ui/networkFilters.tsx:58-62 | with `Image` selected the pass as written and the corrected pass hide the same tabs |
| NetworkFilters.AsWrittenBreaksOwnWidthBudget | packages/trace-viewer/src/ui/networkFilters.tsx:58-62 | on the input of the finding the pass hides `HTML`, the tabs left on screen are 50 pixels over the budget by their own widths, and the corrected pass hides `Fetch` |
| NetworkFilters.ComputeHiddenCorrected | packages/trace-viewer/src/ui/networkFilters.tsx:58-62 | with each tab charged its own child's width, the hidden tabs exclude the selected one, are distinct and are in display order |
| NetworkFilters.CorrectedIsGreedy | packages/trace-viewer/src/ui/networkFilters.tsx:58-69 | a list is the corrected hidden list if and only if it follows the greedy rule with each tab charged its own width |
| NetworkFilters.CorrectedOwnWidthBudget | packages/trace-viewer/src/ui/networkFilters.tsx:58-68 | with the corrected pairing, the unselected tabs left on screen fit in the budget by their own widths |
| NetworkFilters.NarrowingCanHideFewer | packages/trace-viewer/src/ui/networkFilters.tsx:58-69 | with `Image` selected and children widths [10, 100, 10, 10, 0, 0, 0], a 175-pixel container hides `HTML` and `JS` while a 165-pixel one hides only `Fetch`: narrowing the container can hide fewer tabs |

## Left out

- Rendering: the search box, the tab elements, class names, titles and the `display`
  style of hidden tabs are not modelled; the model computes the hidden list that
  drives them.
- Measurement: `useMeasure` and `offsetWidth` are browser calls; the container width
  and the children's widths are parameters. The container width is taken as its
  integer part, which `NetworkFilters.FractionalWidthExact` shows is exact.
- Re-measurement: a hidden tab has `display: none` and measures 0 on the next run of
  the effect, so the widths of one run depend on the hidden list of the previous one.
  Each run is modelled on the widths it is given; the sequence of runs is not.
- Effect scheduling: when React runs the effect (its dependency list) and
  `setHiddenTabs` are not modelled; `NetworkFilters.LayoutEffect` returns the list
  the effect stores.
- The "More ▼" element is a child of the same container, after the seven tabs; the
  pass only reads child indices 0 to 6, so the width list may be of any length.
- Sorting: `Array.prototype.sort` is stable, and every stable sort gives the same
  result for a consistent comparator. The comparator is not consistent in general:
  it answers "after" for the selected tab against itself. A sort, however, only
  compares elements at different positions, and the tab list has no duplicates, so
  every comparison is between distinct tabs, where the comparator is consistent
  (`TabOrder.Compare`). The sorted order is therefore fixed, and
  `TabOrder.SortTabs` is a stable insertion sort.
- The change callback: each edit returns the record the component reports to its
  owner.

## Findings

| source | as written | input that shows it | evidently intended | confidence | as-written member | corrected member |
|---|---|---|---|---|---|---|
| packages/trace-viewer/src/ui/networkFilters.tsx:58-62 | the i-th tab of the sorted visiting order reads the width of the i-th child, but the children stay in display order, so every tab after the selected one in display order is charged the width of the child just before its own (the first of them the selected tab's), and the selected tab is charged the seventh child's (index 6, `Image`'s tab; the "More" button, when shown, is an eighth child the pass never reads) | selected `All`, children widths [0, 100, 0, 0, 0, 0, 0], container width 110 (budget 50): `HTML` is charged `Fetch`'s 100 pixels and hidden, `Fetch` stays on screen with 100 pixels, 50 over the budget | each tab is charged the width of its own child, so the unselected tabs left on screen fit in the budget | high; not executed | NetworkFilters.AsWrittenBreaksOwnWidthBudget | NetworkFilters.CorrectedOwnWidthBudget |

The rest of the model keeps the pass as written (`NetworkFilters.ComputeHidden`), since
that is what the component does; `NetworkFilters.ComputeHiddenCorrected` and its
lemmas state the intended behaviour, and `NetworkFilters.PairingAgreesOnlyForLastTab`
shows the two pairings coincide exactly when `Image` is selected, so the two hidden
lists are then equal (`NetworkFilters.ImageSelectedPassesAgree`); for other selections
they can differ, as the input of the finding shows.
