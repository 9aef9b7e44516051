/** The filter bar's state: the seven resource-type tabs, the filter record the
    component reports to its owner, and the three user edits of that record. */
module FilterStates {
  import opened SeqUtil

  /** One filter tab. */
  datatype ResourceType = All | Fetch | HTML | JS | CSS | Font | Image

  /** The tabs in the order they are declared and rendered. */
  const ResourceTypes: seq<ResourceType> := [All, Fetch, HTML, JS, CSS, Font, Image]

  /** Position of a tab in `ResourceTypes`, which is also the index of its DOM child. */
  function Rank(rt: ResourceType): (k: nat)
    ensures k < |ResourceTypes| && ResourceTypes[k] == rt
  {
    match rt
    case All => 0
    case Fetch => 1
    case HTML => 2
    case JS => 3
    case CSS => 4
    case Font => 5
    case Image => 6
  }

  /** The tab list names every resource type exactly once. */
  lemma ResourceTypesEnumerate()
    ensures NoDup(ResourceTypes)
    ensures forall rt: ResourceType :: rt in ResourceTypes
    ensures forall k :: 0 <= k < |ResourceTypes| ==> Rank(ResourceTypes[k]) == k
  {
    forall rt: ResourceType
      ensures rt in ResourceTypes
    {
      assert ResourceTypes[Rank(rt)] == rt;
    }
  }

  /** The record reported through the change callback. */
  datatype FilterState = FilterState(searchValue: string, resourceType: ResourceType)

  /** The state a network view starts from: no search text, every type shown. */
  const DefaultFilterState: FilterState := FilterState("", All)

  /** Typing in the search box. */
  function EditSearch(state: FilterState, value: string): (r: FilterState)
    ensures r.searchValue == value
    ensures r.resourceType == state.resourceType
  {
    state.(searchValue := value)
  }

  /** Clicking a visible tab. */
  function SelectTab(state: FilterState, rt: ResourceType): (r: FilterState)
    ensures r.resourceType == rt
    ensures r.searchValue == state.searchValue
  {
    state.(resourceType := rt)
  }

  /** The "More" button is rendered exactly when some tab is hidden. */
  predicate MoreVisible(hiddenTabs: seq<ResourceType>): (visible: bool)
    ensures visible <==> exists rt :: rt in hiddenTabs
  {
    assert |hiddenTabs| > 0 ==> hiddenTabs[0] in hiddenTabs;
    |hiddenTabs| > 0
  }

  /** Clicking "More": the first hidden tab becomes the selected one. The button,
      and with it this handler, exists only while a tab is hidden. */
  function ClickMore(state: FilterState, hiddenTabs: seq<ResourceType>): (r: FilterState)
    requires MoreVisible(hiddenTabs)
    ensures r.resourceType == hiddenTabs[0] && r.resourceType in hiddenTabs
    ensures r.searchValue == state.searchValue
    ensures r == SelectTab(state, hiddenTabs[0])
  {
    state.(resourceType := hiddenTabs[0])
  }

  /** The two edits touch different fields, so their order does not matter, and
      repeating either one changes nothing further. */
  lemma EditsCommute(state: FilterState, value: string, rt: ResourceType)
    ensures EditSearch(SelectTab(state, rt), value) == SelectTab(EditSearch(state, value), rt)
    ensures EditSearch(EditSearch(state, value), value) == EditSearch(state, value)
    ensures SelectTab(SelectTab(state, rt), rt) == SelectTab(state, rt)
    ensures EditSearch(state, state.searchValue) == state
    ensures SelectTab(state, state.resourceType) == state
  {
  }

  /** The default state has an empty search and the `All` tab, the first tab. */
  lemma DefaultFilterStateIsFirstTab()
    ensures DefaultFilterState.searchValue == ""
    ensures DefaultFilterState.resourceType == ResourceTypes[0]
    ensures DefaultFilterState == EditSearch(SelectTab(DefaultFilterState, All), "")
  {
  }
}
