/**
 * The shared search state (src/context/SearchContext.jsx): eight filter fields, each
 * with its own setter, a reset that puts every field back to its initial value, and the
 * `useSearch` accessor that refuses to run outside a provider.
 */
module SearchContext {
  import opened Wrappers

  /** The eight filter fields, as a value. */
  datatype Filters = Filters(
    status: string,
    kind: string,
    cities: seq<string>,
    budget: string,
    minSurface: string,
    minRooms: string,
    features: seq<string>,
    showFilteredResults: bool)

  const AnyStatus := "Tous"
  const AnyType := "Tous"

  /** The state a provider starts with, and the one `resetFilters` restores. */
  function InitialFilters(): (f: Filters)
    ensures f.status == AnyStatus && f.kind == AnyType
    ensures f.cities == [] && f.features == []
    ensures f.budget == "" && f.minSurface == "" && f.minRooms == ""
    ensures !f.showFilteredResults
  {
    Filters(AnyStatus, AnyType, [], "", "", "", [], false)
  }

  /** The provider's state: one field per `useState`. */
  class SearchState {
    var activeStatus: string
    var activeType: string
    var activeCities: seq<string>
    var activeBudget: string
    var activeMinSurface: string
    var activeMinRooms: string
    var activeFeatures: seq<string>
    var showFilteredResults: bool

    /** The fields, as a value. */
    function Snapshot(): (f: Filters)
      reads this
      ensures f.status == activeStatus && f.kind == activeType && f.cities == activeCities
      ensures f.budget == activeBudget && f.minSurface == activeMinSurface && f.minRooms == activeMinRooms
      ensures f.features == activeFeatures && f.showFilteredResults == showFilteredResults
    {
      Filters(activeStatus, activeType, activeCities, activeBudget, activeMinSurface, activeMinRooms,
              activeFeatures, showFilteredResults)
    }

    /** A freshly mounted provider. */
    constructor ()
      ensures Snapshot() == InitialFilters()
    {
      activeStatus := AnyStatus;
      activeType := AnyType;
      activeCities := [];
      activeBudget := "";
      activeMinSurface := "";
      activeMinRooms := "";
      activeFeatures := [];
      showFilteredResults := false;
    }

    /**
     * `resetFilters`: every field back to its initial value, whatever the state was;
     * in particular a second reset changes nothing.
     */
    method ResetFilters()
      modifies this
      ensures Snapshot() == InitialFilters()
      ensures old(Snapshot()) == InitialFilters() ==> Snapshot() == old(Snapshot())
    {
      activeStatus := AnyStatus;
      activeType := AnyType;
      activeCities := [];
      activeBudget := "";
      activeMinSurface := "";
      activeMinRooms := "";
      activeFeatures := [];
      showFilteredResults := false;
    }

    method SetActiveStatus(value: string)
      modifies this
      ensures Snapshot() == old(Snapshot()).(status := value)
    {
      activeStatus := value;
    }

    method SetActiveType(value: string)
      modifies this
      ensures Snapshot() == old(Snapshot()).(kind := value)
    {
      activeType := value;
    }

    method SetActiveCities(value: seq<string>)
      modifies this
      ensures Snapshot() == old(Snapshot()).(cities := value)
    {
      activeCities := value;
    }

    method SetActiveBudget(value: string)
      modifies this
      ensures Snapshot() == old(Snapshot()).(budget := value)
    {
      activeBudget := value;
    }

    method SetActiveMinSurface(value: string)
      modifies this
      ensures Snapshot() == old(Snapshot()).(minSurface := value)
    {
      activeMinSurface := value;
    }

    method SetActiveMinRooms(value: string)
      modifies this
      ensures Snapshot() == old(Snapshot()).(minRooms := value)
    {
      activeMinRooms := value;
    }

    method SetActiveFeatures(value: seq<string>)
      modifies this
      ensures Snapshot() == old(Snapshot()).(features := value)
    {
      activeFeatures := value;
    }

    method SetShowFilteredResults(value: bool)
      modifies this
      ensures Snapshot() == old(Snapshot()).(showFilteredResults := value)
    {
      showFilteredResults := value;
    }
  }

  const OutsideProvider := "useSearch must be used within a SearchProvider"

  /**
   * `useSearch`: the context value of the nearest provider; `None` stands for the
   * `undefined` that `useContext` gives outside any provider, which makes it throw.
   */
  function UseSearch(context: Option<SearchState>): (r: Result<SearchState, string>)
    ensures r.Ok? <==> context.Some?
    ensures r.Ok? ==> r.value == context.value
    ensures r.Err? ==> r.error == OutsideProvider
  {
    match context
    case Some(state) => Ok(state)
    case None => Err(OutsideProvider)
  }
}
