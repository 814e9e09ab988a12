/**
 * The city administration page (src/pages/admin/CityManager.jsx): the cities grouped by
 * sector for display, the add form with its choice between a listed sector and a new
 * one, and the inline edit of a city.
 */
module CityManager {
  import opened Wrappers
  import opened Seqs
  import opened Strings
  import opened Sectors

  /** The sectors offered in the add form, in display order. */
  const SectorOptions: seq<string> := [
    "Bassin de Longwy & Frontières",
    "Cœur de Secteur (Pays-Haut)",
    "Secteur Longuyon & Environs",
    "Secteur Boulange / Audun"
  ]

  // Grouping for display

  /** Each city paired with the group it is shown under. */
  function CityEntries(cities: seq<City>): (entries: seq<(string, City)>)
    ensures |entries| == |cities|
    ensures forall i :: 0 <= i < |cities| ==> entries[i] == (SectorLabel(cities[i].sector), cities[i])
  {
    seq(|cities|, i requires 0 <= i < |cities| => (SectorLabel(cities[i].sector), cities[i]))
  }

  /**
   * `groupedCities`: the groups in the order in which their sectors first appear, each
   * holding exactly the cities of that sector ("Autres" for none), in input order.
   */
  method GroupCities(cities: seq<City>) returns (sectors: seq<string>, groups: map<string, seq<City>>)
    ensures sectors == SectorOrder(CityEntries(cities))
    ensures forall k :: k in groups <==> k in sectors
    ensures forall k :: k in groups ==> groups[k] == Bucket(CityEntries(cities), k)
    ensures forall i :: 0 <= i < |cities| ==> SectorLabel(cities[i].sector) in groups
    ensures forall k, c :: k in groups ==> (c in groups[k] <==> c in cities && SectorLabel(c.sector) == k)
  {
    var entries := CityEntries(cities);
    sectors, groups := GroupBySector(entries);
    SectorOrderMembers(entries);
    forall i | 0 <= i < |cities|
      ensures SectorLabel(cities[i].sector) in groups
    {
      assert KeysOf(entries)[i] == SectorLabel(cities[i].sector);
    }
    forall k, c | k in groups
      ensures c in groups[k] <==> c in cities && SectorLabel(c.sector) == k
    {
      GroupedUnderItsSector(cities, k, c);
    }
  }

  /** A city is in the group of `k` exactly when it is one of the cities and its label is `k`. */
  lemma GroupedUnderItsSector(cities: seq<City>, k: string, c: City)
    ensures c in Bucket(CityEntries(cities), k) <==> c in cities && SectorLabel(c.sector) == k
  {
    var entries := CityEntries(cities);
    BucketMembers(entries, k, c);
    if c in cities && SectorLabel(c.sector) == k {
      var i :| 0 <= i < |cities| && cities[i] == c;
      assert entries[i] == (k, c);
    }
    if (k, c) in entries {
      var i :| 0 <= i < |entries| && entries[i] == (k, c);
      assert cities[i] == c;
    }
  }

  /** Every city is counted in exactly one group: the group sizes add up to the number of cities. */
  lemma GroupSizesAddUp(cities: seq<City>)
    ensures TotalSize(CityEntries(cities), SectorOrder(CityEntries(cities))) == |cities|
  {
    GroupSizesSum(CityEntries(cities));
  }

  /** Within a group the cities keep the order in which they were fetched. */
  lemma GroupKeepsOrder(cities: seq<City>, k: string)
    ensures IsSubseq(Bucket(CityEntries(cities), k), cities)
  {
    BucketIsSubseq(CityEntries(cities), k);
    assert ValuesOf(CityEntries(cities)) == cities;
  }

  // Adding a city

  /** The record the add form inserts. */
  datatype NewCity = NewCity(name: string, sector: string)

  /**
   * `handleAdd`'s normalisation and guard: the trimmed name, and the trimmed new sector
   * name in custom mode or the selected option otherwise; nothing when either is empty.
   */
  function CityToInsert(newCity: string, isCustom: bool, customName: string, newSector: string): (r: Option<NewCity>)
    ensures r.Some? <==> Trim(newCity) != "" && (if isCustom then Trim(customName) else newSector) != ""
    ensures r.Some? ==> r.value.name == Trim(newCity) && IsTrimmed(r.value.name)
    ensures r.Some? && isCustom ==> r.value.sector == Trim(customName) && IsTrimmed(r.value.sector)
    ensures r.Some? && !isCustom ==> r.value.sector == newSector
  {
    var name := Trim(newCity);
    var sector := if isCustom then Trim(customName) else newSector;
    if name == "" || sector == "" then None else Some(NewCity(name, sector))
  }

  /** The add button's `disabled` condition. */
  predicate SubmitDisabled(newCity: string, isCustom: bool, customName: string)
  {
    Trim(newCity) == "" || (isCustom && Trim(customName) == "")
  }

  /**
   * With one of the listed sectors selected (as the select guarantees), the button is
   * disabled exactly when the submit handler would insert nothing.
   */
  lemma DisabledIffNothingToInsert(newCity: string, isCustom: bool, customName: string, newSector: string)
    requires newSector in SectorOptions
    ensures SubmitDisabled(newCity, isCustom, customName) <==> CityToInsert(newCity, isCustom, customName, newSector).None?
  {
  }

  // Editing a city

  /** `city.sector || SECTORS_OPTIONS[0]`: the sector an edit starts from. */
  function EditSectorFor(sector: Option<string>): (s: string)
    ensures s != ""
    ensures sector.Some? && sector.value != "" ==> s == sector.value
    ensures sector.None? || sector.value == "" ==> s == SectorOptions[0]
  {
    if sector.Some? && sector.value != "" then sector.value else SectorOptions[0]
  }

  /** The update `saveEdit` sends: the trimmed name and the sector as chosen. */
  function EditToSave(editName: string, editSector: string): (r: NewCity)
    ensures r.name == Trim(editName) && IsTrimmed(r.name)
    ensures r.sector == editSector
  {
    NewCity(Trim(editName), editSector)
  }

  /** The state of the page's two forms. */
  class CityForms {
    var newCity: string
    var newSector: string
    var isCustomSector: bool
    var customSectorName: string
    var editingId: Option<int>
    var editName: string
    var editSector: string

    /** The sector select always holds one of the listed sectors. */
    predicate Valid()
      reads this
    {
      newSector in SectorOptions
    }

    /** `SubmitDisabled` on the current state. */
    predicate Disabled()
      reads this
    {
      SubmitDisabled(newCity, isCustomSector, customSectorName)
    }

    constructor ()
      ensures Valid()
      ensures newCity == "" && newSector == SectorOptions[0] && !isCustomSector && customSectorName == ""
      ensures editingId == None && editName == "" && editSector == ""
    {
      newCity := "";
      newSector := SectorOptions[0];
      isCustomSector := false;
      customSectorName := "";
      editingId := None;
      editName := "";
      editSector := "";
    }

    /** The sector select: "custom" switches to a new sector, a listed sector is selected. */
    method SelectSector(value: string)
      requires Valid()
      requires value == "custom" || value in SectorOptions
      modifies this
      ensures Valid()
      ensures isCustomSector <==> value == "custom"
      ensures newSector == (if value == "custom" then old(newSector) else value)
      ensures newCity == old(newCity) && customSectorName == old(customSectorName)
      ensures editingId == old(editingId) && editName == old(editName) && editSector == old(editSector)
    {
      if value == "custom" {
        isCustomSector := true;
      } else {
        isCustomSector := false;
        newSector := value;
      }
    }

    /** Typing in the city name box. */
    method SetNewCity(value: string)
      modifies this
      ensures newCity == value
      ensures newSector == old(newSector) && isCustomSector == old(isCustomSector)
      ensures customSectorName == old(customSectorName)
      ensures editingId == old(editingId) && editName == old(editName) && editSector == old(editSector)
    {
      newCity := value;
    }

    /** Typing in the new sector box. */
    method SetCustomSectorName(value: string)
      modifies this
      ensures customSectorName == value
      ensures newCity == old(newCity) && newSector == old(newSector) && isCustomSector == old(isCustomSector)
      ensures editingId == old(editingId) && editName == old(editName) && editSector == old(editSector)
    {
      customSectorName := value;
    }

    /**
     * `handleAdd`: returns the record sent for insertion, if any; `insertSucceeded` is the
     * database's answer. After a successful insert the city box is cleared, and the new
     * sector box too when it was in use; otherwise nothing changes.
     */
    method HandleAdd(insertSucceeded: bool) returns (insert: Option<NewCity>)
      requires Valid()
      modifies this
      ensures Valid()
      ensures insert == CityToInsert(old(newCity), old(isCustomSector), old(customSectorName), old(newSector))
      ensures insert.None? <==> old(Disabled())
      ensures insert.Some? && insertSucceeded ==>
        newCity == "" && customSectorName == (if old(isCustomSector) then "" else old(customSectorName))
      ensures !(insert.Some? && insertSucceeded) ==> newCity == old(newCity) && customSectorName == old(customSectorName)
      ensures newSector == old(newSector) && isCustomSector == old(isCustomSector)
      ensures editingId == old(editingId) && editName == old(editName) && editSector == old(editSector)
    {
      DisabledIffNothingToInsert(newCity, isCustomSector, customSectorName, newSector);
      insert := CityToInsert(newCity, isCustomSector, customSectorName, newSector);
      if insert.Some? && insertSucceeded {
        newCity := "";
        if isCustomSector {
          customSectorName := "";
        }
      }
    }

    /** `startEdit`: the row enters edit mode with the city's name and sector. */
    method StartEdit(city: City)
      modifies this
      ensures editingId == Some(city.id) && editName == city.name
      ensures editSector == EditSectorFor(city.sector)
      ensures newCity == old(newCity) && newSector == old(newSector)
      ensures isCustomSector == old(isCustomSector) && customSectorName == old(customSectorName)
    {
      editingId := Some(city.id);
      editName := city.name;
      editSector := EditSectorFor(city.sector);
    }

    /** Typing in the edit name box. */
    method SetEditName(value: string)
      modifies this
      ensures editName == value
      ensures editingId == old(editingId) && editSector == old(editSector)
      ensures newCity == old(newCity) && newSector == old(newSector)
      ensures isCustomSector == old(isCustomSector) && customSectorName == old(customSectorName)
    {
      editName := value;
    }

    /** The sector select of the edited row. */
    method SetEditSector(value: string)
      modifies this
      ensures editSector == value
      ensures editingId == old(editingId) && editName == old(editName)
      ensures newCity == old(newCity) && newSector == old(newSector)
      ensures isCustomSector == old(isCustomSector) && customSectorName == old(customSectorName)
    {
      editSector := value;
    }

    /** The cancel button of the edited row. */
    method CancelEdit()
      modifies this
      ensures editingId == None
      ensures editName == old(editName) && editSector == old(editSector)
      ensures newCity == old(newCity) && newSector == old(newSector)
      ensures isCustomSector == old(isCustomSector) && customSectorName == old(customSectorName)
    {
      editingId := None;
    }

    /**
     * `saveEdit`: returns the id the update targets and the values sent; after a
     * successful update the row leaves edit mode, otherwise it stays in it.
     */
    method SaveEdit(updateSucceeded: bool) returns (target: Option<int>, update: NewCity)
      modifies this
      ensures target == old(editingId)
      ensures update == EditToSave(old(editName), old(editSector))
      ensures editingId == (if updateSucceeded then None else old(editingId))
      ensures editName == old(editName) && editSector == old(editSector)
      ensures newCity == old(newCity) && newSector == old(newSector)
      ensures isCustomSector == old(isCustomSector) && customSectorName == old(customSectorName)
    {
      target := editingId;
      update := EditToSave(editName, editSector);
      if updateSucceeded {
        editingId := None;
      }
    }
  }
}
