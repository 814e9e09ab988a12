/**
 * The multi-select location picker (src/components/CitySelector.jsx).
 *
 * The selection is a list of city names; the EMPTY list means "all cities", not "no
 * city". Sectors group the cities; a sector can be selected or deselected as a whole.
 */
module CitySelector {
  import opened Wrappers
  import opened Seqs
  import opened Strings
  import opened Sectors

  // ---------------------------------------------------------------------------
  // Toggling one city

  /** Clicking a city: removes every occurrence if present, appends it otherwise. */
  function ToggleCity(selected: seq<string>, city: string): (r: seq<string>)
    ensures city in r <==> city !in selected
    ensures forall c :: c != city ==> (c in r <==> c in selected)
  {
    FilterMembers(selected, c => c != city);
    if city in selected then Filter(selected, c => c != city) else selected + [city]
  }

  /** Every other entry keeps its multiplicity and its relative order. */
  lemma ToggleCityKeepsOthers(selected: seq<string>, city: string)
    ensures forall c :: c != city ==> multiset(ToggleCity(selected, city))[c] == multiset(selected)[c]
    ensures city in selected ==> IsSubseq(ToggleCity(selected, city), selected)
    ensures city !in selected ==> ToggleCity(selected, city) == selected + [city]
  {
    if city in selected {
      FilterIsSubseq(selected, c => c != city);
      forall y | y != city {
        FilterCountOthers(selected, c => c != city, y);
      }
    }
  }

  // ---------------------------------------------------------------------------
  // Disabled cities

  /** `cityCounts[city] || 0`. */
  function CountOf(counts: map<string, int>, city: string): int
  {
    if city in counts then counts[city] else 0
  }

  /** A city is shown disabled when the counts are known and it has no result. */
  predicate IsDisabled(loading: bool, counts: map<string, int>, city: string)
  {
    !loading && CountOf(counts, city) == 0
  }

  /** Clicking a city row: a disabled row ignores the click. */
  function ClickCity(selected: seq<string>, city: string, loading: bool, counts: map<string, int>): (r: seq<string>)
    ensures IsDisabled(loading, counts, city) ==> r == selected
    ensures !IsDisabled(loading, counts, city) ==> (city in r <==> city !in selected)
  {
    if IsDisabled(loading, counts, city) then selected else ToggleCity(selected, city)
  }

  // ---------------------------------------------------------------------------
  // Toggling a whole sector

  /** Whether a city of the sector takes part in a sector toggle. */
  predicate IsToggleable(dbMode: bool, loading: bool, counts: map<string, int>, city: string)
  {
    dbMode || loading || CountOf(counts, city) > 0
  }

  /**
   * The sector's toggleable cities: all of them when the city list comes from the
   * database (`dbMode`), otherwise those with results or all while counts are loading.
   */
  function Toggleable(cities: seq<string>, dbMode: bool, loading: bool, counts: map<string, int>): (t: seq<string>)
    ensures forall c :: c in t <==> c in cities && IsToggleable(dbMode, loading, counts, c)
    ensures dbMode ==> t == cities
  {
    var t := Filter(cities, c => IsToggleable(dbMode, loading, counts, c));
    FilterMembers(cities, c => IsToggleable(dbMode, loading, counts, c));
    if dbMode then
      FilterAll(cities, c => IsToggleable(dbMode, loading, counts, c));
      t
    else t
  }

  /** Outside database mode, a city is toggleable exactly when its row is not disabled. */
  lemma ToggleableMatchesRows(loading: bool, counts: map<string, int>, city: string)
    requires CountOf(counts, city) >= 0
    ensures IsToggleable(false, loading, counts, city) <==> !IsDisabled(loading, counts, city)
  {
  }

  predicate AllIn(t: seq<string>, selected: seq<string>)
  {
    forall i :: 0 <= i < |t| ==> t[i] in selected
  }

  /** Clicking a sector header. */
  function ToggleSector(selected: seq<string>, cities: seq<string>, dbMode: bool, loading: bool,
                        counts: map<string, int>): (r: seq<string>)
  {
    var t := Toggleable(cities, dbMode, loading, counts);
    if |t| == 0 then selected
    else if AllIn(t, selected) then Filter(selected, c => c !in t)
    else Filter(selected, c => c !in t) + t
  }

  /** Nothing toggleable: the click changes nothing. */
  lemma ToggleSectorEmpty(selected: seq<string>, cities: seq<string>, dbMode: bool, loading: bool,
                          counts: map<string, int>)
    requires forall c :: c in cities ==> !IsToggleable(dbMode, loading, counts, c)
    ensures ToggleSector(selected, cities, dbMode, loading, counts) == selected
  {
    var t := Toggleable(cities, dbMode, loading, counts);
    if t != [] {
      HeadIsMember(t);
      assert false;
    }
  }

  /**
   * All toggleable cities already selected: exactly those are removed; every other entry
   * stays, in its order and with its multiplicity.
   */
  lemma ToggleSectorDeselects(selected: seq<string>, cities: seq<string>, dbMode: bool, loading: bool,
                              counts: map<string, int>)
    requires forall c :: c in cities && IsToggleable(dbMode, loading, counts, c) ==> c in selected
    ensures var r := ToggleSector(selected, cities, dbMode, loading, counts);
      && IsSubseq(r, selected)
      && (forall c :: c in cities && IsToggleable(dbMode, loading, counts, c) ==> c !in r)
      && (forall c :: !(c in cities && IsToggleable(dbMode, loading, counts, c)) ==>
            multiset(r)[c] == multiset(selected)[c])
  {
    var t := Toggleable(cities, dbMode, loading, counts);
    var f := c => c !in t;
    FilterIsSubseq(selected, f);
    forall y | y !in t {
      FilterCountOthers(selected, f, y);
    }
    if t == [] {
      SubseqRefl(selected);
    } else {
      assert AllIn(t, selected);
    }
  }

  /**
   * Some toggleable city not selected: the other entries are kept in order, followed by
   * every toggleable city.
   */
  lemma ToggleSectorSelects(selected: seq<string>, cities: seq<string>, dbMode: bool, loading: bool,
                            counts: map<string, int>, missing: string)
    requires missing in cities && IsToggleable(dbMode, loading, counts, missing) && missing !in selected
    ensures var r := ToggleSector(selected, cities, dbMode, loading, counts);
      var t := Toggleable(cities, dbMode, loading, counts);
      && r == Filter(selected, c => c !in t) + t
      && IsSubseq(Filter(selected, c => c !in t), selected)
      && (forall c :: c in cities && IsToggleable(dbMode, loading, counts, c) ==> c in r)
      && (forall c :: !(c in cities && IsToggleable(dbMode, loading, counts, c)) ==>
            multiset(r)[c] == multiset(selected)[c])
  {
    var t := Toggleable(cities, dbMode, loading, counts);
    var f := c => c !in t;
    assert !AllIn(t, selected) by {
      var i :| 0 <= i < |t| && t[i] == missing;
    }
    FilterIsSubseq(selected, f);
    forall y | y !in t {
      FilterCountOthers(selected, f, y);
    }
  }

  /** With no duplicate names in the sector, selecting it puts each of its toggleable cities in once. */
  lemma ToggleSectorSelectsOnce(selected: seq<string>, cities: seq<string>, dbMode: bool, loading: bool,
                                counts: map<string, int>, missing: string)
    requires missing in cities && IsToggleable(dbMode, loading, counts, missing) && missing !in selected
    requires forall i, j :: 0 <= i < j < |cities| ==> cities[i] != cities[j]
    ensures forall c :: c in cities && IsToggleable(dbMode, loading, counts, c) ==>
      multiset(ToggleSector(selected, cities, dbMode, loading, counts))[c] == 1
  {
    var t := Toggleable(cities, dbMode, loading, counts);
    var f := c => c !in t;
    ToggleSectorSelects(selected, cities, dbMode, loading, counts, missing);
    FilterMembers(selected, f);
    forall c | c in t
      ensures multiset(Filter(selected, f) + t)[c] == 1
    {
      assert c !in Filter(selected, f);
      DistinctFilterCountsOnce(cities, c => IsToggleable(dbMode, loading, counts, c), c);
    }
  }

  lemma {:induction false} DistinctFilterCountsOnce(s: seq<string>, f: string -> bool, c: string)
    requires forall i, j :: 0 <= i < j < |s| ==> s[i] != s[j]
    requires c in Filter(s, f)
    ensures multiset(Filter(s, f))[c] == 1
  {
    var p := Init(s);
    assert s == p + [Last(s)];
    assert forall i, j :: 0 <= i < j < |p| ==> p[i] != p[j] by {
      forall i, j | 0 <= i < j < |p| ensures p[i] != p[j] { assert p[i] == s[i] && p[j] == s[j]; }
    }
    if Last(s) == c {
      assert c !in p;
      FilterMembers(p, f);
    } else {
      DistinctFilterCountsOnce(p, f, c);
    }
  }

  /**
   * Starting from a selection holding none of the toggleable cities, toggling the same
   * sector twice gives the original selection back.
   */
  lemma ToggleSectorTwice(selected: seq<string>, cities: seq<string>, dbMode: bool, loading: bool,
                          counts: map<string, int>)
    requires forall c :: c in cities && IsToggleable(dbMode, loading, counts, c) ==> c !in selected
    ensures ToggleSector(ToggleSector(selected, cities, dbMode, loading, counts), cities, dbMode, loading, counts)
            == selected
  {
    var t := Toggleable(cities, dbMode, loading, counts);
    var f := c => c !in t;
    if t != [] {
      FilterAll(selected, f);
      var once := selected + t;
      assert ToggleSector(selected, cities, dbMode, loading, counts) == once by {
        assert !AllIn(t, selected) by { assert t[0] !in selected; }
      }
      assert AllIn(t, once);
      FilterConcat(selected, t, f);
      FilterNone(t, f);
      assert Filter(once, f) == selected;
    }
  }

  /** A sector header shows "Tout désélectionner" when it is non-empty and every city is selected. */
  predicate IsSectorSelected(selected: seq<string>, cities: seq<string>)
  {
    |cities| > 0 && forall i :: 0 <= i < |cities| ==> cities[i] in selected
  }

  /**
   * A header shown as fully selected deselects on click: no toggleable city of the sector
   * is left selected.
   */
  lemma SelectedSectorClickDeselects(selected: seq<string>, cities: seq<string>, dbMode: bool, loading: bool,
                                     counts: map<string, int>)
    requires IsSectorSelected(selected, cities)
    ensures forall c :: c in cities && IsToggleable(dbMode, loading, counts, c) ==>
      c !in ToggleSector(selected, cities, dbMode, loading, counts)
  {
    ToggleSectorDeselects(selected, cities, dbMode, loading, counts);
  }

  /** In database mode, a header not shown as fully selected selects the whole sector. */
  lemma UnselectedSectorClickSelects(selected: seq<string>, cities: seq<string>, loading: bool,
                                     counts: map<string, int>)
    requires |cities| > 0 && !IsSectorSelected(selected, cities)
    ensures IsSectorSelected(ToggleSector(selected, cities, true, loading, counts), cities)
  {
    var i :| 0 <= i < |cities| && cities[i] !in selected;
    ToggleSectorSelects(selected, cities, true, loading, counts, cities[i]);
  }

  // ---------------------------------------------------------------------------
  // Labels and "all cities"

  const AllCitiesLabel := "Toutes les villes"

  /** The text of the closed picker. */
  function DisplayValue(selected: seq<string>): string
  {
    if |selected| == 0 then AllCitiesLabel
    else if |selected| == 1 then selected[0]
    else NatToString(|selected|) + " villes sélectionnées"
  }

  /** The footer line of the open picker. */
  function FooterText(selected: seq<string>): string
  {
    if |selected| == 0 then "Toute la zone est sélectionnée"
    else NatToString(|selected|) + " localités sélectionnées"
  }

  /**
   * The label names the single selected city, and for several cities it starts with the
   * count, which `parseInt` reads back.
   */
  lemma DisplayValueShowsCount(selected: seq<string>)
    ensures |selected| == 0 ==> DisplayValue(selected) == AllCitiesLabel
    ensures |selected| == 1 ==> DisplayValue(selected) == selected[0]
    ensures |selected| >= 2 ==> ParseInt(DisplayValue(selected)) == Some(|selected|)
    ensures |selected| >= 1 ==> ParseInt(FooterText(selected)) == Some(|selected|)
  {
    ParseIntOfDecimal(|selected|, " villes sélectionnées");
    ParseIntOfDecimal(|selected|, " localités sélectionnées");
  }

  /** "Toutes les villes" clears the selection, which the labels show as the whole area. */
  function SelectAll(): (r: seq<string>)
    ensures DisplayValue(r) == AllCitiesLabel
    ensures FooterText(r) == "Toute la zone est sélectionnée"
  {
    []
  }

  /** After "select all" no sector header shows as fully selected. */
  lemma SelectAllSelectsNoSector(cities: seq<string>)
    ensures !IsSectorSelected(SelectAll(), cities)
  {
    if |cities| > 0 {
      assert cities[0] !in SelectAll();
    }
  }

  // ---------------------------------------------------------------------------
  // Sectors to render

  datatype Sector = Sector(name: string, cities: seq<string>)

  /** What the picker is given as `availableCities`. */
  datatype Available = Absent | Records(rows: seq<City>) | Names(names: seq<string>)

  /** `availableCities && availableCities.length > 0`: every city of a sector is toggleable. */
  predicate DbMode(available: Available)
  {
    match available
    case Absent => false
    case Records(rows) => |rows| > 0
    case Names(names) => |names| > 0
  }

  const PreferredOrder: seq<string> := [
    "Bassin de Longwy & Frontières",
    "Cœur de Secteur (Pays-Haut)",
    "Secteur Longuyon & Environs",
    "Secteur Boulange / Audun"
  ]

  /** `PREFERRED_ORDER.indexOf(name)`. */
  function PreferredIndex(name: string): (i: int)
    ensures -1 <= i < |PreferredOrder|
    ensures i >= 0 ==> PreferredOrder[i] == name
    ensures i == -1 <==> name !in PreferredOrder
  {
    if name == PreferredOrder[0] then 0
    else if name == PreferredOrder[1] then 1
    else if name == PreferredOrder[2] then 2
    else if name == PreferredOrder[3] then 3
    else -1
  }

  /** Code-point lexicographic comparison, standing for `localeCompare`. */
  function LexCompare(a: string, b: string): int
  {
    if a == [] && b == [] then 0
    else if a == [] then -1
    else if b == [] then 1
    else if a[0] < b[0] then -1
    else if a[0] > b[0] then 1
    else LexCompare(a[1..], b[1..])
  }

  lemma {:induction false} LexCompareZero(a: string, b: string)
    ensures LexCompare(a, b) == 0 <==> a == b
  {
    if a != [] && b != [] && a[0] == b[0] {
      LexCompareZero(a[1..], b[1..]);
      assert a == [a[0]] + a[1..] && b == [b[0]] + b[1..];
    }
  }

  lemma {:induction false} LexCompareTotal(a: string, b: string)
    ensures LexCompare(a, b) <= 0 || LexCompare(b, a) <= 0
  {
    if a != [] && b != [] && a[0] == b[0] {
      LexCompareTotal(a[1..], b[1..]);
    }
  }

  lemma {:induction false} LexCompareTrans(a: string, b: string, c: string)
    requires LexCompare(a, b) <= 0 && LexCompare(b, c) <= 0
    ensures LexCompare(a, c) <= 0
  {
    if a != [] && b != [] && c != [] && a[0] == b[0] && b[0] == c[0] {
      LexCompareTrans(a[1..], b[1..], c[1..]);
    }
  }

  /** The sort comparator: preferred sectors first in their listed order, then by name. */
  function CompareSectorNames(a: string, b: string): int
  {
    var ia, ib := PreferredIndex(a), PreferredIndex(b);
    if ia != -1 && ib != -1 then ia - ib
    else if ia != -1 then -1
    else if ib != -1 then 1
    else LexCompare(a, b)
  }

  predicate SectorLeq(x: Sector, y: Sector)
  {
    CompareSectorNames(x.name, y.name) <= 0
  }

  lemma SectorLeqTotal(x: Sector, y: Sector)
    ensures SectorLeq(x, y) || SectorLeq(y, x)
  {
    LexCompareTotal(x.name, y.name);
  }

  lemma SectorLeqTrans(x: Sector, y: Sector, z: Sector)
    requires SectorLeq(x, y) && SectorLeq(y, z)
    ensures SectorLeq(x, z)
  {
    if PreferredIndex(x.name) == -1 && PreferredIndex(y.name) == -1 && PreferredIndex(z.name) == -1 {
      LexCompareTrans(x.name, y.name, z.name);
    }
  }

  /** A comparator in the sense of `Array.prototype.sort`: a total preorder on its arguments. */
  ghost predicate IsTotalPreorder<T(!new)>(cmp: (T, T) -> int)
  {
    && (forall x, y {:trigger cmp(x, y), cmp(y, x)} :: cmp(x, y) <= 0 || cmp(y, x) <= 0)
    && (forall x, y, z {:trigger cmp(x, y), cmp(y, z), cmp(x, z)} :: cmp(x, y) <= 0 && cmp(y, z) <= 0 ==> cmp(x, z) <= 0)
  }

  predicate SortedBy<T>(s: seq<T>, cmp: (T, T) -> int)
  {
    forall i, j :: 0 <= i < j < |s| ==> cmp(s[i], s[j]) <= 0
  }

  function CompareSectors(x: Sector, y: Sector): int
  {
    CompareSectorNames(x.name, y.name)
  }

  predicate SortedSectors(s: seq<Sector>)
  {
    forall i, j :: 0 <= i < j < |s| ==> SectorLeq(s[i], s[j])
  }

  lemma CompareSectorsIsTotalPreorder()
    ensures IsTotalPreorder(CompareSectors)
  {
    forall x, y
      ensures CompareSectors(x, y) <= 0 || CompareSectors(y, x) <= 0
    {
      SectorLeqTotal(x, y);
    }
    forall x, y, z | CompareSectors(x, y) <= 0 && CompareSectors(y, z) <= 0
      ensures CompareSectors(x, z) <= 0
    {
      SectorLeqTrans(x, y, z);
    }
  }

  /** `sectorsToRender.sort(...)` with the sector comparator. */
  method SortSectors(a: array<Sector>)
    modifies a
    ensures SortedSectors(a[..])
    ensures multiset(a[..]) == multiset(old(a[..]))
  {
    CompareSectorsIsTotalPreorder();
    SortBy(a, CompareSectors);
  }

  /** `Array.prototype.sort(cmp)`, in place: an insertion sort. */
  method SortBy<T(==,!new)>(a: array<T>, cmp: (T, T) -> int)
    requires IsTotalPreorder(cmp)
    modifies a
    ensures SortedBy(a[..], cmp)
    ensures multiset(a[..]) == multiset(old(a[..]))
  {
    var i := 0;
    while i < a.Length
      invariant 0 <= i <= a.Length
      invariant SortedBy(a[..i], cmp)
      invariant multiset(a[..]) == multiset(old(a[..]))
    {
      InsertLast(a, i, cmp);
      i := i + 1;
    }
    assert a[..] == a[..a.Length];
  }

  /** Moves `a[i]` down into the sorted prefix `a[..i]`. */
  method InsertLast<T(==,!new)>(a: array<T>, i: int, cmp: (T, T) -> int)
    requires IsTotalPreorder(cmp)
    requires 0 <= i < a.Length
    requires SortedBy(a[..i], cmp)
    modifies a
    ensures SortedBy(a[..i + 1], cmp)
    ensures multiset(a[..]) == multiset(old(a[..]))
  {
    var j := i;
    InsertionStart(a[..], i, cmp);
    while j > 0 && cmp(a[j - 1], a[j]) > 0
      invariant 0 <= j <= i
      invariant multiset(a[..]) == multiset(old(a[..]))
      invariant InsertionState(a[..], j, i, cmp)
    {
      SwapDown(a, j, i, cmp);
      j := j - 1;
    }
    InsertedSorted(a[..], j, i, cmp);
  }

  /**
   * The loop state of an insertion step: `s[..i + 1]` is sorted apart from the moving
   * element `s[j]`, which is below everything after it.
   */
  predicate InsertionState<T>(s: seq<T>, j: int, i: int, cmp: (T, T) -> int)
  {
    0 <= j <= i < |s| &&
    (forall p, q :: 0 <= p < q <= i && p != j && q != j ==> cmp(s[p], s[q]) <= 0) &&
    (forall q :: j < q <= i ==> cmp(s[j], s[q]) <= 0)
  }

  /** Before the first swap the moving element is the last one, after a sorted prefix. */
  lemma InsertionStart<T>(s: seq<T>, i: int, cmp: (T, T) -> int)
    requires 0 <= i < |s| && SortedBy(s[..i], cmp)
    ensures InsertionState(s, i, i, cmp)
  {
    assert forall p :: 0 <= p < i ==> s[..i][p] == s[p];
  }

  /** Swapping the moving element with a greater left neighbour keeps the loop state. */
  lemma SwapStep<T(!new)>(s: seq<T>, t: seq<T>, j: int, i: int, cmp: (T, T) -> int)
    requires IsTotalPreorder(cmp)
    requires InsertionState(s, j, i, cmp) && j > 0 && |t| == |s|
    requires cmp(s[j - 1], s[j]) > 0
    requires t == s[j - 1 := s[j]][j := s[j - 1]]
    ensures InsertionState(t, j - 1, i, cmp)
  {
    assert cmp(s[j], s[j - 1]) <= 0;
  }

  /** The state an insertion step ends in: `s[j]` sits between its neighbours, so `s[..i + 1]` is sorted. */
  lemma InsertedSorted<T(!new)>(s: seq<T>, j: int, i: int, cmp: (T, T) -> int)
    requires IsTotalPreorder(cmp)
    requires InsertionState(s, j, i, cmp)
    requires j > 0 ==> cmp(s[j - 1], s[j]) <= 0
    ensures SortedBy(s[..i + 1], cmp)
  {
    forall p | 0 <= p < j
      ensures cmp(s[p], s[j]) <= 0
    {
      if p < j - 1 {
        assert cmp(s[p], s[j - 1]) <= 0;
      }
    }
    assert forall p :: 0 <= p <= i ==> s[..i + 1][p] == s[p];
  }

  /** One step of the insertion loop: the moving element goes one place down. */
  method SwapDown<T(!new)>(a: array<T>, j: int, i: int, cmp: (T, T) -> int)
    requires IsTotalPreorder(cmp)
    requires InsertionState(a[..], j, i, cmp) && j > 0 && cmp(a[j - 1], a[j]) > 0
    modifies a
    ensures InsertionState(a[..], j - 1, i, cmp)
    ensures multiset(a[..]) == multiset(old(a[..]))
  {
    ghost var before := a[..];
    Swap(a, j - 1, j);
    SwapStep(before, a[..], j, i, cmp);
  }

  method Swap<T>(a: array<T>, p: int, q: int)
    requires 0 <= p < q < a.Length
    modifies a
    ensures a[..] == old(a[..])[p := old(a[q])][q := old(a[p])]
    ensures multiset(a[..]) == multiset(old(a[..]))
  {
    a[p], a[q] := a[q], a[p];
  }

  /** Distinct sector names, each a preferred one before the others. */
  lemma SortedSectorsOrder(s: seq<Sector>)
    requires SortedSectors(s)
    requires forall i, j :: 0 <= i < j < |s| ==> s[i].name != s[j].name
    ensures forall i, j :: 0 <= i < j < |s| && s[j].name in PreferredOrder ==>
      s[i].name in PreferredOrder && PreferredIndex(s[i].name) < PreferredIndex(s[j].name)
    ensures forall i, j :: 0 <= i < j < |s| && s[i].name !in PreferredOrder ==>
      s[j].name !in PreferredOrder && LexCompare(s[i].name, s[j].name) < 0
  {
    forall i, j | 0 <= i < j < |s|
      ensures PreferredIndex(s[i].name) == -1 && PreferredIndex(s[j].name) == -1 ==>
        LexCompare(s[i].name, s[j].name) < 0
    {
      LexCompareZero(s[i].name, s[j].name);
    }
  }

  /** The sector and name of each database row, the pairs the accumulator receives. */
  function RowEntries(rows: seq<City>): (entries: seq<(string, string)>)
    ensures |entries| == |rows|
    ensures forall i :: 0 <= i < |rows| ==> entries[i] == (SectorLabel(rows[i].sector), rows[i].name)
  {
    seq(|rows|, i requires 0 <= i < |rows| => (SectorLabel(rows[i].sector), rows[i].name))
  }

  /**
   * The sectors list matches the grouped entries: one sector per distinct sector name,
   * each holding its bucket.
   */
  predicate SectorsMatch(entries: seq<(string, string)>, sectors: seq<Sector>)
  {
    && |sectors| == |SectorOrder(entries)|
    && (forall i :: 0 <= i < |sectors| ==>
          sectors[i].name in SectorOrder(entries) && sectors[i].cities == Bucket(entries, sectors[i].name))
    && (forall i, j :: 0 <= i < j < |sectors| ==> sectors[i].name != sectors[j].name)
  }

  /**
   * The sector list the picker renders: database rows grouped by sector and sorted,
   * plain names in one "Nos Localités" sector, nothing otherwise.
   */
  method SectorsToRender(available: Available) returns (sectors: seq<Sector>)
    ensures available.Records? && |available.rows| > 0 ==>
      SectorsMatch(RowEntries(available.rows), sectors) && SortedSectors(sectors)
    ensures available.Names? && |available.names| > 0 ==> sectors == [Sector("Nos Localités", available.names)]
    ensures !DbMode(available) ==> sectors == []
  {
    match available {
      case Records(rows) =>
        if |rows| == 0 {
          sectors := [];
        } else {
          sectors := GroupAndSort(rows);
        }
      case Names(names) =>
        sectors := if |names| > 0 then [Sector("Nos Localités", names)] else [];
      case Absent =>
        sectors := [];
    }
  }

  /** The accumulator's entries as sector records, in key-creation order. */
  function SectorsOfGroups(keys: seq<string>, groups: map<string, seq<string>>): (r: seq<Sector>)
    requires forall k :: k in keys ==> k in groups
    ensures |r| == |keys|
    ensures forall i :: 0 <= i < |keys| ==> r[i] == Sector(keys[i], groups[keys[i]])
  {
    seq(|keys|, i requires 0 <= i < |keys| => Sector(keys[i], groups[keys[i]]))
  }

  method GroupAndSort(rows: seq<City>) returns (sectors: seq<Sector>)
    ensures SectorsMatch(RowEntries(rows), sectors)
    ensures SortedSectors(sectors)
  {
    var entries := RowEntries(rows);
    var keys, groups := GroupBySector(entries);
    var unsorted := SectorsOfGroups(keys, groups);
    GroupsMatch(entries, groups);
    var a := new Sector[|unsorted|](i requires 0 <= i < |unsorted| => unsorted[i]);
    assert a[..] == unsorted;
    SortSectors(a);
    sectors := a[..];
    PermutationKeepsMatch(entries, unsorted, sectors);
  }

  /** The accumulator's entries, taken in key-creation order, match the grouped entries. */
  lemma GroupsMatch(entries: seq<(string, string)>, groups: map<string, seq<string>>)
    requires forall k :: k in groups <==> k in SectorOrder(entries)
    requires forall k :: k in groups ==> groups[k] == Bucket(entries, k)
    ensures SectorsMatch(entries, SectorsOfGroups(SectorOrder(entries), groups))
  {
    DedupMembers(KeysOf(entries));
  }

  /** Any reordering of a matching sector list matches too. */
  lemma PermutationKeepsMatch(entries: seq<(string, string)>, s: seq<Sector>, t: seq<Sector>)
    requires SectorsMatch(entries, s)
    requires multiset(t) == multiset(s)
    ensures SectorsMatch(entries, t)
  {
    PermutationKeepsSectors(s, t);
    forall i | 0 <= i < |t|
      ensures t[i].name in SectorOrder(entries) && t[i].cities == Bucket(entries, t[i].name)
    {
      assert t[i] in s;
      var j :| 0 <= j < |s| && s[j] == t[i];
    }
  }

  /** A reordering of distinctly named sectors is distinctly named, with the same elements. */
  lemma PermutationKeepsSectors(s: seq<Sector>, t: seq<Sector>)
    requires multiset(t) == multiset(s)
    requires forall i, j :: 0 <= i < j < |s| ==> s[i].name != s[j].name
    ensures |t| == |s|
    ensures forall x :: x in t ==> x in s
    ensures forall i, j :: 0 <= i < j < |t| ==> t[i].name != t[j].name
  {
    assert |t| == |multiset(t)| == |multiset(s)| == |s|;
    forall x | x in t ensures x in s {
      assert x in multiset(t);
    }
    forall i, j | 0 <= i < j < |t| ensures t[i].name != t[j].name {
      if t[i].name == t[j].name {
        assert t[i] in s && t[j] in s;
        var p :| 0 <= p < |s| && s[p] == t[i];
        var q :| 0 <= q < |s| && s[q] == t[j];
        assert p == q;
        TwiceCounted(t, i, j);
        DistinctCountedOnce(s, p);
        assert false;
      }
    }
  }

  lemma TwiceCounted(t: seq<Sector>, i: int, j: int)
    requires 0 <= i < j < |t| && t[i] == t[j]
    ensures multiset(t)[t[i]] >= 2
  {
    assert t == t[..i] + [t[i]] + t[i + 1..j] + [t[j]] + t[j + 1..];
  }

  lemma DistinctCountedOnce(s: seq<Sector>, p: int)
    requires 0 <= p < |s|
    requires forall i, j :: 0 <= i < j < |s| ==> s[i].name != s[j].name
    ensures multiset(s)[s[p]] == 1
  {
    assert s == s[..p] + [s[p]] + s[p + 1..];
    assert s[p] !in s[..p];
    assert s[p] !in s[p + 1..];
  }
}
