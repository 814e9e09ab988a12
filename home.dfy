/**
 * The listing filter of the home page (src/pages/Home.jsx): three criteria, each with a
 * sentinel meaning "no restriction", combined by conjunction, and the list of distinct
 * cities offered in the search box.
 */
module Home {
  import opened Wrappers
  import opened Seqs
  import opened Strings

  /**
   * The fields of a listing that the filter reads. The price is stored as `parseFloat`
   * of the form's number input, so it may have a fractional part.
   */
  datatype Property = Property(id: int, kind: string, city: string, price: real)

  /** The three criteria of the search box, as the strings the inputs hold. */
  datatype Criteria = Criteria(kind: string, city: string, budget: string)

  const AnyType := "Tous"
  const AnyCity := "Toutes"

  /** The criteria the page starts with. */
  function DefaultCriteria(): (c: Criteria)
    ensures c.kind == AnyType && c.city == AnyCity && c.budget == ""
  {
    Criteria(AnyType, AnyCity, "")
  }

  predicate TypeMatch(c: Criteria, p: Property)
  {
    c.kind == AnyType || p.kind == c.kind
  }

  predicate CityMatch(c: Criteria, p: Property)
  {
    c.city == AnyCity || p.city == c.city
  }

  /**
   * `p.price <= parseInt(budget)`; a comparison with `NaN` is false, so a budget with no
   * leading number keeps nothing.
   */
  predicate PriceMatch(c: Criteria, p: Property)
  {
    c.budget == "" || (ParseInt(c.budget).Some? && p.price <= ParseInt(c.budget).value as real)
  }

  predicate Matches(c: Criteria, p: Property)
  {
    TypeMatch(c, p) && CityMatch(c, p) && PriceMatch(c, p)
  }

  /** `filteredProperties`: the listings that meet every criterion. */
  function FilterProperties(properties: seq<Property>, c: Criteria): (r: seq<Property>)
    ensures forall i :: 0 <= i < |r| ==> r[i] in properties && Matches(c, r[i])
    ensures forall i :: 0 <= i < |properties| && Matches(c, properties[i]) ==> properties[i] in r
  {
    FilterMembers(properties, p => Matches(c, p));
    Filter(properties, p => Matches(c, p))
  }

  /** The kept listings appear in the order of the input. */
  lemma FilterKeepsOrder(properties: seq<Property>, c: Criteria)
    ensures IsSubseq(FilterProperties(properties, c), properties)
  {
    FilterIsSubseq(properties, p => Matches(c, p));
  }

  /** With the default criteria nothing is filtered out. */
  lemma DefaultKeepsAll(properties: seq<Property>)
    ensures FilterProperties(properties, DefaultCriteria()) == properties
  {
    FilterAll(properties, p => Matches(DefaultCriteria(), p));
  }

  /** Type "Tous" keeps listings of every type; any other type keeps that type only. */
  lemma TypeCriterion(properties: seq<Property>, c: Criteria)
    ensures c.kind == AnyType ==>
      forall i :: 0 <= i < |properties| && CityMatch(c, properties[i]) && PriceMatch(c, properties[i]) ==>
        properties[i] in FilterProperties(properties, c)
    ensures c.kind != AnyType ==>
      forall i :: 0 <= i < |FilterProperties(properties, c)| ==> FilterProperties(properties, c)[i].kind == c.kind
  {
  }

  /** City "Toutes" keeps listings in every city; any other city keeps that city only. */
  lemma CityCriterion(properties: seq<Property>, c: Criteria)
    ensures c.city == AnyCity ==>
      forall i :: 0 <= i < |properties| && TypeMatch(c, properties[i]) && PriceMatch(c, properties[i]) ==>
        properties[i] in FilterProperties(properties, c)
    ensures c.city != AnyCity ==>
      forall i :: 0 <= i < |FilterProperties(properties, c)| ==> FilterProperties(properties, c)[i].city == c.city
  {
  }

  /**
   * A budget typed as a number `n` keeps exactly the listings priced at most `n`,
   * the boundary included.
   */
  lemma BudgetIsInclusive(properties: seq<Property>, c: Criteria, n: nat, p: Property)
    requires c.budget == NatToString(n)
    requires TypeMatch(c, p) && CityMatch(c, p)
    requires p in properties
    ensures p in FilterProperties(properties, c) <==> p.price <= n as real
  {
    ParseIntOfDecimal(n, "");
    assert NatToString(n) + "" == NatToString(n);
  }

  /** A budget with no leading number (`parseInt` gives `NaN`) keeps no listing at all. */
  lemma UnreadableBudgetKeepsNothing(properties: seq<Property>, c: Criteria)
    requires c.budget != "" && ParseInt(c.budget).None?
    ensures FilterProperties(properties, c) == []
  {
    FilterNone(properties, p => Matches(c, p));
  }

  /**
   * `strict` is `loose` with some sentinels replaced by concrete values (and the other
   * criteria unchanged).
   */
  predicate Refines(strict: Criteria, loose: Criteria)
  {
    (loose.kind == AnyType || strict.kind == loose.kind) &&
    (loose.city == AnyCity || strict.city == loose.city) &&
    (loose.budget == "" || strict.budget == loose.budget)
  }

  /** Narrowing a criterion can only remove listings, never add or reorder them. */
  lemma NarrowingRemovesOnly(properties: seq<Property>, strict: Criteria, loose: Criteria)
    requires Refines(strict, loose)
    ensures IsSubseq(FilterProperties(properties, strict), FilterProperties(properties, loose))
  {
    FilterMonotone(properties, p => Matches(strict, p), p => Matches(loose, p));
  }

  /** The city of every listing, in input order. */
  function CitiesOf(properties: seq<Property>): (cs: seq<string>)
    ensures |cs| == |properties|
    ensures forall i :: 0 <= i < |properties| ==> cs[i] == properties[i].city
  {
    seq(|properties|, i requires 0 <= i < |properties| => properties[i].city)
  }

  /** `[...new Set(properties.map(p => p.city))]`. */
  function Cities(properties: seq<Property>): seq<string>
  {
    Dedup(CitiesOf(properties))
  }

  /**
   * The city list holds each city of the listings exactly once, nothing else, and in the
   * order in which the cities first occur.
   */
  lemma CitiesAreDistinctAndComplete(properties: seq<Property>)
    ensures forall city :: city in Cities(properties) <==> exists i :: 0 <= i < |properties| && properties[i].city == city
    ensures forall i, j :: 0 <= i < j < |Cities(properties)| ==> Cities(properties)[i] != Cities(properties)[j]
    ensures InFirstOccurrenceOrder(CitiesOf(properties), Id, Cities(properties))
  {
    var cs := CitiesOf(properties);
    DedupMembers(cs);
    DedupByInFirstOccurrenceOrder(cs, Id);
    forall city | city in Cities(properties)
      ensures exists i :: 0 <= i < |properties| && properties[i].city == city
    {
      var i :| 0 <= i < |cs| && cs[i] == city;
    }
  }
}
