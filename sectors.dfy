/**
 * City reference records and the grouping of entries by sector that both the location
 * selector (src/components/CitySelector.jsx) and the admin city page
 * (src/pages/admin/CityManager.jsx) perform with a `reduce` over an accumulator
 * object: the first time a sector is met it gets an empty array, then the entry is
 * pushed onto its sector's array.
 */
module Sectors {
  import opened Wrappers
  import opened Seqs

  /** A row of the `cities` table. */
  datatype City = City(id: int, name: string, sector: Option<string>)

  /** `sector || "Autres"`: a missing or empty sector falls under "Autres". */
  function SectorLabel(sector: Option<string>): (name: string)
    ensures name != ""
    ensures sector.Some? && sector.value != "" ==> name == sector.value
  {
    if sector.Some? && sector.value != "" then sector.value else "Autres"
  }

  /** The sector of every entry, in input order. */
  function KeysOf<V>(entries: seq<(string, V)>): (keys: seq<string>)
    ensures |keys| == |entries|
    ensures forall i :: 0 <= i < |entries| ==> keys[i] == entries[i].0
  {
    seq(|entries|, i requires 0 <= i < |entries| => entries[i].0)
  }

  /** The sectors in the order in which they are first met (the accumulator's key order). */
  function SectorOrder<V>(entries: seq<(string, V)>): seq<string>
  {
    Dedup(KeysOf(entries))
  }

  /** What the accumulator holds under `k`: the values pushed for `k`, in input order. */
  function Bucket<V>(entries: seq<(string, V)>, k: string): seq<V>
  {
    if entries == [] then []
    else Bucket(Init(entries), k) + (if Last(entries).0 == k then [Last(entries).1] else [])
  }

  lemma SectorOrderMembers<V>(entries: seq<(string, V)>)
    ensures forall k :: k in SectorOrder(entries) <==> k in KeysOf(entries)
  {
    DedupMembers(KeysOf(entries));
  }

  lemma SectorOrderAppend<V>(entries: seq<(string, V)>, e: (string, V))
    ensures KeysOf(entries + [e]) == KeysOf(entries) + [e.0]
    ensures SectorOrder(entries + [e]) ==
      SectorOrder(entries) + (if e.0 in KeysOf(entries) then [] else [e.0])
  {
    var ks := KeysOf(entries + [e]);
    assert ks == KeysOf(entries) + [e.0];
    assert Init(ks) == KeysOf(entries);
    KeySetId(KeysOf(entries));
  }

  lemma BucketAppend<V>(entries: seq<(string, V)>, e: (string, V), k: string)
    ensures Bucket(entries + [e], k) == Bucket(entries, k) + (if e.0 == k then [e.1] else [])
  {
    assert Init(entries + [e]) == entries;
  }

  /**
   * The accumulator loop: `keys` records the order in which sectors were created, and
   * `groups[k]` holds the values pushed for sector `k`.
   */
  method GroupBySector<V>(entries: seq<(string, V)>)
    returns (keys: seq<string>, groups: map<string, seq<V>>)
    ensures keys == SectorOrder(entries)
    ensures forall k :: k in groups <==> k in keys
    ensures forall k :: k in groups ==> groups[k] == Bucket(entries, k)
  {
    keys, groups := [], map[];
    for i := 0 to |entries|
      invariant keys == SectorOrder(entries[..i])
      invariant forall k :: k in groups <==> k in keys
      invariant forall k :: k in groups ==> groups[k] == Bucket(entries[..i], k)
    {
      var e := entries[i];
      assert entries[..i + 1] == entries[..i] + [e];
      SectorOrderAppend(entries[..i], e);
      SectorOrderMembers(entries[..i]);
      forall k {
        BucketAppend(entries[..i], e, k);
      }
      if e.0 !in groups {
        BucketMembersEmpty(entries[..i], e.0);
        groups := groups[e.0 := []];
        keys := keys + [e.0];
      }
      groups := groups[e.0 := groups[e.0] + [e.1]];
    }
    assert entries[..|entries|] == entries;
  }

  /** A value is in the bucket of `k` exactly when it was pushed with sector `k`. */
  lemma {:induction false} BucketMembers<V>(entries: seq<(string, V)>, k: string, v: V)
    ensures v in Bucket(entries, k) <==> (k, v) in entries
  {
    if entries != [] {
      BucketMembers(Init(entries), k, v);
      assert entries == Init(entries) + [Last(entries)];
    }
  }

  /** The values of the entries, in input order. */
  function ValuesOf<V>(entries: seq<(string, V)>): (vs: seq<V>)
    ensures |vs| == |entries|
    ensures forall i :: 0 <= i < |entries| ==> vs[i] == entries[i].1
  {
    seq(|entries|, i requires 0 <= i < |entries| => entries[i].1)
  }

  /** Within a group, values keep their input order. */
  lemma {:induction false} BucketIsSubseq<V>(entries: seq<(string, V)>, k: string)
    ensures IsSubseq(Bucket(entries, k), ValuesOf(entries))
  {
    if entries != [] {
      var p, e := Init(entries), Last(entries);
      BucketIsSubseq(p, k);
      assert entries == p + [e];
      assert ValuesOf(entries) == ValuesOf(p) + [e.1];
      if e.0 == k {
        SubseqBothAppend(Bucket(p, k), ValuesOf(p), e.1);
      } else {
        assert Bucket(entries, k) == Bucket(p, k);
        SubseqOfAppend(Bucket(p, k), ValuesOf(p), e.1);
      }
    }
  }

  /** The sum of the sizes of the groups listed in `ks`. */
  function TotalSize<V>(entries: seq<(string, V)>, ks: seq<string>): nat
  {
    if ks == [] then 0 else TotalSize(entries, Init(ks)) + |Bucket(entries, Last(ks))|
  }

  lemma {:induction false} TotalSizeAppend<V>(entries: seq<(string, V)>, e: (string, V), ks: seq<string>)
    ensures TotalSize(entries + [e], ks) == TotalSize(entries, ks) + multiset(ks)[e.0]
  {
    if ks != [] {
      TotalSizeAppend(entries, e, Init(ks));
      BucketAppend(entries, e, Last(ks));
      assert ks == Init(ks) + [Last(ks)];
    }
  }

  lemma {:induction false} DistinctCountsOnce(ks: seq<string>, k: string)
    requires forall i, j :: 0 <= i < j < |ks| ==> ks[i] != ks[j]
    requires k in ks
    ensures multiset(ks)[k] == 1
  {
    var p := Init(ks);
    assert ks == p + [Last(ks)];
    if Last(ks) == k {
      assert k !in p;
    } else {
      DistinctCountsOnce(p, k);
    }
  }

  lemma {:induction false} TotalSizeEmptyBucket<V>(entries: seq<(string, V)>, ks: seq<string>, e: (string, V))
    requires e.0 !in ks
    ensures TotalSize(entries + [e], ks) == TotalSize(entries, ks)
  {
    TotalSizeAppend(entries, e, ks);
  }

  /**
   * Every entry lands in exactly one group: the group sizes add up to the number of
   * entries.
   */
  lemma {:induction false} GroupSizesSum<V>(entries: seq<(string, V)>)
    ensures TotalSize(entries, SectorOrder(entries)) == |entries|
  {
    if entries != [] {
      var p, e := Init(entries), Last(entries);
      assert entries == p + [e];
      GroupSizesSum(p);
      SectorOrderAppend(p, e);
      SectorOrderMembers(p);
      var ks := SectorOrder(p);
      TotalSizeAppend(p, e, ks);
      if e.0 in KeysOf(p) {
        DistinctCountsOnce(ks, e.0);
      } else {
        var ks' := ks + [e.0];
        assert Init(ks') == ks;
        BucketAppend(p, e, e.0);
        BucketMembersEmpty(p, e.0);
      }
    }
  }

  lemma {:induction false} BucketMembersEmpty<V>(entries: seq<(string, V)>, k: string)
    requires k !in KeysOf(entries)
    ensures Bucket(entries, k) == []
  {
    if entries != [] {
      var p := Init(entries);
      assert KeysOf(entries) == KeysOf(p) + [Last(entries).0];
      BucketMembersEmpty(p, k);
    }
  }
}
