/**
 * Sequence operations shared by the components: JavaScript's `Array.prototype.filter`,
 * the subsequence relation, and the order-preserving "first one per key" deduplication
 * that `new Set(...)` and the `seen`-set loops perform.
 *
 * Everything is defined from the back of the sequence (on `s[..|s|-1]` and the last
 * element), so that a loop over `s[..i]` unfolds one definition step per iteration.
 */
module Seqs {

  function Id<T>(x: T): T { x }

  function Last<T>(s: seq<T>): T
    requires s != []
  {
    s[|s| - 1]
  }

  function Init<T>(s: seq<T>): seq<T>
    requires s != []
  {
    s[..|s| - 1]
  }

  lemma HeadIsMember<T>(s: seq<T>)
    requires s != []
    ensures s[0] in s
  {
  }

  /** The elements of `s` that satisfy `f`, in their original order. */
  function Filter<T(==)>(s: seq<T>, f: T -> bool): (r: seq<T>)
    ensures |r| <= |s|
    ensures forall i :: 0 <= i < |r| ==> f(r[i])
  {
    if s == [] then []
    else Filter(Init(s), f) + (if f(Last(s)) then [Last(s)] else [])
  }

  /** The filter keeps exactly the elements that satisfy the predicate. */
  lemma {:induction false} FilterMembers<T>(s: seq<T>, f: T -> bool)
    ensures forall x :: x in Filter(s, f) <==> x in s && f(x)
  {
    if s != [] {
      FilterMembers(Init(s), f);
      assert s == Init(s) + [Last(s)];
    }
  }

  /** `a` can be obtained from `b` by deleting elements. */
  predicate IsSubseq<T(==)>(a: seq<T>, b: seq<T>)
    decreases |b|
  {
    if a == [] then true
    else if b == [] then false
    else (Last(a) == Last(b) && IsSubseq(Init(a), Init(b))) || IsSubseq(a, Init(b))
  }

  lemma SubseqOfAppend<T>(a: seq<T>, b: seq<T>, x: T)
    requires IsSubseq(a, b)
    ensures IsSubseq(a, b + [x])
  {
    assert Init(b + [x]) == b;
  }

  lemma SubseqBothAppend<T>(a: seq<T>, b: seq<T>, x: T)
    requires IsSubseq(a, b)
    ensures IsSubseq(a + [x], b + [x])
  {
    assert Init(a + [x]) == a;
    assert Init(b + [x]) == b;
  }

  lemma {:induction false} SubseqRefl<T>(s: seq<T>)
    ensures IsSubseq(s, s)
  {
    if s != [] {
      SubseqRefl(Init(s));
      SubseqBothAppend(Init(s), Init(s), Last(s));
      assert Init(s) + [Last(s)] == s;
    }
  }

  lemma {:induction false} SubseqMembers<T>(a: seq<T>, b: seq<T>)
    requires IsSubseq(a, b)
    ensures forall x :: x in a ==> x in b
    ensures |a| <= |b|
    decreases |b|
  {
    if a != [] {
      assert b != [];
      if Last(a) == Last(b) && IsSubseq(Init(a), Init(b)) {
        SubseqMembers(Init(a), Init(b));
        assert a == Init(a) + [Last(a)];
        assert b == Init(b) + [Last(b)];
      } else {
        SubseqMembers(a, Init(b));
        assert b == Init(b) + [Last(b)];
      }
    }
  }

  /** The filter keeps the relative order of what it keeps. */
  lemma {:induction false} FilterIsSubseq<T>(s: seq<T>, f: T -> bool)
    ensures IsSubseq(Filter(s, f), s)
  {
    if s != [] {
      FilterIsSubseq(Init(s), f);
      assert s == Init(s) + [Last(s)];
      if f(Last(s)) {
        SubseqBothAppend(Filter(Init(s), f), Init(s), Last(s));
      } else {
        assert Filter(s, f) == Filter(Init(s), f) + [];
        assert Filter(s, f) == Filter(Init(s), f);
        SubseqOfAppend(Filter(Init(s), f), Init(s), Last(s));
      }
    }
  }

  /** A stricter predicate keeps a subsequence of what a looser one keeps. */
  lemma {:induction false} FilterMonotone<T>(s: seq<T>, strict: T -> bool, loose: T -> bool)
    requires forall i :: 0 <= i < |s| && strict(s[i]) ==> loose(s[i])
    ensures IsSubseq(Filter(s, strict), Filter(s, loose))
  {
    if s == [] {
    } else {
      var p, x := Init(s), Last(s);
      assert forall i :: 0 <= i < |p| ==> p[i] == s[i];
      FilterMonotone(p, strict, loose);
      var a, b := Filter(p, strict), Filter(p, loose);
      if strict(x) {
        assert Filter(s, strict) == a + [x] && Filter(s, loose) == b + [x];
        SubseqBothAppend(a, b, x);
      } else if loose(x) {
        assert Filter(s, strict) == a + [] && Filter(s, loose) == b + [x];
        assert Filter(s, strict) == a;
        SubseqOfAppend(a, b, x);
      } else {
        assert Filter(s, strict) == a + [] && Filter(s, loose) == b + [];
        assert Filter(s, strict) == a && Filter(s, loose) == b;
      }
    }
  }

  lemma {:induction false} FilterAll<T>(s: seq<T>, f: T -> bool)
    requires forall x :: x in s ==> f(x)
    ensures Filter(s, f) == s
  {
    if s != [] {
      FilterAll(Init(s), f);
      assert s == Init(s) + [Last(s)];
    }
  }

  lemma {:induction false} FilterNone<T>(s: seq<T>, f: T -> bool)
    requires forall x :: x in s ==> !f(x)
    ensures Filter(s, f) == []
  {
    if s != [] {
      FilterNone(Init(s), f);
    }
  }

  lemma {:induction false} FilterConcat<T>(a: seq<T>, b: seq<T>, f: T -> bool)
    ensures Filter(a + b, f) == Filter(a, f) + Filter(b, f)
  {
    if b == [] {
      assert a + b == a;
    } else {
      FilterConcat(a, Init(b), f);
      assert Init(a + b) == a + Init(b);
      assert Last(a + b) == Last(b);
    }
  }

  /** Removing every element equal to `x` keeps all other occurrences of every other value. */
  lemma {:induction false} FilterCountOthers<T>(s: seq<T>, f: T -> bool, y: T)
    requires f(y)
    ensures multiset(Filter(s, f))[y] == multiset(s)[y]
  {
    if s != [] {
      FilterCountOthers(Init(s), f, y);
      assert s == Init(s) + [Last(s)];
    }
  }

  /** The set of keys of the elements of `s`. */
  function KeySet<T(==), K(==)>(s: seq<T>, key: T -> K): set<K>
  {
    set x | x in s :: key(x)
  }

  lemma KeySetAppend<T, K>(s: seq<T>, key: T -> K, x: T)
    ensures KeySet(s + [x], key) == KeySet(s, key) + {key(x)}
  {
    assert forall y :: y in s + [x] <==> y in s || y == x;
  }

  /**
   * The index of the first element of `s` whose key is `k`.
   */
  function FirstIndex<T(==), K(==)>(s: seq<T>, key: T -> K, k: K): (i: nat)
    requires k in KeySet(s, key)
    ensures i < |s| && key(s[i]) == k
    ensures forall j :: 0 <= j < i ==> key(s[j]) != k
  {
    var p := Init(s);
    assert s == p + [Last(s)];
    KeySetAppend(p, key, Last(s));
    if k in KeySet(p, key) then FirstIndex(p, key, k)
    else
      assert forall j :: 0 <= j < |p| ==> key(p[j]) in KeySet(p, key);
      |s| - 1
  }

  /**
   * The first element for each key, in the order the keys first appear:
   * what a loop that keeps a `seen` set of keys pushes.
   */
  function DedupBy<T(==), K(==)>(s: seq<T>, key: T -> K): (r: seq<T>)
    ensures KeySet(r, key) == KeySet(s, key)
    ensures forall i, j :: 0 <= i < j < |r| ==> key(r[i]) != key(r[j])
  {
    if s == [] then []
    else
      var p := Init(s);
      var x := Last(s);
      var r := DedupBy(p, key);
      assert s == p + [x];
      KeySetAppend(p, key, x);
      if key(x) in KeySet(p, key) then r
      else
        KeySetAppend(r, key, x);
        assert forall i :: 0 <= i < |r| ==> key(r[i]) in KeySet(r, key);
        r + [x]
  }

  /** One more element: it is kept exactly when its key has not been seen before. */
  lemma DedupBySnoc<T, K>(s: seq<T>, key: T -> K, x: T)
    ensures KeySet(s + [x], key) == KeySet(s, key) + {key(x)}
    ensures DedupBy(s + [x], key) ==
            if key(x) in KeySet(s, key) then DedupBy(s, key) else DedupBy(s, key) + [x]
  {
    KeySetAppend(s, key, x);
    assert Init(s + [x]) == s;
  }

  /** Duplicates removed, first occurrences kept in order (`[...new Set(s)]`). */
  function Dedup<T(==)>(s: seq<T>): seq<T>
  {
    DedupBy(s, Id)
  }

  lemma KeySetId<T>(s: seq<T>)
    ensures KeySet(s, Id) == set x | x in s
  {
  }

  /** `Dedup` keeps exactly the values of the input, each once. */
  lemma DedupMembers<T>(s: seq<T>)
    ensures forall x :: x in Dedup(s) <==> x in s
    ensures forall i, j :: 0 <= i < j < |Dedup(s)| ==> Dedup(s)[i] != Dedup(s)[j]
  {
    var r := DedupBy(s, Id);
    KeySetId(r);
    KeySetId(s);
    assert forall x :: x in r <==> x in KeySet(r, Id);
  }

  /** The deduplicated sequence keeps an order-preserving selection of the input. */
  lemma {:induction false} DedupByIsSubseq<T, K>(s: seq<T>, key: T -> K)
    ensures IsSubseq(DedupBy(s, key), s)
  {
    if s == [] {
    } else {
      var p := Init(s);
      DedupByIsSubseq(p, key);
      assert s == p + [Last(s)];
      if key(Last(s)) in KeySet(p, key) {
        SubseqOfAppend(DedupBy(p, key), p, Last(s));
      } else {
        SubseqBothAppend(DedupBy(p, key), p, Last(s));
      }
    }
  }

  /** Each element of `r` is the first element of `s` with its key. */
  ghost predicate KeepsFirst<T, K>(s: seq<T>, key: T -> K, r: seq<T>)
  {
    forall i :: 0 <= i < |r| ==>
      key(r[i]) in KeySet(s, key) && r[i] == s[FirstIndex(s, key, key(r[i]))]
  }

  /** The keys of `r` appear in the order in which they first occur in `s`. */
  ghost predicate InFirstOccurrenceOrder<T, K>(s: seq<T>, key: T -> K, r: seq<T>)
    requires forall i :: 0 <= i < |r| ==> key(r[i]) in KeySet(s, key)
  {
    forall i, j :: 0 <= i < j < |r| ==>
      FirstIndex(s, key, key(r[i])) < FirstIndex(s, key, key(r[j]))
  }

  lemma FirstIndexAppend<T, K>(p: seq<T>, key: T -> K, x: T, k: K)
    requires k in KeySet(p, key)
    ensures k in KeySet(p + [x], key)
    ensures FirstIndex(p + [x], key, k) == FirstIndex(p, key, k)
  {
    KeySetAppend(p, key, x);
    assert Init(p + [x]) == p;
  }

  /** Each kept element is the FIRST element of the input with its key. */
  lemma {:induction false} DedupByKeepsFirst<T, K>(s: seq<T>, key: T -> K)
    ensures KeepsFirst(s, key, DedupBy(s, key))
  {
    if s != [] {
      var p, x := Init(s), Last(s);
      DedupByKeepsFirst(p, key);
      assert s == p + [x];
      KeepsFirstAppend(p, key, x, DedupBy(p, key));
      if key(x) !in KeySet(p, key) {
        KeepsFirstNewKey(p, key, x, DedupBy(p, key));
      }
    }
  }

  lemma KeepsFirstAppend<T, K>(p: seq<T>, key: T -> K, x: T, r: seq<T>)
    requires KeepsFirst(p, key, r)
    ensures KeepsFirst(p + [x], key, r)
  {
    forall i | 0 <= i < |r|
      ensures key(r[i]) in KeySet(p + [x], key)
      ensures r[i] == (p + [x])[FirstIndex(p + [x], key, key(r[i]))]
    {
      FirstIndexAppend(p, key, x, key(r[i]));
    }
  }

  lemma KeepsFirstNewKey<T, K>(p: seq<T>, key: T -> K, x: T, r: seq<T>)
    requires KeepsFirst(p + [x], key, r)
    requires key(x) !in KeySet(p, key)
    ensures KeepsFirst(p + [x], key, r + [x])
  {
    KeySetAppend(p, key, x);
    assert Init(p + [x]) == p;
    assert FirstIndex(p + [x], key, key(x)) == |p|;
  }

  /** The kept elements appear in the order in which their keys first occur in the input. */
  lemma {:induction false} DedupByInFirstOccurrenceOrder<T, K>(s: seq<T>, key: T -> K)
    ensures InFirstOccurrenceOrder(s, key, DedupBy(s, key))
  {
    if s != [] {
      var p, x := Init(s), Last(s);
      DedupByInFirstOccurrenceOrder(p, key);
      assert s == p + [x];
      if key(x) !in KeySet(p, key) {
        OrderNewKey(p, key, x, DedupBy(p, key));
      } else {
        OrderAppend(p, key, x, DedupBy(p, key));
      }
    }
  }

  lemma OrderAppend<T, K>(p: seq<T>, key: T -> K, x: T, r: seq<T>)
    requires forall i :: 0 <= i < |r| ==> key(r[i]) in KeySet(p, key)
    requires InFirstOccurrenceOrder(p, key, r)
    ensures forall i :: 0 <= i < |r| ==> key(r[i]) in KeySet(p + [x], key)
    ensures forall i :: 0 <= i < |r| ==> FirstIndex(p + [x], key, key(r[i])) == FirstIndex(p, key, key(r[i]))
    ensures InFirstOccurrenceOrder(p + [x], key, r)
  {
    forall i | 0 <= i < |r|
      ensures key(r[i]) in KeySet(p + [x], key)
      ensures FirstIndex(p + [x], key, key(r[i])) == FirstIndex(p, key, key(r[i]))
    {
      FirstIndexAppend(p, key, x, key(r[i]));
    }
  }

  lemma OrderNewKey<T, K>(p: seq<T>, key: T -> K, x: T, r: seq<T>)
    requires forall i :: 0 <= i < |r| ==> key(r[i]) in KeySet(p, key)
    requires InFirstOccurrenceOrder(p, key, r)
    requires key(x) !in KeySet(p, key)
    ensures forall i :: 0 <= i < |r + [x]| ==> key((r + [x])[i]) in KeySet(p + [x], key)
    ensures InFirstOccurrenceOrder(p + [x], key, r + [x])
  {
    OrderAppend(p, key, x, r);
    KeySetAppend(p, key, x);
    assert Init(p + [x]) == p;
    assert FirstIndex(p + [x], key, key(x)) == |p|;
  }
}
