/** In-place deduplication (`model/event.go`, `DeduplicateSlice`). */
module Dedup {
  predicate Occurs<T, H(==)>(q: seq<T>, key: T -> H, h: H) {
    exists i :: 0 <= i < |q| && key(q[i]) == h
  }

  /** The first element of each key, in order. */
  function DedupBy<T, H(==)>(q: seq<T>, key: T -> H): (d: seq<T>)
    ensures |d| <= |q|
  {
    if q == [] then []
    else
      var d, last := DedupBy(q[..|q| - 1], key), q[|q| - 1];
      if Occurs(d, key, key(last)) then d else d + [last]
  }

  predicate DistinctKeys<T, H(==)>(q: seq<T>, key: T -> H) {
    forall i, j :: 0 <= i < j < |q| ==> key(q[i]) != key(q[j])
  }

  lemma {:induction false} DedupDistinct<T(!new), H(!new)>(q: seq<T>, key: T -> H)
    ensures DistinctKeys(DedupBy(q, key), key)
    ensures forall x :: x in DedupBy(q, key) ==> x in q
    ensures forall x :: x in q ==> Occurs(DedupBy(q, key), key, key(x))
  {
    if q != [] {
      var init, last := q[..|q| - 1], q[|q| - 1];
      DedupDistinct(init, key);
      var d := DedupBy(init, key);
      assert q == init + [last];
      OccursSnoc(d, key, last);
    }
  }

  /** Elements whose keys have occurred add nothing. */
  lemma {:induction false} DedupKnown<T(!new), H>(d: seq<T>, more: seq<T>, key: T -> H)
    requires DistinctKeys(d, key) && forall x :: x in more ==> Occurs(d, key, key(x))
    ensures DedupBy(d + more, key) == d
    decreases |d| + |more|
  {
    hide DistinctKeys;
    if more != [] {
      var init := more[..|more| - 1];
      assert (d + more)[..|d + more| - 1] == d + init && (d + more)[|d + more| - 1] == more[|more| - 1];
      assert more[|more| - 1] in more;
      DedupKnown(d, init, key);
    } else if d != [] {
      DedupOfDistinct(d, key);
      assert d + more == d;
    }
  }

  lemma {:induction false} DedupOfDistinct<T, H>(d: seq<T>, key: T -> H)
    requires DistinctKeys(d, key)
    ensures DedupBy(d, key) == d
  {
    if d != [] {
      var init := d[..|d| - 1];
      DedupOfDistinct(init, key);
      assert !Occurs(init, key, key(d[|d| - 1]));
    }
  }

  lemma OccursSnoc<T(!new), H(!new)>(q: seq<T>, key: T -> H, last: T)
    ensures forall h :: Occurs(q + [last], key, h) <==> Occurs(q, key, h) || h == key(last)
  {
    forall h
      ensures Occurs(q + [last], key, h) <==> Occurs(q, key, h) || h == key(last)
    {
      if Occurs(q, key, h) {
        var i :| 0 <= i < |q| && key(q[i]) == h;
        assert key((q + [last])[i]) == h;
      }
      assert key((q + [last])[|q|]) == key(last);
    }
  }

  /** Deduplicating what an in-place deduplication leaves in the whole slice gives the same list again. */
  lemma DedupTwice<T(!new), H(!new)>(q: seq<T>, key: T -> H)
    ensures var d := DedupBy(q, key); DedupBy(d + q[|d|..], key) == d
  {
    DedupDistinct(q, key);
    DedupKnown(DedupBy(q, key), q[|DedupBy(q, key)|..], key);
  }

  /** Returns how much of the slice is kept; what is past it stays as it was. */
  method DeduplicateSlice<T(!new), H(==,!new)>(a: array<T>, key: T -> H) returns (j: nat)
    modifies a
    ensures j == |DedupBy(old(a[..]), key)| <= a.Length
    ensures a[..j] == DedupBy(old(a[..]), key)
    ensures a[j..] == old(a[j..])
  {
    var seen: set<H> := {};
    j := 0;
    ghost var q, kept := a[..], [];
    for i := 0 to a.Length
      invariant |kept| == j <= i && kept == DedupBy(q[..i], key)
      invariant forall k :: 0 <= k < j ==> a[k] == kept[k]
      invariant forall k :: j <= k < a.Length ==> a[k] == q[k]
      invariant forall h :: h in seen <==> Occurs(kept, key, h)
    {
      assert q[..i + 1][..i] == q[..i];
      var v := a[i];
      var x := key(v);
      if x !in seen {
        OccursSnoc(kept, key, v);
        seen := seen + {x};
        a[j] := v;
        j := j + 1;
        kept := kept + [v];
      }
    }
    assert q[..a.Length] == q && a[..j] == kept;
  }
}
