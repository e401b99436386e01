/** Order-preserving selection from sequences. */
module Seqs {
  /** The elements that satisfy a predicate, in order. */
  function Select<T>(q: seq<T>, p: T -> bool): seq<T> {
    if q == [] then [] else (if p(q[0]) then [q[0]] else []) + Select(q[1..], p)
  }

  lemma {:induction false} SelectConcat<T>(a: seq<T>, b: seq<T>, p: T -> bool)
    ensures Select(a + b, p) == Select(a, p) + Select(b, p)
  {
    if a == [] {
      assert a + b == b;
    } else {
      var head := if p(a[0]) then [a[0]] else [];
      SelectConcat(a[1..], b, p);
      assert (a + b)[0] == a[0] && (a + b)[1..] == a[1..] + b;
      assert Select(a + b, p) == head + (Select(a[1..], p) + Select(b, p));
    }
  }

  lemma SelectSnoc<T>(q: seq<T>, x: T, p: T -> bool)
    ensures Select(q + [x], p) == if p(x) then Select(q, p) + [x] else Select(q, p)
  {
    SelectConcat(q, [x], p);
  }

  lemma {:induction false} SelectMembers<T(!new)>(q: seq<T>, p: T -> bool)
    ensures forall x :: x in Select(q, p) <==> x in q && p(x)
  {
    if q != [] {
      SelectMembers(q[1..], p);
      assert q == [q[0]] + q[1..];
    }
  }

  lemma {:induction false} SelectSize<T>(q: seq<T>, p: T -> bool)
    ensures |Select(q, p)| <= |q|
  {
    if q != [] {
      SelectSize(q[1..], p);
    }
  }

  lemma {:induction false} SelectNone<T>(q: seq<T>, p: T -> bool)
    requires forall i :: 0 <= i < |q| ==> !p(q[i])
    ensures Select(q, p) == []
  {
    if q != [] {
      SelectNone(q[1..], p);
    }
  }

  lemma {:induction false} SelectAll<T>(q: seq<T>, p: T -> bool)
    requires forall i :: 0 <= i < |q| ==> p(q[i])
    ensures Select(q, p) == q
  {
    if q != [] {
      SelectAll(q[1..], p);
    }
  }

  /** Selecting by a narrower predicate from a selection is selecting from the whole. */
  lemma {:induction false} SelectTwice<T(!new)>(q: seq<T>, wide: T -> bool, narrow: T -> bool)
    requires forall x :: narrow(x) ==> wide(x)
    ensures Select(Select(q, wide), narrow) == Select(q, narrow)
  {
    if q != [] {
      var rest := Select(q[1..], wide);
      SelectTwice(q[1..], wide, narrow);
      assert wide(q[0]) ==> ([q[0]] + rest)[1..] == rest;
      assert [] + rest == rest;
    }
  }
}
