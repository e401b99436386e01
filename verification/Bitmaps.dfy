/** Bitmaps of value hashes and the bounded pool that recycles them (`pool/pool.go`, and the pool's
    use in `event-matcher/matcher.go`). */
module Bitmaps {
  import opened HashOrder

  /** Stands for a `roaring64.Bitmap`. */
  class Bitmap {
    var bits: set<Hash>

    constructor ()
      ensures bits == {}
    {
      bits := {};
    }

    method Add(h: Hash)
      modifies this
      ensures bits == old(bits) + {h}
    {
      bits := bits + {h};
    }

    method Remove(h: Hash)
      modifies this
      ensures bits == old(bits) - {h}
    {
      bits := bits - {h};
    }

    method Or(other: Bitmap)
      modifies this
      ensures bits == old(bits) + old(other.bits)
    {
      bits := bits + other.bits;
    }

    method Clear()
      modifies this
      ensures bits == {}
    {
      bits := {};
    }

    /** The iterator: every hash once, in ascending order. */
    method Iterate() returns (order: seq<Hash>)
      ensures order == Ascending(bits)
    {
      order := [];
      var rest := bits;
      assert [] + Ascending(rest) == Ascending(bits);
      while rest != {}
        invariant order + Ascending(rest) == Ascending(bits)
      {
        LeastExists(rest);
        var m :| m in rest && forall x :: x in rest ==> m <= x;
        assert Least(rest) == m;
        assert order + Ascending(rest) == (order + [m]) + Ascending(rest - {m});
        order, rest := order + [m], rest - {m};
      }
    }
  }

  lemma LeastExists(s: set<Hash>)
    requires s != {}
    ensures exists m :: m in s && forall x :: x in s ==> m <= x
  {
    assert Least(s) in s;
  }

  /** A channel of at most `capacity` bitmaps that nobody else holds. */
  class Pool {
    const capacity: nat
    var ch: seq<Bitmap>

    ghost predicate Valid()
      reads this
    {
      && |ch| <= capacity
      && forall i, j :: 0 <= i < j < |ch| ==> ch[i] != ch[j]
    }

    constructor (capacity: nat, preFill: bool)
      ensures Valid() && this.capacity == capacity
      ensures forall b :: b in ch ==> fresh(b)
      ensures |ch| == if preFill then capacity else 0
    {
      this.capacity := capacity;
      ch := [];
      new;
      if preFill {
        for i := 0 to capacity
          invariant |ch| == i
          invariant Valid()
          invariant forall b :: b in ch ==> fresh(b)
        {
          var b := new Bitmap();
          ch := ch + [b];
        }
      }
    }

    /** A recycled bitmap, or a new one if none is left: empty either way, and no longer pooled. */
    method Get() returns (b: Bitmap)
      requires Valid()
      modifies this, if ch == [] then {} else {ch[0]}
      ensures Valid()
      ensures b.bits == {} && b !in ch
      ensures if old(ch) == [] then fresh(b) && ch == [] else b == old(ch[0]) && ch == old(ch[1..])
    {
      if |ch| > 0 {
        b, ch := ch[0], ch[1..];
      } else {
        b := new Bitmap();
      }
      b.Clear();
    }

    /** Takes the bitmap back if there is room and drops it otherwise. */
    method Put(b: Bitmap)
      requires Valid() && b !in ch
      modifies this
      ensures Valid()
      ensures ch == if |old(ch)| < capacity then old(ch) + [b] else old(ch)
    {
      if |ch| < capacity {
        ch := ch + [b];
      }
    }
  }
}
