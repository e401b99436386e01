/** Sets of value hashes in the order a bitmap iterator yields them: ascending. */
module HashOrder {
  import opened Seqs

  type Hash = nat

  ghost function Least(s: set<Hash>): (m: Hash)
    requires s != {}
    ensures m in s && forall x :: x in s ==> m <= x
  {
    var z :| z in s;
    var rest := s - {z};
    assert s == rest + {z};
    if rest == {} then z
    else
      var m := Least(rest);
      if z < m then z else m
  }

  ghost function Ascending(s: set<Hash>): (q: seq<Hash>) {
    if s == {} then []
    else
      var m := Least(s);
      [m] + Ascending(s - {m})
  }

  lemma {:induction false} AscendingMembers(s: set<Hash>)
    ensures forall x :: x in Ascending(s) <==> x in s
  {
    if s != {} {
      var m := Least(s);
      AscendingMembers(s - {m});
      assert s == (s - {m}) + {m};
    }
  }

  /** The iteration order is strictly increasing, so it repeats no hash. */
  lemma {:induction false} AscendingIncreases(s: set<Hash>)
    ensures forall i, j :: 0 <= i < j < |Ascending(s)| ==> Ascending(s)[i] < Ascending(s)[j]
  {
    if s != {} {
      var m := Least(s);
      var rest := Ascending(s - {m});
      AscendingIncreases(s - {m});
      AscendingMembers(s - {m});
      forall j | 0 <= j < |rest|
        ensures m < rest[j]
      {
        assert rest[j] in rest;
      }
    }
  }

  ghost function Kept(s: set<Hash>, p: Hash -> bool): set<Hash> {
    set x | x in s && p(x)
  }

  lemma AscendingFromLeast(s: set<Hash>, m: Hash)
    requires m in s && forall x :: x in s ==> m <= x
    ensures Ascending(s) == [m] + Ascending(s - {m})
  {
    assert Least(s) == m;
  }

  /** Filtering the ascending order of a set is the ascending order of the filtered set. */
  lemma {:induction false} SelectAscending(s: set<Hash>, p: Hash -> bool)
    ensures Select(Ascending(s), p) == Ascending(Kept(s, p))
  {
    if s != {} {
      var m := Least(s);
      var rest := Ascending(s - {m});
      SelectAscending(s - {m}, p);
      assert Ascending(s) == [m] + rest;
      assert ([m] + rest)[1..] == rest;
      if p(m) {
        AscendingFromLeast(Kept(s, p), m);
        assert Kept(s, p) - {m} == Kept(s - {m}, p);
      } else {
        assert Kept(s, p) == Kept(s - {m}, p);
      }
    }
  }

  // ---- Sharded order

  function Residue(s: set<Hash>, n: nat, i: nat): set<Hash>
    requires n > 0
  {
    set x | x in s && x % n == i
  }

  /** The hashes of shards `from`..`n`: shard after shard, ascending in each. */
  ghost function ShardOrder(s: set<Hash>, n: nat, from: nat): (q: seq<Hash>)
    requires n > 0
    decreases n - from
  {
    if from >= n then [] else Ascending(Residue(s, n, from)) + ShardOrder(s, n, from + 1)
  }

  lemma {:induction false} ShardOrderMembers(s: set<Hash>, n: nat, from: nat)
    requires n > 0
    ensures forall x :: x in ShardOrder(s, n, from) <==> x in s && from <= x % n
    decreases n - from
  {
    if from < n {
      ShardOrderMembers(s, n, from + 1);
      AscendingMembers(Residue(s, n, from));
    }
  }

  /** Every stored hash appears in the sharded order exactly once. */
  lemma {:induction false} ShardOrderDistinct(s: set<Hash>, n: nat, from: nat)
    requires n > 0
    ensures forall i, j :: 0 <= i < j < |ShardOrder(s, n, from)| ==>
              ShardOrder(s, n, from)[i] != ShardOrder(s, n, from)[j]
    decreases n - from
  {
    if from < n {
      var a, b := Ascending(Residue(s, n, from)), ShardOrder(s, n, from + 1);
      ShardOrderDistinct(s, n, from + 1);
      ShardOrderMembers(s, n, from + 1);
      AscendingMembers(Residue(s, n, from));
      AscendingIncreases(Residue(s, n, from));
      hide Ascending, ShardOrder;
      ConcatDistinct(a, b);
    }
  }

  lemma ConcatDistinct(a: seq<Hash>, b: seq<Hash>)
    requires forall i, j :: 0 <= i < j < |a| ==> a[i] != a[j]
    requires forall i, j :: 0 <= i < j < |b| ==> b[i] != b[j]
    requires forall x :: x in a ==> x !in b
    ensures forall i, j :: 0 <= i < j < |a + b| ==> (a + b)[i] != (a + b)[j]
  {
    forall i, j | 0 <= i < j < |a + b|
      ensures (a + b)[i] != (a + b)[j]
    {
      if i < |a| && j >= |a| {
        assert a[i] in a && b[j - |a|] in b;
      }
    }
  }

  lemma {:induction false} SelectShardOrder(s: set<Hash>, n: nat, from: nat, p: Hash -> bool)
    requires n > 0
    ensures Select(ShardOrder(s, n, from), p) == ShardOrder(Kept(s, p), n, from)
    decreases n - from
  {
    if from < n {
      SelectShardOrder(s, n, from + 1, p);
      SelectConcat(Ascending(Residue(s, n, from)), ShardOrder(s, n, from + 1), p);
      SelectAscending(Residue(s, n, from), p);
      assert Kept(Residue(s, n, from), p) == Residue(Kept(s, p), n, from);
    }
  }
}
