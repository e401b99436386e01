/** The sharded storage (`event-matcher/storage.go`) and its use by the live and the push path: an
    index lookup re-checked by the exact match is a linear scan. */
module Storage {
  import opened Nostr
  import opened FilterMatch
  import opened Routing
  import opened RoutingComplete
  import opened HashOrder
  import opened Seqs
  import opened Matcher

  // ---- Stores as values

  ghost predicate MatchesStored<V(!new)>(store: map<Hash, Stored<V>>, e: Event, user: User, h: Hash) {
    h in store && FiltersMatch(store[h].filters, e, user)
  }

  ghost function MatchTest<V(!new)>(store: map<Hash, Stored<V>>, e: Event, user: User): Hash -> bool {
    (h: Hash) => MatchesStored(store, e, user, h)
  }

  /** A linear scan: the hashes whose filters match, in the storage's order. */
  ghost function Scan<V(!new)>(store: map<Hash, Stored<V>>, e: Event, user: User, n: nat): seq<Hash>
    requires n > 0
  {
    Select(ShardOrder(store.Keys, n, 0), MatchTest(store, e, user))
  }

  ghost predicate StoreCovered<V(!new)>(store: map<Hash, Stored<V>>, user: User) {
    forall h :: h in store ==> AllCovered(store[h].filters, user)
  }

  /** The index refines the scan: the candidates that pass the exact match are, in order and each once,
      the stored values whose filters match. */
  lemma IndexRefinesScan<V(!new)>(store: map<Hash, Stored<V>>, e: Event, user: User, n: nat)
    requires n > 0 && PlainKind(e.kind) && StoreCovered(store, user)
    ensures Select(ShardOrder(Candidates(store, e), n, 0), MatchTest(store, e, user)) ==
            Scan(store, e, user, n)
  {
    var p := MatchTest(store, e, user);
    SelectShardOrder(Candidates(store, e), n, 0, p);
    SelectShardOrder(store.Keys, n, 0, p);
    forall h | h in Kept(store.Keys, p)
      ensures h in Candidates(store, e)
    {
      RoutingLosesNothing(store[h].filters, e, user);
    }
    assert Kept(Candidates(store, e), p) == Kept(store.Keys, p);
  }

  /** The scan yields every matching value exactly once and nothing else. */
  lemma ScanIsExact<V(!new)>(store: map<Hash, Stored<V>>, e: Event, user: User, n: nat)
    requires n > 0
    ensures forall h :: h in Scan(store, e, user, n) <==> MatchesStored(store, e, user, h)
    ensures Distinct(Scan(store, e, user, n))
  {
    var p := MatchTest(store, e, user);
    SelectShardOrder(store.Keys, n, 0, p);
    ShardOrderDistinct(Kept(store.Keys, p), n, 0);
    ShardOrderMembers(Kept(store.Keys, p), n, 0);
  }

  // ---- The storage itself

  /** The values that shards `from`..`n` offer a lookup. */
  ghost function Offered<V>(store: map<Hash, Stored<V>>, e: Event, n: nat, from: nat): seq<V>
    requires n > 0
  {
    ValuesOf(store, ShardOrder(Candidates(store, e), n, from))
  }

  lemma {:induction false} AlwaysWilling<V>(consumer: seq<V> -> bool, before: seq<V>, rest: seq<V>)
    requires forall s :: consumer(s)
    ensures Willing(consumer, before, rest)
    decreases |rest|
  {
    if rest != [] {
      AlwaysWilling(consumer, before + [rest[0]], rest[1..]);
    }
  }

  /** One shard's turn: what the consumer takes of it, and of the rest if it is still willing. */
  lemma TakenTurn<V>(consumer: seq<V> -> bool, out: seq<V>, turn: seq<V>, rest: seq<V>)
    ensures var some := Taken(consumer, out, turn);
            out + Taken(consumer, out, turn + rest) ==
            if Willing(consumer, out, turn) then (out + some) + Taken(consumer, out + some, rest) else out + some
  {
    TakenConcat(consumer, out, turn, rest);
    TakenIsPrefix(consumer, out, turn);
  }

  /** The part of a store that the first `upTo` shards hold. */
  ghost function Below<V>(store: map<Hash, Stored<V>>, n: nat, upTo: nat): map<Hash, Stored<V>>
    requires n > 0
  {
    map h | h in store && h % n < upTo :: store[h]
  }

  lemma BelowStep<V>(store: map<Hash, Stored<V>>, n: nat, i: nat)
    requires n > 0
    ensures |Below(store, n, i + 1)| == |Below(store, n, i)| + |Shard(store, n, i)|
  {
    var a, b := Below(store, n, i).Keys, Shard(store, n, i).Keys;
    assert Below(store, n, i + 1).Keys == a + b && a !! b;
    assert |a + b| == |a| + |b|;
  }

  /** The part of a store that shard `i` holds. */
  ghost function Shard<V>(store: map<Hash, Stored<V>>, n: nat, i: nat): map<Hash, Stored<V>>
    requires n > 0
  {
    map h | h in store && h % n == i :: store[h]
  }

  lemma {:induction false} ValuesOfShard<V>(store: map<Hash, Stored<V>>, n: nat, i: nat, hashes: seq<Hash>)
    requires n > 0 && forall h :: h in hashes ==> h % n == i
    ensures ValuesOf(Shard(store, n, i), hashes) == ValuesOf(store, hashes)
  {
    if hashes != [] {
      assert hashes[0] in hashes && forall h :: h in hashes[1..] ==> h in hashes;
      ValuesOfShard(store, n, i, hashes[1..]);
    }
  }

  lemma OfferedByShard<V>(store: map<Hash, Stored<V>>, e: Event, n: nat, i: nat)
    requires i < n
    ensures Offered(store, e, n, i) == CandidateValues(Shard(store, n, i), e) + Offered(store, e, n, i + 1)
  {
    var cands := Candidates(store, e);
    var turn := Ascending(Residue(cands, n, i));
    AscendingMembers(Residue(cands, n, i));
    assert Candidates(Shard(store, n, i), e) == Residue(cands, n, i);
    ValuesOfShard(store, n, i, turn);
    ValuesConcat(store, turn, ShardOrder(cands, n, i + 1));
  }

  function ValueTest<V(!new)>(filtersOf: V -> seq<Filter>, e: Event, user: User): V -> bool {
    (v: V) => FiltersMatch(filtersOf(v), e, user)
  }

  /** Testing values by their own filters is testing their hashes by the stored ones. */
  lemma {:induction false} SelectValues<V(!new)>(
    store: map<Hash, Stored<V>>, filtersOf: V -> seq<Filter>, e: Event, user: User, hashes: seq<Hash>)
    requires forall h :: h in store ==> filtersOf(store[h].value) == store[h].filters
    ensures Select(ValuesOf(store, hashes), ValueTest(filtersOf, e, user)) ==
            ValuesOf(store, Select(hashes, MatchTest(store, e, user)))
  {
    if hashes != [] {
      var h, rest := hashes[0], hashes[1..];
      SelectValues(store, filtersOf, e, user, rest);
      var head := if h in store then [store[h].value] else [];
      SelectConcat(head, ValuesOf(store, rest), ValueTest(filtersOf, e, user));
      var chosen := Select(rest, MatchTest(store, e, user));
      if MatchesStored(store, e, user, h) {
        assert ([h] + chosen)[1..] == chosen;
      } else {
        assert [] + chosen == chosen;
      }
    }
  }

  lemma ReshardUpdate<V>(store: map<Hash, Stored<V>>, n: nat, h: Hash, stored: Stored<V>)
    requires n > 0
    ensures forall i :: 0 <= i < n ==>
              Shard(store[h := stored], n, i) ==
              if h % n == i then Shard(store, n, i)[h := stored] else Shard(store, n, i)
  {
  }

  lemma ReshardRemove<V>(store: map<Hash, Stored<V>>, n: nat, h: Hash)
    requires n > 0
    ensures forall i :: 0 <= i < n ==>
              Shard(store - {h}, n, i) ==
              if h % n == i then Shard(store, n, i) - {h} else Shard(store, n, i)
  {
  }

  class MatcherStorage<V(==,!new)> {
    const hashOf: V -> Hash
    const shards: seq<Matcher<V>>
    ghost var store: map<Hash, Stored<V>>
    ghost var Repr: set<object>

    ghost predicate ShardValid(i: nat)
      requires i < |shards|
      reads this, Repr
    {
      && shards[i] in Repr && shards[i].Repr <= Repr && this !in shards[i].Repr
      && shards[i].Valid() && shards[i].hashOf == hashOf
      && shards[i].Store() == Shard(store, |shards|, i)
    }

    ghost predicate Disjoint()
      reads this, Repr
    {
      && (forall i :: 0 <= i < |shards| ==> shards[i] in Repr)
      && forall i, j :: 0 <= i < |shards| && 0 <= j < |shards| && i != j ==>
           shards[i] != shards[j] && shards[i].Repr !! shards[j].Repr
    }

    /** Shards own disjoint objects and hold exactly the values whose hash falls to them. */
    ghost predicate Valid()
      reads this, Repr
    {
      && this in Repr && |shards| > 0 && Disjoint()
      && forall i :: 0 <= i < |shards| ==> ShardValid(i)
    }

    constructor (hashOf: V -> Hash, numShards: nat, cpus: nat)
      requires cpus > 0
      ensures Valid() && fresh(Repr) && store == map[]
      ensures this.hashOf == hashOf
      ensures |shards| == if numShards == 0 then (if cpus < 4 then cpus else 4) else numShards
    {
      this.hashOf := hashOf;
      var n := if numShards == 0 then (if cpus < 4 then cpus else 4) else numShards;
      var all: seq<Matcher<V>> := [];
      ghost var repr: set<object> := {};
      for i := 0 to n
        invariant |all| == i && fresh(repr)
        invariant forall j :: 0 <= j < i ==>
                    && all[j] in repr && all[j].Repr <= repr && all[j] in all[j].Repr
                    && all[j].Valid() && all[j].hashOf == hashOf && all[j].Store() == map[]
        invariant forall j, k :: 0 <= j < i && 0 <= k < i && j != k ==> all[j] != all[k] && all[j].Repr !! all[k].Repr
      {
        var m := new Matcher<V>(hashOf);
        all, repr := all + [m], repr + m.Repr;
      }
      shards := all;
      store := map[];
      Repr := repr + {this};
      new;
    }

    lemma ApartFrom(s: nat)
      requires Valid() && s < |shards|
      ensures ShardValid(s)
      ensures forall i :: 0 <= i < |shards| && i != s ==>
                shards[i] !in shards[s].Repr && shards[i].Repr !! shards[s].Repr
    {
      forall i | 0 <= i < |shards| && i != s
        ensures shards[i] !in shards[s].Repr
      {
        assert ShardValid(i);
        assert shards[i] in shards[i].Repr;
      }
    }

    /** What changes only inside shard `s` leaves every other shard as it was. */
    twostate lemma OthersUntouched(s: nat)
      requires old(Valid()) && s < |shards|
      requires unchanged(this)
      requires forall i :: 0 <= i < |shards| && i != s ==>
                 unchanged(shards[i]) && forall o :: o in old(shards[i].Repr) ==> unchanged(o)
      ensures forall i :: 0 <= i < |shards| && i != s ==> ShardValid(i)
    {
      forall i | 0 <= i < |shards| && i != s
        ensures ShardValid(i)
      {
        assert old(ShardValid(i));
      }
    }

    /** Re-establishes the invariant once shard `s` alone has moved on to its part of `after`. */
    ghost method Commit(s: nat, after: map<Hash, Stored<V>>)
      requires s < |shards| && this in Repr && Disjoint()
      requires forall i :: 0 <= i < |shards| && i != s ==>
                 ShardValid(i) && Shard(after, |shards|, i) == Shard(store, |shards|, i)
      requires this !in shards[s].Repr && shards[s].Valid() && shards[s].hashOf == hashOf
      requires shards[s].Store() == Shard(after, |shards|, s)
      modifies this`Repr, this`store
      ensures Valid() && Repr == old(Repr) + shards[s].Repr && store == after
    {
      label Before:
      Repr := Repr + shards[s].Repr;
      store := after;
      forall i | 0 <= i < |shards| && i != s
        ensures ShardValid(i)
      {
        assert old@Before(ShardValid(i));
      }
    }

    method Index(rawFilters: seq<Filter>, v: V)
      requires Valid()
      modifies Repr
      ensures Valid() && fresh(Repr - old(Repr))
      ensures store == old(store)[hashOf(v) := Stored(v, rawFilters)]
    {
      var s := hashOf(v) % |shards|;
      ApartFrom(s);
      shards[s].Index(rawFilters, v);
      OthersUntouched(s);
      ReshardUpdate(store, |shards|, hashOf(v), Stored(v, rawFilters));
      Commit(s, store[hashOf(v) := Stored(v, rawFilters)]);
    }

    method RemoveByHash(h: Hash) returns (removed: seq<V>)
      requires Valid()
      modifies Repr
      ensures Valid() && fresh(Repr - old(Repr))
      ensures store == old(store) - {h}
      ensures removed == if h in old(store) then [old(store)[h].value] else []
    {
      var s := h % |shards|;
      ApartFrom(s);
      removed := shards[s].RemoveByHash(h);
      OthersUntouched(s);
      ReshardRemove(store, |shards|, h);
      Commit(s, store - {h});
    }

    method Remove(v: V) returns (removed: bool)
      requires Valid()
      modifies Repr
      ensures Valid() && fresh(Repr - old(Repr))
      ensures store == old(store) - {hashOf(v)}
      ensures removed <==> hashOf(v) in old(store)
    {
      var gone := RemoveByHash(hashOf(v));
      removed := gone != [];
    }

    method Size() returns (size: nat)
      requires Valid()
      ensures size == |store|
    {
      size := 0;
      for i := 0 to |shards|
        invariant size == |Below(store, |shards|, i)|
      {
        var one := ShardSize(i);
        BelowStep(store, |shards|, i);
        size := size + one;
      }
      assert Below(store, |shards|, |shards|) == store;
    }

    method ShardSize(i: nat) returns (size: nat)
      requires Valid() && i < |shards|
      ensures size == |Shard(store, |shards|, i)|
    {
      assert ShardValid(i);
      size := shards[i].Size();
    }

    /** One shard's turn in a lookup. */
    method LookupShard(i: nat, e: Event, consumer: seq<V> -> bool, before: seq<V>) returns (out: seq<V>, more: bool)
      requires Valid() && i < |shards|
      modifies Repr
      ensures Valid() && fresh(Repr - old(Repr)) && store == old(store)
      ensures var offered := CandidateValues(Shard(store, |shards|, i), e);
              out == Taken(consumer, before, offered) && more == Willing(consumer, before, offered)
    {
      ApartFrom(i);
      out, more := shards[i].Lookup(e, consumer, before);
      OthersUntouched(i);
      Commit(i, store);
    }

    /** Extends what has been handed out so far by shard `i`'s turn. */
    method Turn(i: nat, e: Event, consumer: seq<V> -> bool, sofar: seq<V>, ghost taken: seq<V>)
      returns (out: seq<V>, more: bool)
      requires Valid() && i < |shards|
      requires taken == sofar + Taken(consumer, sofar, Offered(store, e, |shards|, i))
      modifies Repr
      ensures Valid() && fresh(Repr - old(Repr)) && store == old(store)
      ensures taken == if more then out + Taken(consumer, out, Offered(store, e, |shards|, i + 1)) else out
    {
      OfferedByShard(store, e, |shards|, i);
      TakenTurn(consumer, sofar, CandidateValues(Shard(store, |shards|, i), e), Offered(store, e, |shards|, i + 1));
      out, more := LookupShard(i, e, consumer, sofar);
      out := sofar + out;
    }

    /** Shard after shard, until the consumer declines a value. */
    method Lookup(e: Event, consumer: seq<V> -> bool) returns (out: seq<V>)
      requires Valid()
      modifies Repr
      ensures Valid() && fresh(Repr - old(Repr)) && store == old(store)
      ensures out == Taken(consumer, [], Offered(store, e, |shards|, 0))
    {
      out := [];
      ghost var taken := Taken(consumer, [], Offered(store, e, |shards|, 0));
      for i := 0 to |shards|
        invariant Valid() && fresh(Repr - old(Repr)) && store == old(store)
        invariant taken == out + Taken(consumer, out, Offered(store, e, |shards|, i))
      {
        var more;
        out, more := Turn(i, e, consumer, out, taken);
        if !more {
          return;
        }
      }
    }

    /** A lookup whose every value is re-checked by the exact match, as the broadcast loop and the
        device collector do it: a linear scan of everything stored, if routing loses nothing. */
    method LookupMatching(e: Event, user: User, filtersOf: V -> seq<Filter>) returns (found: seq<V>)
      requires Valid()
      requires forall h :: h in store ==> filtersOf(store[h].value) == store[h].filters
      modifies Repr
      ensures Valid() && fresh(Repr - old(Repr)) && store == old(store)
      ensures found == ValuesOf(store, Select(ShardOrder(Candidates(store, e), |shards|, 0), MatchTest(store, e, user)))
      ensures PlainKind(e.kind) && StoreCovered(store, user) ==>
                found == ValuesOf(store, Scan(store, e, user, |shards|))
    {
      ghost var offered := Offered(store, e, |shards|, 0);
      var consumer := (s: seq<V>) => true;
      AlwaysWilling(consumer, [], offered);
      TakenIsPrefix(consumer, [], offered);
      SelectValues(store, filtersOf, e, user, ShardOrder(Candidates(store, e), |shards|, 0));
      if PlainKind(e.kind) && StoreCovered(store, user) {
        IndexRefinesScan(store, e, user, |shards|);
      }
      var all := Lookup(e, consumer);
      found := Recheck(all, e, user, filtersOf);
    }

    static method Recheck(all: seq<V>, e: Event, user: User, filtersOf: V -> seq<Filter>) returns (found: seq<V>)
      ensures found == Select(all, ValueTest(filtersOf, e, user))
    {
      found := [];
      for i := 0 to |all|
        invariant found == Select(all[..i], ValueTest(filtersOf, e, user))
      {
        SelectConcat(all[..i], [all[i]], ValueTest(filtersOf, e, user));
        assert all[..i + 1] == all[..i] + [all[i]];
        var matched := FiltersMatchLoop(filtersOf(all[i]), e, user);
        if matched {
          found := found + [all[i]];
        }
      }
      assert all[..|all|] == all;
    }
  }

  // ---- Runs

  datatype Op<V> = IndexOp(rawFilters: seq<Filter>, value: V) | RemoveOp(hash: Hash)

  function Touched<V>(hashOf: V -> Hash, op: Op<V>): Hash {
    match op
    case IndexOp(_, v) => hashOf(v)
    case RemoveOp(h) => h
  }

  function After<V>(hashOf: V -> Hash, ops: seq<Op<V>>): map<Hash, Stored<V>> {
    if ops == [] then map[]
    else
      var store := After(hashOf, ops[..|ops| - 1]);
      match ops[|ops| - 1]
      case IndexOp(filters, v) => store[hashOf(v) := Stored(v, filters)]
      case RemoveOp(h) => store - {h}
  }

  /** After a run a hash holds what the last operation on it stored, and nothing if that was a removal. */
  lemma {:induction false} AfterIsLast<V>(hashOf: V -> Hash, ops: seq<Op<V>>, h: Hash)
    ensures h in After(hashOf, ops) <==>
              exists i :: 0 <= i < |ops| && Touched(hashOf, ops[i]) == h && ops[i].IndexOp? &&
                          forall j :: i < j < |ops| ==> Touched(hashOf, ops[j]) != h
    ensures forall i :: 0 <= i < |ops| && Touched(hashOf, ops[i]) == h && ops[i].IndexOp? &&
                        (forall j :: i < j < |ops| ==> Touched(hashOf, ops[j]) != h) ==>
              h in After(hashOf, ops) && After(hashOf, ops)[h] == Stored(ops[i].value, ops[i].rawFilters)
  {
    if ops != [] {
      var init, last := ops[..|ops| - 1], ops[|ops| - 1];
      AfterIsLast(hashOf, init, h);
      if Touched(hashOf, last) != h && h in After(hashOf, init) {
        var i :| 0 <= i < |init| && Touched(hashOf, init[i]) == h && init[i].IndexOp? &&
                 forall j :: i < j < |init| ==> Touched(hashOf, init[j]) != h;
        assert Touched(hashOf, ops[i]) == h;
      }
      forall i | 0 <= i < |ops| && Touched(hashOf, ops[i]) == h && ops[i].IndexOp? &&
                 (forall j :: i < j < |ops| ==> Touched(hashOf, ops[j]) != h)
        ensures h in After(hashOf, ops) && After(hashOf, ops)[h] == Stored(ops[i].value, ops[i].rawFilters)
      {
        if i < |init| {
          assert init[i] == ops[i];
          assert Touched(hashOf, ops[|init|]) != h;
          assert forall j :: i < j < |init| ==> Touched(hashOf, init[j]) == Touched(hashOf, ops[j]);
        }
      }
    }
  }

  /** Every run of the storage reaches a valid state with the store the run describes. */
  method Replay<V(==,!new)>(hashOf: V -> Hash, numShards: nat, cpus: nat, ops: seq<Op<V>>)
    returns (storage: MatcherStorage<V>)
    requires cpus > 0
    ensures fresh(storage) && storage.Valid() && storage.hashOf == hashOf
    ensures storage.store == After(hashOf, ops)
  {
    storage := new MatcherStorage<V>(hashOf, numShards, cpus);
    for i := 0 to |ops|
      invariant fresh(storage) && fresh(storage.Repr) && storage.Valid() && storage.hashOf == hashOf
      invariant storage.store == After(hashOf, ops[..i])
    {
      assert ops[..i + 1][..i] == ops[..i];
      match ops[i]
      case IndexOp(filters, v) =>
        storage.Index(filters, v);
      case RemoveOp(h) =>
        var removed := storage.RemoveByHash(h);
    }
    assert ops[..|ops|] == ops;
  }
}
