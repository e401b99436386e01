/** One shard of the event matcher (`event-matcher/matcher.go`): values by hash, bitmaps by routing
    key, and a pool of spare bitmaps. */
module Matcher {
  import opened Nostr
  import opened FilterMatch
  import opened Routing
  import opened RoutingComplete
  import opened HashOrder
  import opened IndexAlgebra
  import opened Bitmaps

  const POOL_CAPACITY := 1024

  datatype Entry<V> = Entry(value: V, routingKeys: seq<IndexKey>)

  /** What the caller stored: a value and the filters it was stored with. */
  datatype Stored<V> = Stored(value: V, filters: seq<Filter>)

  /** The prefix of `rest` a consumer takes: it is handed everything it has been given so far, and the
      first time it answers false it gets nothing more. */
  function Taken<V>(consumer: seq<V> -> bool, before: seq<V>, rest: seq<V>): seq<V>
    decreases |rest|
  {
    if rest == [] then []
    else if consumer(before + [rest[0]]) then [rest[0]] + Taken(consumer, before + [rest[0]], rest[1..])
    else [rest[0]]
  }

  /** Whether the consumer is still willing after being handed all of `rest`. */
  predicate Willing<V>(consumer: seq<V> -> bool, before: seq<V>, rest: seq<V>)
    decreases |rest|
  {
    rest == [] || (consumer(before + [rest[0]]) && Willing(consumer, before + [rest[0]], rest[1..]))
  }

  /** A lookup stopped early yields a prefix of the full one, and all of it if it is never stopped. */
  lemma {:induction false} TakenIsPrefix<V>(consumer: seq<V> -> bool, before: seq<V>, rest: seq<V>)
    ensures Taken(consumer, before, rest) <= rest
    ensures Willing(consumer, before, rest) ==> Taken(consumer, before, rest) == rest
    decreases |rest|
  {
    if rest != [] && consumer(before + [rest[0]]) {
      TakenIsPrefix(consumer, before + [rest[0]], rest[1..]);
      assert rest == [rest[0]] + rest[1..];
    }
  }

  /** Consumption of a concatenation, shard by shard. */
  lemma {:induction false} TakenConcat<V>(consumer: seq<V> -> bool, before: seq<V>, a: seq<V>, b: seq<V>)
    ensures Taken(consumer, before, a + b) ==
            if Willing(consumer, before, a) then a + Taken(consumer, before + a, b) else Taken(consumer, before, a)
    ensures Willing(consumer, before, a + b) <==>
              Willing(consumer, before, a) && Willing(consumer, before + a, b)
    decreases |a|
  {
    if a == [] {
      assert a + b == b && before + a == before;
    } else {
      assert (a + b)[0] == a[0] && (a + b)[1..] == a[1..] + b;
      assert (before + [a[0]]) + a[1..] == before + a;
      TakenConcat(consumer, before + [a[0]], a[1..], b);
      assert a == [a[0]] + a[1..];
    }
  }

  /** The values stored under a list of hashes. */
  function ValuesOf<V>(store: map<Hash, Stored<V>>, hashes: seq<Hash>): seq<V> {
    if hashes == [] then []
    else (if hashes[0] in store then [store[hashes[0]].value] else []) + ValuesOf(store, hashes[1..])
  }

  lemma {:induction false} ValuesOfMembers<V>(store: map<Hash, Stored<V>>, hashes: seq<Hash>, v: V)
    ensures v in ValuesOf(store, hashes) <==> exists h :: h in hashes && h in store && store[h].value == v
  {
    if hashes != [] {
      ValuesOfMembers(store, hashes[1..], v);
      assert hashes == [hashes[0]] + hashes[1..];
    }
  }

  lemma {:induction false} ValuesConcat<V>(store: map<Hash, Stored<V>>, a: seq<Hash>, b: seq<Hash>)
    ensures ValuesOf(store, a + b) == ValuesOf(store, a) + ValuesOf(store, b)
  {
    if a == [] {
      assert a + b == b;
    } else {
      assert (a + b)[1..] == a[1..] + b;
      ValuesConcat(store, a[1..], b);
    }
  }

  /** The stored values whose keys the event hits. */
  ghost function Candidates<V>(store: map<Hash, Stored<V>>, e: Event): set<Hash> {
    set h | h in store && Hits(store[h].filters, e)
  }

  ghost function CandidateValues<V>(store: map<Hash, Stored<V>>, e: Event): seq<V> {
    ValuesOf(store, Ascending(Candidates(store, e)))
  }

  /** The values a lookup loads for a list of hashes: those still stored. */
  function Loaded<V>(values: map<Hash, Entry<V>>, order: seq<Hash>): seq<V> {
    if order == [] then []
    else (if order[0] in values then [values[order[0]].value] else []) + Loaded(values, order[1..])
  }

  lemma TakenStep<V>(consumer: seq<V> -> bool, before: seq<V>, v: V, rest: seq<V>)
    ensures Taken(consumer, before, [v] + rest) ==
            if consumer(before + [v]) then [v] + Taken(consumer, before + [v], rest) else [v]
    ensures Willing(consumer, before, [v] + rest) <==>
              consumer(before + [v]) && Willing(consumer, before + [v], rest)
  {
    assert ([v] + rest)[1..] == rest;
  }

  /** What is left to deliver, once the first of the listed hashes has been loaded. */
  lemma LoadStep<V>(values: map<Hash, Entry<V>>, consumer: seq<V> -> bool, before: seq<V>, out: seq<V>, order: seq<Hash>)
    requires order != []
    ensures order[0] !in values ==> Loaded(values, order) == Loaded(values, order[1..])
    ensures order[0] in values ==>
              var longer, rest := out + [values[order[0]].value], Loaded(values, order[1..]);
              && out + Taken(consumer, before + out, Loaded(values, order)) ==
                 (if consumer(before + longer) then longer + Taken(consumer, before + longer, rest) else longer)
              && (Willing(consumer, before + out, Loaded(values, order)) <==>
                  consumer(before + longer) && Willing(consumer, before + longer, rest))
  {
    if order[0] in values {
      var v, rest := values[order[0]].value, Loaded(values, order[1..]);
      TakenStep(consumer, before + out, v, rest);
      assert before + out + [v] == before + (out + [v]);
      hide Taken, Willing;
      var later := Taken(consumer, before + (out + [v]), rest);
      assert out + ([v] + later) == (out + [v]) + later;
    }
  }

  lemma NothingToLoad<V>(values: map<Hash, Entry<V>>, consumer: seq<V> -> bool, before: seq<V>)
    ensures Taken(consumer, before, Loaded(values, [])) == [] && Willing(consumer, before, Loaded(values, []))
  {
  }

  lemma {:induction false} AllLoaded<V>(values: map<Hash, Entry<V>>, filters: map<Hash, seq<Filter>>, order: seq<Hash>)
    requires filters.Keys == values.Keys
    ensures Loaded(values, order) == ValuesOf(StoreOf(values, filters), order)
  {
    if order != [] {
      AllLoaded(values, filters, order[1..]);
    }
  }

  function RoutesOf<V>(values: map<Hash, Entry<V>>): Routes {
    map h | h in values :: Members(values[h].routingKeys)
  }

  /** Every entry is under its own hash, routed by the filters it was stored with. */
  ghost predicate AllRecorded<V>(hashOf: V -> Hash, values: map<Hash, Entry<V>>, filters: map<Hash, seq<Filter>>) {
    && filters.Keys == values.Keys
    && forall h :: h in values ==>
         && hashOf(values[h].value) == h
         && forall k :: k in values[h].routingKeys <==> FiltersHaveKey(filters[h], k)
  }

  ghost function StoreOf<V>(values: map<Hash, Entry<V>>, filters: map<Hash, seq<Filter>>): map<Hash, Stored<V>>
    requires filters.Keys == values.Keys
  {
    map h | h in values :: Stored(values[h].value, filters[h])
  }

  lemma RecordEntry<V>(hashOf: V -> Hash, values: map<Hash, Entry<V>>, filters: map<Hash, seq<Filter>>,
                       entry: Entry<V>, rawFilters: seq<Filter>)
    requires AllRecorded(hashOf, values, filters)
    requires forall k :: k in entry.routingKeys <==> FiltersHaveKey(rawFilters, k)
    ensures var h := hashOf(entry.value);
            var values', filters' := values[h := entry], filters[h := rawFilters];
            && AllRecorded(hashOf, values', filters')
            && RoutesOf(values') == (RoutesOf(values) - {h})[h := Members(entry.routingKeys)]
            && StoreOf(values', filters') == StoreOf(values, filters)[h := Stored(entry.value, rawFilters)]
  {
  }

  class Matcher<V(==)> {
    const hashOf: V -> Hash
    const pool: Pool
    var values: map<Hash, Entry<V>>
    var indexes: map<IndexKey, Bitmap>
    ghost var filters: map<Hash, seq<Filter>>
    ghost var Repr: set<object>

    /** Ownership: stored bitmaps are pairwise distinct objects and never also pooled. */
    ghost predicate Owned()
      reads this, Repr
    {
      && this in Repr && pool in Repr && pool.Valid()
      && (forall b :: b in pool.ch ==> b in Repr)
      && (forall k :: k in indexes ==>
            indexes[k] in Repr && indexes[k] !in pool.ch)
      && (forall k, l :: k in indexes && l in indexes && k != l ==> indexes[k] != indexes[l])
    }

    ghost function Indexed(): Index
      reads this, Repr
      requires Owned()
    {
      map k | k in indexes :: indexes[k].bits
    }

    ghost function Routed(): Routes
      reads this
    {
      RoutesOf(values)
    }

    ghost predicate Recorded()
      reads this
    {
      AllRecorded(hashOf, values, filters)
    }

    /** A hash is in the bitmap of a key exactly when the key is among its entry's routing keys, and no
        stored bitmap is empty. */
    ghost predicate Valid()
      reads this, Repr
    {
      Owned() && Recorded() && Agrees(Indexed(), Routed())
    }

    ghost function Store(): map<Hash, Stored<V>>
      reads this
      requires Recorded()
    {
      StoreOf(values, filters)
    }

    constructor (hashOf: V -> Hash)
      ensures Valid() && fresh(Repr)
      ensures this.hashOf == hashOf && Store() == map[]
    {
      this.hashOf := hashOf;
      var p := new Pool(POOL_CAPACITY, true);
      pool := p;
      values, indexes, filters := map[], map[], map[];
      Repr := {this, p} + set b | b in p.ch;
    }

    /** An empty bitmap that nobody else holds. */
    method Borrow() returns (bm: Bitmap)
      requires Owned()
      modifies Repr
      ensures Owned() && fresh(Repr - old(Repr)) && bm in Repr && bm !in pool.ch && bm.bits == {}
      ensures forall k :: k in indexes ==> indexes[k] != bm
      ensures values == old(values) && filters == old(filters) && indexes == old(indexes)
      ensures Indexed() == old(Indexed())
    {
      bm := pool.Get();
      Repr := Repr + {bm};
    }

    method GiveBack(bm: Bitmap)
      requires Valid() && bm in Repr && bm !in pool.ch && forall k :: k in indexes ==> indexes[k] != bm
      modifies pool
      ensures Valid()
    {
      ghost var idx := Indexed();
      pool.Put(bm);
      assert Indexed() == idx;
    }

    /** A new key, with a borrowed bitmap. */
    method InstallKey(k: IndexKey)
      requires Owned() && k !in indexes
      modifies Repr
      ensures Owned() && fresh(Repr - old(Repr))
      ensures Indexed() == old(Indexed())[k := {}] && k in indexes && indexes[k] in Repr
      ensures values == old(values) && filters == old(filters)
    {
      var bm := Borrow();
      indexes := indexes[k := bm];
    }

    method SetBit(h: Hash, k: IndexKey)
      requires Owned() && k in indexes
      modifies indexes[k]
      ensures Owned() && Indexed() == old(Indexed())[k := old(Indexed())[k] + {h}]
    {
      indexes[k].Add(h);
    }

    /** One key of `Index`'s locked loop. */
    method AddKey(h: Hash, k: IndexKey)
      requires Owned()
      modifies Repr
      ensures Owned() && fresh(Repr - old(Repr))
      ensures Indexed() == With(old(Indexed()), h, k)
      ensures values == old(values) && filters == old(filters)
    {
      if k !in indexes {
        InstallKey(k);
      }
      SetBit(h, k);
    }

    method ClearBit(h: Hash, k: IndexKey)
      requires Owned() && k in indexes
      modifies indexes[k]
      ensures Owned() && Indexed() == old(Indexed())[k := old(Indexed())[k] - {h}]
    {
      indexes[k].Remove(h);
    }

    /** Forgets a key and offers its bitmap to the pool. */
    method DropKey(k: IndexKey)
      requires Owned() && k in indexes
      modifies this`indexes, pool
      ensures Owned() && Indexed() == old(Indexed()) - {k}
    {
      var bm := indexes[k];
      indexes := indexes - {k};
      pool.Put(bm);
    }

    /** One key of `removeEntry`'s locked loop: an emptied bitmap goes back to the pool. */
    method RemoveKey(h: Hash, k: IndexKey)
      requires Owned()
      modifies Repr
      ensures Owned() && Repr == old(Repr)
      ensures Indexed() == Without(old(Indexed()), h, k)
      ensures values == old(values) && filters == old(filters)
    {
      if k in indexes {
        ClearBit(h, k);
        if indexes[k].bits == {} {
          DropKey(k);
        }
      }
    }

    method AddEntry(h: Hash, keys: seq<IndexKey>)
      requires Owned()
      modifies Repr
      ensures Owned() && fresh(Repr - old(Repr))
      ensures Indexed() == WithAll(old(Indexed()), h, keys)
      ensures values == old(values) && filters == old(filters)
    {
      ghost var before := Indexed();
      for i := 0 to |keys|
        invariant Owned() && fresh(Repr - old(Repr))
        invariant Indexed() == WithAll(before, h, keys[..i])
        invariant values == old(values) && filters == old(filters)
      {
        assert keys[..i + 1][..i] == keys[..i];
        AddKey(h, keys[i]);
      }
      assert keys[..|keys|] == keys;
    }

    method RemoveEntry(h: Hash, keys: seq<IndexKey>)
      requires Owned()
      modifies Repr
      ensures Owned() && Repr == old(Repr)
      ensures Indexed() == WithoutAll(old(Indexed()), h, keys)
      ensures values == old(values) && filters == old(filters)
    {
      ghost var before := Indexed();
      for i := 0 to |keys|
        invariant Owned() && Repr == old(Repr)
        invariant Indexed() == WithoutAll(before, h, keys[..i])
        invariant values == old(values) && filters == old(filters)
      {
        assert keys[..i + 1][..i] == keys[..i];
        RemoveKey(h, keys[i]);
      }
      assert keys[..|keys|] == keys;
    }

    /** `LoadAndStore` followed by the removal of the replaced entry's bindings. */
    method Replace(h: Hash, entry: Entry<V>, rawFilters: seq<Filter>)
      requires Owned() && Agrees(Indexed(), Routed())
      modifies Repr
      ensures Owned() && Repr == old(Repr)
      ensures values == old(values)[h := entry] && filters == old(filters)[h := rawFilters]
      ensures Agrees(Indexed(), old(Routed()) - {h})
    {
      ghost var idx, routes := Indexed(), Routed();
      var loaded := h in values;
      var oldKeys := if loaded then values[h].routingKeys else [];
      values, filters := values[h := entry], filters[h := rawFilters];
      assert Indexed() == idx;
      if loaded {
        RemoveEntry(h, oldKeys);
        RemovalAgrees(idx, routes, h, oldKeys);
      } else {
        assert routes - {h} == routes;
      }
    }

    /** Stores a value, replacing the one with the same hash. */
    method Index(rawFilters: seq<Filter>, v: V)
      requires Valid()
      modifies Repr
      ensures Valid() && fresh(Repr - old(Repr))
      ensures Store() == old(Store())[hashOf(v) := Stored(v, rawFilters)]
    {
      var h := hashOf(v);
      var keys := ParseFilters(rawFilters);
      ghost var routes := Routed() - {h};
      RecordEntry(hashOf, values, filters, Entry(v, keys), rawFilters);
      Replace(h, Entry(v, keys), rawFilters);
      InsertionAgrees(Indexed(), routes, h, keys);
      AddEntry(h, keys);
    }

    method RemoveByHash(h: Hash) returns (removed: seq<V>)
      requires Valid()
      modifies Repr
      ensures Valid() && Repr == old(Repr)
      ensures Store() == old(Store()) - {h}
      ensures removed == if h in old(Store()) then [old(Store())[h].value] else []
    {
      if h !in values {
        return [];
      }
      ghost var idx, routes := Indexed(), Routed();
      var entry := values[h];
      values, filters := values - {h}, filters - {h};
      assert Indexed() == idx;
      RemoveEntry(h, entry.routingKeys);
      RemovalAgrees(idx, routes, h, entry.routingKeys);
      assert Routed() == routes - {h};
      return [entry.value];
    }

    method Size() returns (n: nat)
      requires Valid()
      ensures n == |Store()|
    {
      n := |values|;
      assert values.Keys == Store().Keys;
      assert |values| == |values.Keys| && |Store()| == |Store().Keys|;
    }

    lemma CandidateExactly(keys: seq<IndexKey>, idx: Index, e: Event, h: Hash)
      requires Recorded() && Agrees(idx, Routed())
      requires forall k :: k in keys <==> EventHasKey(e, k)
      ensures (exists j :: 0 <= j < |keys| && Under(idx, keys[j], h)) <==> h in Candidates(Store(), e)
    {
      if j :| 0 <= j < |keys| && Under(idx, keys[j], h) {
        assert keys[j] in values[h].routingKeys;
        assert FiltersHaveKey(filters[h], keys[j]) && EventHasKey(e, keys[j]);
      }
      if h in Candidates(Store(), e) {
        var k :| FiltersHaveKey(filters[h], k) && EventHasKey(e, k);
        var j :| 0 <= j < |keys| && keys[j] == k;
        assert k in Members(values[h].routingKeys);
        assert Under(idx, keys[j], h);
      }
    }

    /** The union of the bitmaps of the event's keys: the hashes of exactly the candidates. */
    method Collect(e: Event, result: Bitmap)
      requires Valid() && result.bits == {}
      requires forall k :: k in indexes ==> indexes[k] != result
      requires result !in pool.ch
      modifies result
      ensures Valid()
      ensures result.bits == Candidates(Store(), e)
    {
      var keys := ParseEvent(e);
      ghost var idx := Indexed();
      for i := 0 to |keys|
        invariant Owned() && Indexed() == idx
        invariant forall h :: h in result.bits <==> exists j :: 0 <= j < i && Under(idx, keys[j], h)
      {
        if keys[i] in indexes && indexes[keys[i]].bits != {} {
          assert indexes[keys[i]].bits == idx[keys[i]];
          result.Or(indexes[keys[i]]);
          assert forall k :: k in indexes ==> indexes[k].bits == idx[k];
        }
      }
      forall h
        ensures h in result.bits <==> h in Candidates(Store(), e)
      {
        CandidateExactly(keys, idx, e, h);
      }
    }

    /** Hands the listed values to the consumer until it declines one; hashes no longer stored are skipped. */
    method Deliver(order: seq<Hash>, consumer: seq<V> -> bool, before: seq<V>) returns (out: seq<V>, more: bool)
      ensures out == Taken(consumer, before, Loaded(values, order))
      ensures more == Willing(consumer, before, Loaded(values, order))
    {
      hide Taken, Willing, Loaded;
      out := [];
      var rest := order;
      ghost var taken, willing :=
        Taken(consumer, before, Loaded(values, order)), Willing(consumer, before, Loaded(values, order));
      assert before + [] == before;
      while rest != []
        invariant taken == out + Taken(consumer, before + out, Loaded(values, rest))
        invariant willing == Willing(consumer, before + out, Loaded(values, rest))
        decreases |rest|
      {
        var h := rest[0];
        LoadStep(values, consumer, before, out, rest);
        if h in values {
          out := out + [values[h].value];
          if !consumer(before + out) {
            return out, false;
          }
        }
        rest := rest[1..];
      }
      NothingToLoad(values, consumer, before + out);
      return out, true;
    }

    /** A borrowed bitmap holding exactly the candidates. */
    method Snapshot(e: Event) returns (result: Bitmap)
      requires Valid()
      modifies Repr
      ensures Valid() && fresh(Repr - old(Repr)) && Store() == old(Store())
      ensures result in Repr && result !in pool.ch && forall k :: k in indexes ==> indexes[k] != result
      ensures result.bits == Candidates(Store(), e)
    {
      result := Borrow();
      Collect(e, result);
    }

    /** Hands the candidates to the consumer in ascending order of hash until it declines one. */
    method Lookup(e: Event, consumer: seq<V> -> bool, before: seq<V>) returns (out: seq<V>, more: bool)
      requires Valid()
      modifies Repr
      ensures Valid() && fresh(Repr - old(Repr)) && Store() == old(Store())
      ensures out == Taken(consumer, before, CandidateValues(Store(), e))
      ensures more == Willing(consumer, before, CandidateValues(Store(), e))
    {
      var result := Snapshot(e);
      var order := result.Iterate();
      AllLoaded(values, filters, order);
      out, more := Deliver(order, consumer, before);
      GiveBack(result);
    }
  }
}
