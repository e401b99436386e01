/** The matcher under concurrency: `Index`, `RemoveByHash` and `Lookup` split at their lock sections
    and interleaved freely, except that writers of one hash take turns. */
module Interleaving {
  import opened Routing
  import opened HashOrder
  import opened IndexAlgebra

  datatype Stored<V> = Stored(value: V, keys: seq<IndexKey>)

  /** What a writer still has to do for a hash it has already stored or deleted. */
  datatype Pending =
    | Unbinding(was: seq<IndexKey>, keys: seq<IndexKey>)
    | Binding(keys: seq<IndexKey>)
    | Dropping(was: seq<IndexKey>)

  /** A lookup past its read lock: the hashes it has still to load and what it has yielded. */
  datatype Reader<V> = Reader(rest: seq<Hash>, yielded: seq<(Hash, V)>)

  type Tid = nat

  datatype State<V> = State(
    values: map<Hash, Stored<V>>, idx: Index, writers: map<Hash, Pending>, readers: map<Tid, Reader<V>>)

  datatype Step<V> =
    | LoadAndStore(h: Hash, value: V, keys: seq<IndexKey>)
    | Unbind(h: Hash)
    | Bind(h: Hash)
    | LoadAndDelete(h: Hash)
    | Drop(h: Hash)
    | Begin(t: Tid, eventKeys: seq<IndexKey>)
    | Load(t: Tid)
    | Stop(t: Tid)

  /** The hashes under any of the event's keys. */
  ghost function Union(idx: Index, keys: seq<IndexKey>): set<Hash> {
    set i, h | 0 <= i < |keys| && keys[i] in idx && h in idx[keys[i]] :: h
  }

  ghost predicate Enabled<V>(s: State<V>, step: Step<V>) {
    match step
    case LoadAndStore(h, _, _) => h !in s.writers
    case Unbind(h) => h in s.writers && s.writers[h].Unbinding?
    case Bind(h) => h in s.writers && s.writers[h].Binding?
    case LoadAndDelete(h) => h !in s.writers
    case Drop(h) => h in s.writers && s.writers[h].Dropping?
    case Begin(t, _) => t !in s.readers
    case Load(t) => t in s.readers && s.readers[t].rest != []
    case Stop(t) => t in s.readers
  }

  ghost function LoadOne<V>(values: map<Hash, Stored<V>>, r: Reader<V>): Reader<V>
    requires r.rest != []
  {
    var h := r.rest[0];
    Reader(r.rest[1..], if h in values then r.yielded + [(h, values[h].value)] else r.yielded)
  }

  ghost function Next<V>(s: State<V>, step: Step<V>): State<V>
    requires Enabled(s, step)
  {
    match step
    case LoadAndStore(h, v, keys) =>
      s.(values := s.values[h := Stored(v, keys)],
         writers := s.writers[h := if h in s.values then Unbinding(s.values[h].keys, keys) else Binding(keys)])
    case Unbind(h) =>
      s.(idx := WithoutAll(s.idx, h, s.writers[h].was), writers := s.writers[h := Binding(s.writers[h].keys)])
    case Bind(h) =>
      s.(idx := WithAll(s.idx, h, s.writers[h].keys), writers := s.writers - {h})
    case LoadAndDelete(h) =>
      if h in s.values then
        s.(values := s.values - {h}, writers := s.writers[h := Dropping(s.values[h].keys)])
      else s
    case Drop(h) =>
      s.(idx := WithoutAll(s.idx, h, s.writers[h].was), writers := s.writers - {h})
    case Begin(t, keys) =>
      s.(readers := s.readers[t := Reader(Ascending(Union(s.idx, keys)), [])])
    case Load(t) =>
      s.(readers := s.readers[t := LoadOne(s.values, s.readers[t])])
    case Stop(t) =>
      s.(readers := s.readers - {t})
  }

  // ---- The invariant

  /** The keys a hash is bound under right now, mid-write included. */
  ghost function Bound<V>(s: State<V>, h: Hash): set<IndexKey> {
    if h in s.writers then
      match s.writers[h]
      case Unbinding(was, _) => Members(was)
      case Binding(_) => {}
      case Dropping(was) => Members(was)
    else if h in s.values then Members(s.values[h].keys)
    else {}
  }

  ghost predicate WriterSane<V>(s: State<V>, h: Hash) {
    h in s.writers ==>
      match s.writers[h]
      case Unbinding(_, keys) => h in s.values && s.values[h].keys == keys
      case Binding(keys) => h in s.values && s.values[h].keys == keys
      case Dropping(_) => h !in s.values
  }

  ghost predicate Inv<V>(s: State<V>) {
    && NoEmptyKey(s.idx)
    && (forall h, k :: Under(s.idx, k, h) <==> k in Bound(s, h))
    && (forall h :: WriterSane(s, h))
  }

  ghost predicate Initial<V>(s: State<V>) {
    s == State(map[], map[], map[], map[])
  }

  /** A lock section of `removeEntry`. */
  lemma UnbindingKeepsInv<V>(s: State<V>, h: Hash)
    requires Inv(s) && h in s.writers && !s.writers[h].Binding?
    ensures Inv(Next(s, if s.writers[h].Unbinding? then Unbind(h) else Drop(h)))
  {
    var s' := Next(s, if s.writers[h].Unbinding? then Unbind(h) else Drop(h));
    WithoutAllMembers(s.idx, h, s.writers[h].was);
    assert WriterSane(s, h);
    assert Bound(s', h) == {};
    forall x
      ensures WriterSane(s', x)
    {
      assert WriterSane(s, x);
    }
    forall x, k
      ensures Under(s'.idx, k, x) <==> k in Bound(s', x)
    {
      assert Under(s.idx, k, x) <==> k in Bound(s, x);
    }
  }

  /** The lock section of `Index` that binds the new keys. */
  lemma BindingKeepsInv<V>(s: State<V>, h: Hash)
    requires Inv(s) && h in s.writers && s.writers[h].Binding?
    ensures Inv(Next(s, Bind(h)))
  {
    var s' := Next(s, Bind(h));
    WithAllMembers(s.idx, h, s.writers[h].keys);
    assert WriterSane(s, h);
    forall x
      ensures WriterSane(s', x)
    {
      assert WriterSane(s, x);
    }
    forall x, k
      ensures Under(s'.idx, k, x) <==> k in Bound(s', x)
    {
      assert Under(s.idx, k, x) <==> k in Bound(s, x);
    }
  }

  /** Every lock section of every operation keeps the invariant. */
  lemma StepKeepsInv<V>(s: State<V>, step: Step<V>)
    requires Inv(s) && Enabled(s, step)
    ensures Inv(Next(s, step))
  {
    if step.Unbind? || step.Drop? {
      UnbindingKeepsInv(s, step.h);
    } else if step.Bind? {
      BindingKeepsInv(s, step.h);
    } else {
      var s' := Next(s, step);
      forall x
        ensures Bound(s', x) == Bound(s, x) && WriterSane(s', x)
      {
        assert WriterSane(s, x);
      }
    }
  }

  // ---- Runs

  ghost predicate Run<V>(states: seq<State<V>>, steps: seq<Step<V>>) {
    && |states| == |steps| + 1
    && forall i :: 0 <= i < |steps| ==>
         Enabled(states[i], steps[i]) && states[i + 1] == Next(states[i], steps[i])
  }

  lemma {:induction false} RunKeepsInv<V>(states: seq<State<V>>, steps: seq<Step<V>>, i: nat)
    requires Run(states, steps) && Initial(states[0]) && i < |states|
    ensures Inv(states[i])
  {
    if i > 0 {
      RunKeepsInv(states, steps, i - 1);
      StepKeepsInv(states[i - 1], steps[i - 1]);
    }
  }

  ghost function RoutesIn<V>(values: map<Hash, Stored<V>>): Routes {
    map h | h in values :: Members(values[h].keys)
  }

  /** When no write is under way, the index holds exactly the routes of the stored values. */
  lemma QuiescentAgrees<V>(states: seq<State<V>>, steps: seq<Step<V>>, i: nat)
    requires Run(states, steps) && Initial(states[0]) && i < |states|
    requires states[i].writers == map[]
    ensures Agrees(states[i].idx, RoutesIn(states[i].values))
  {
    RunKeepsInv(states, steps, i);
    var s := states[i];
    forall k, h
      ensures Under(s.idx, k, h) <==> h in RoutesIn(s.values) && k in RoutesIn(s.values)[h]
    {
      assert Under(s.idx, k, h) <==> k in Bound(s, h);
    }
  }

  // ---- No removed value is yielded

  ghost predicate Stores<V>(step: Step<V>, h: Hash) {
    step.LoadAndStore? && step.h == h
  }

  lemma {:induction false} StaysRemoved<V>(states: seq<State<V>>, steps: seq<Step<V>>, from: nat, to: nat, h: Hash)
    requires Run(states, steps) && from <= to < |states|
    requires h !in states[from].values
    requires forall i :: from <= i < to ==> !Stores(steps[i], h)
    ensures h !in states[to].values
  {
    if from < to {
      StaysRemoved(states, steps, from, to - 1, h);
    }
  }

  /** A lookup that comes to a hash whose value is gone yields nothing for it; otherwise it yields the
      value stored at that very moment. */
  lemma NoStaleYield<V>(states: seq<State<V>>, steps: seq<Step<V>>, gone: nat, at: nat, h: Hash)
    requires Run(states, steps) && gone <= at < |steps|
    requires h !in states[gone].values && forall i :: gone <= i < at ==> !Stores(steps[i], h)
    requires steps[at].Load? && states[at].readers[steps[at].t].rest[0] == h
    ensures states[at + 1].readers[steps[at].t].yielded == states[at].readers[steps[at].t].yielded
  {
    StaysRemoved(states, steps, gone, at, h);
  }

  // ---- Every untouched hit is yielded

  ghost predicate Touches<V>(step: Step<V>, h: Hash) {
    match step
    case LoadAndStore(x, _, _) => x == h
    case Unbind(x) => x == h
    case Bind(x) => x == h
    case LoadAndDelete(x) => x == h
    case Drop(x) => x == h
    case _ => false
  }

  /** The reader either has the hash still to load or has yielded its value. */
  ghost predicate OnItsWay<V>(s: State<V>, t: Tid, h: Hash, entry: Stored<V>) {
    && t in s.readers
    && h !in s.writers && h in s.values && s.values[h] == entry
    && (h in s.readers[t].rest || (h, entry.value) in s.readers[t].yielded)
  }

  lemma BeginCatches<V>(s: State<V>, t: Tid, keys: seq<IndexKey>, h: Hash)
    requires Inv(s) && Enabled(s, Begin(t, keys))
    requires h in s.values && h !in s.writers && exists k :: k in keys && k in s.values[h].keys
    ensures OnItsWay(Next(s, Begin(t, keys)), t, h, s.values[h])
  {
    var k :| k in keys && k in s.values[h].keys;
    var i :| 0 <= i < |keys| && keys[i] == k;
    assert k in Bound(s, h);
    assert Under(s.idx, k, h);
    AscendingMembers(Union(s.idx, keys));
  }

  lemma StepKeepsOnItsWay<V>(s: State<V>, step: Step<V>, t: Tid, h: Hash, entry: Stored<V>)
    requires OnItsWay(s, t, h, entry) && Enabled(s, step) && !Touches(step, h) && step != Stop(t)
    ensures OnItsWay(Next(s, step), t, h, entry)
  {
    if step == Load(t) {
      var r := s.readers[t];
      assert r.rest == [r.rest[0]] + r.rest[1..];
      if (h, entry.value) in r.yielded {
        assert (h, entry.value) in LoadOne(s.values, r).yielded;
      } else if r.rest[0] == h {
        assert LoadOne(s.values, r).yielded[|r.yielded|] == (h, entry.value);
      }
    }
  }

  lemma {:induction false} StaysOnItsWay<V>(
    states: seq<State<V>>, steps: seq<Step<V>>, from: nat, to: nat, t: Tid, h: Hash, entry: Stored<V>)
    requires Run(states, steps) && from <= to < |states|
    requires OnItsWay(states[from], t, h, entry)
    requires forall i :: from <= i < to ==> !Touches(steps[i], h) && steps[i] != Stop(t)
    ensures OnItsWay(states[to], t, h, entry)
  {
    if from < to {
      StaysOnItsWay(states, steps, from, to - 1, t, h, entry);
      StepKeepsOnItsWay(states[to - 1], steps[to - 1], t, h, entry);
    }
  }

  /** A value that no write touches while a lookup runs, and whose keys the event hits, is yielded by
      the time the lookup has nothing left to load. */
  lemma UntouchedIsYielded<V>(
    states: seq<State<V>>, steps: seq<Step<V>>, from: nat, to: nat, h: Hash)
    requires Run(states, steps) && Initial(states[0]) && from < to < |states|
    requires steps[from].Begin?
    requires h in states[from].values && h !in states[from].writers
    requires exists k :: k in steps[from].eventKeys && k in states[from].values[h].keys
    requires forall i :: from <= i < to ==> !Touches(steps[i], h) && steps[i] != Stop(steps[from].t)
    ensures steps[from].t in states[to].readers
    ensures states[to].readers[steps[from].t].rest == [] ==>
              (h, states[from].values[h].value) in states[to].readers[steps[from].t].yielded
  {
    var t, entry := steps[from].t, states[from].values[h];
    RunKeepsInv(states, steps, from);
    BeginCatches(states[from], t, steps[from].eventKeys, h);
    StaysOnItsWay(states, steps, from + 1, to, t, h, entry);
  }

  // ---- Nothing is yielded twice

  ghost predicate InOrder<V>(r: Reader<V>) {
    && (forall i, j :: 0 <= i < j < |r.rest| ==> r.rest[i] < r.rest[j])
    && (forall i, j :: 0 <= i < j < |r.yielded| ==> r.yielded[i].0 < r.yielded[j].0)
    && (forall i, j :: 0 <= i < |r.yielded| && 0 <= j < |r.rest| ==> r.yielded[i].0 < r.rest[j])
  }

  lemma LoadKeepsOrder<V>(values: map<Hash, Stored<V>>, r: Reader<V>)
    requires r.rest != [] && InOrder(r)
    ensures InOrder(LoadOne(values, r))
  {
    var r' := LoadOne(values, r);
    assert forall j :: 0 <= j < |r'.rest| ==> r'.rest[j] == r.rest[j + 1] && r.rest[0] < r.rest[j + 1];
  }

  /** In every reachable state every lookup yields in strictly ascending order of hash: nothing twice. */
  lemma {:induction false} YieldsInOrder<V>(states: seq<State<V>>, steps: seq<Step<V>>, i: nat, t: Tid)
    requires Run(states, steps) && Initial(states[0]) && i < |states| && t in states[i].readers
    ensures InOrder(states[i].readers[t])
  {
    if i > 0 {
      var s, step := states[i - 1], steps[i - 1];
      if step.Begin? && step.t == t {
        AscendingIncreases(Union(s.idx, step.eventKeys));
      } else {
        YieldsInOrder(states, steps, i - 1, t);
        if step == Load(t) {
          LoadKeepsOrder(s.values, s.readers[t]);
        }
      }
    }
  }
}
