/** Writers that need not take turns: which interleavings of their lock sections leave the index right, whatever keys
    the stored values carry. */
module Schedules {
  import opened Routing
  import opened HashOrder
  import opened IndexAlgebra
  import opened Interleaving

  // ---- The system

  /** What one writer still has to do. */
  datatype Job = Job(h: Hash, pending: Pending)

  datatype Free<V> = Free(values: map<Hash, Stored<V>>, idx: Index, jobs: map<Tid, Job>)

  /** A writer begins a store or a deletion, or goes through its next lock section. */
  datatype Move<V> = Store(w: Tid, h: Hash, value: V, keys: seq<IndexKey>) | Delete(w: Tid, h: Hash) | Advance(w: Tid)

  predicate CanMove<V>(f: Free<V>, m: Move<V>) {
    if m.Advance? then m.w in f.jobs else m.w !in f.jobs
  }

  ghost function Moved<V>(f: Free<V>, m: Move<V>): Free<V>
    requires CanMove(f, m)
  {
    match m
    case Store(w, h, v, keys) =>
      f.(values := f.values[h := Stored(v, keys)],
         jobs := f.jobs[w := Job(h, if h in f.values then Unbinding(f.values[h].keys, keys) else Binding(keys))])
    case Delete(w, h) =>
      if h in f.values then
        f.(values := f.values - {h}, jobs := f.jobs[w := Job(h, Dropping(f.values[h].keys))])
      else f
    case Advance(w) =>
      var h := f.jobs[w].h;
      match f.jobs[w].pending
      case Unbinding(was, keys) => f.(idx := WithoutAll(f.idx, h, was), jobs := f.jobs[w := Job(h, Binding(keys))])
      case Binding(keys) => f.(idx := WithAll(f.idx, h, keys), jobs := f.jobs - {w})
      case Dropping(was) => f.(idx := WithoutAll(f.idx, h, was), jobs := f.jobs - {w})
  }

  ghost predicate FreeRun<V>(frees: seq<Free<V>>, moves: seq<Move<V>>) {
    && |frees| == |moves| + 1 && frees[0] == Free(map[], map[], map[])
    && forall i :: 0 <= i < |moves| ==> CanMove(frees[i], moves[i]) && frees[i + 1] == Moved(frees[i], moves[i])
  }

  // ---- Schedules, with the keys left open

  /** A section of one store: its keys are bound, or unbound again. Stores are numbered by their moves. */
  datatype Mark = Binds(store: nat) | Unbinds(store: nat)

  datatype Section = Section(h: Hash, mark: Mark)

  /** Which store each hash holds, the sections each writer has yet to go through, and those gone through. */
  datatype Plan = Plan(owner: map<Hash, nat>, todo: map<Tid, seq<Section>>, done: seq<Section>)

  function Planned<V>(p: Plan, m: Move<V>, i: nat): Plan {
    match m
    case Store(w, h, _, _) =>
      Plan(p.owner[h := i], p.todo[w := (if h in p.owner then [Section(h, Unbinds(p.owner[h]))] else []) + [Section(h, Binds(i))]],
           p.done)
    case Delete(w, h) =>
      if h in p.owner then Plan(p.owner - {h}, p.todo[w := [Section(h, Unbinds(p.owner[h]))]], p.done) else p
    case Advance(w) =>
      if w !in p.todo || p.todo[w] == [] then p
      else Plan(p.owner, if |p.todo[w]| == 1 then p.todo - {w} else p.todo[w := p.todo[w][1..]], p.done + [p.todo[w][0]])
  }

  function PlanOf<V>(moves: seq<Move<V>>): Plan {
    if moves == [] then Plan(map[], map[], []) else Planned(PlanOf(moves[..|moves| - 1]), moves[|moves| - 1], |moves| - 1)
  }

  /** The same moves, but for what is stored. */
  predicate SameMove<V>(m: Move<V>, n: Move<V>) {
    match m
    case Store(w, h, _, _) => n.Store? && n.w == w && n.h == h
    case Delete(w, h) => n == Delete(w, h)
    case Advance(w) => n == Advance(w)
  }

  predicate SameSchedule<V>(moves: seq<Move<V>>, others: seq<Move<V>>) {
    |moves| == |others| && forall i :: 0 <= i < |moves| ==> SameMove(moves[i], others[i])
  }

  lemma {:induction false} SamePlan<V>(moves: seq<Move<V>>, others: seq<Move<V>>)
    requires SameSchedule(moves, others)
    ensures PlanOf(moves) == PlanOf(others)
  {
    if moves != [] {
      SamePlan(moves[..|moves| - 1], others[..|others| - 1]);
      assert SameMove(moves[|moves| - 1], others[|others| - 1]);
    }
  }

  // ---- A plan under given keys

  type Keys = nat -> seq<IndexKey>

  predicate About(keys: Keys, section: Section, h: Hash, k: IndexKey) {
    section.h == h && k in keys(section.mark.store)
  }

  /** Whether the hash stands under the key after these sections: as the last of them about both says. */
  predicate Shown(keys: Keys, done: seq<Section>, h: Hash, k: IndexKey) {
    if done == [] then false
    else
      var last := done[|done| - 1];
      if About(keys, last, h, k) then last.mark.Binds? else Shown(keys, done[..|done| - 1], h, k)
  }

  predicate JobShown(keys: Keys, job: Job, todo: seq<Section>) {
    && (forall i :: 0 <= i < |todo| ==> todo[i].h == job.h)
    && match job.pending
       case Unbinding(was, ks) =>
         |todo| == 2 && todo[0].mark.Unbinds? && todo[1].mark.Binds? && keys(todo[0].mark.store) == was && keys(todo[1].mark.store) == ks
       case Binding(ks) => |todo| == 1 && todo[0].mark.Binds? && keys(todo[0].mark.store) == ks
       case Dropping(was) => |todo| == 1 && todo[0].mark.Unbinds? && keys(todo[0].mark.store) == was
  }

  predicate JobsShown(keys: Keys, jobs: map<Tid, Job>, todo: map<Tid, seq<Section>>) {
    jobs.Keys == todo.Keys && forall w :: w in jobs ==> JobShown(keys, jobs[w], todo[w])
  }

  predicate ValuesShown<V>(keys: Keys, values: map<Hash, Stored<V>>, owner: map<Hash, nat>) {
    values.Keys == owner.Keys && forall h :: h in values ==> values[h].keys == keys(owner[h])
  }

  ghost predicate IndexShown(keys: Keys, idx: Index, done: seq<Section>) {
    NoEmptyKey(idx) && forall h, k :: Under(idx, k, h) <==> Shown(keys, done, h, k)
  }

  /** The state is the plan's under the keys. */
  ghost predicate Shows<V>(keys: Keys, f: Free<V>, p: Plan) {
    ValuesShown(keys, f.values, p.owner) && JobsShown(keys, f.jobs, p.todo) && IndexShown(keys, f.idx, p.done)
  }

  lemma ShownSnoc(keys: Keys, done: seq<Section>, section: Section, h: Hash, k: IndexKey)
    ensures Shown(keys, done + [section], h, k) <==>
              if About(keys, section, h, k) then section.mark.Binds? else Shown(keys, done, h, k)
  {
    assert (done + [section])[..|done|] == done;
  }

  lemma SectionShows(keys: Keys, idx: Index, done: seq<Section>, section: Section)
    requires IndexShown(keys, idx, done)
    ensures var ks := keys(section.mark.store);
            IndexShown(keys, if section.mark.Binds? then WithAll(idx, section.h, ks) else WithoutAll(idx, section.h, ks),
                       done + [section])
  {
    hide Shown, WithAll, WithoutAll;
    var ks := keys(section.mark.store);
    WithAllMembers(idx, section.h, ks);
    WithoutAllMembers(idx, section.h, ks);
    var after := if section.mark.Binds? then WithAll(idx, section.h, ks) else WithoutAll(idx, section.h, ks);
    forall h, k
      ensures Under(after, k, h) <==> Shown(keys, done + [section], h, k)
    {
      ShownSnoc(keys, done, section, h, k);
    }
  }

  lemma MoveShows<V>(keys: Keys, f: Free<V>, p: Plan, m: Move<V>, i: nat)
    requires Shows(keys, f, p) && CanMove(f, m) && (m.Store? ==> m.keys == keys(i))
    ensures Shows(keys, Moved(f, m), Planned(p, m, i))
  {
    hide IndexShown, WithAll, WithoutAll;
    if m.Advance? {
      AdvanceShows(keys, f, p, m.w, i);
    }
  }

  lemma AdvanceShows<V>(keys: Keys, f: Free<V>, p: Plan, w: Tid, i: nat)
    requires Shows(keys, f, p) && w in f.jobs
    ensures Shows(keys, Moved(f, Advance(w)), Planned<V>(p, Advance(w), i))
  {
    hide IndexShown, WithAll, WithoutAll;
    assert JobShown(keys, f.jobs[w], p.todo[w]);
    SectionShows(keys, f.idx, p.done, p.todo[w][0]);
  }

  /** The keys that the moves themselves carry. */
  function KeysOf<V>(moves: seq<Move<V>>): Keys {
    (i: nat) => if i < |moves| && moves[i].Store? then moves[i].keys else []
  }

  /** Every run is the plan's, under the keys it carries. */
  lemma {:induction false} RunShows<V>(keys: Keys, frees: seq<Free<V>>, moves: seq<Move<V>>, i: nat)
    requires FreeRun(frees, moves) && i < |frees|
    requires forall j :: 0 <= j < |moves| && moves[j].Store? ==> moves[j].keys == keys(j)
    ensures Shows(keys, frees[i], PlanOf(moves[..i]))
  {
    if i == 0 {
      assert moves[..0] == [];
    } else {
      hide Shows, Planned, Moved;
      RunShows(keys, frees, moves, i - 1);
      assert moves[..i][..i - 1] == moves[..i - 1];
      MoveShows(keys, frees[i - 1], PlanOf(moves[..i - 1]), moves[i - 1], i - 1);
    }
  }

  /** The same schedule can be run with any keys. */
  lemma {:induction false} RunWith<V>(keys: Keys, frees: seq<Free<V>>, moves: seq<Move<V>>)
    returns (fs: seq<Free<V>>, ms: seq<Move<V>>)
    requires FreeRun(frees, moves)
    ensures FreeRun(fs, ms) && SameSchedule(moves, ms)
    ensures forall j :: 0 <= j < |ms| && ms[j].Store? ==> ms[j].keys == keys(j)
  {
    if moves == [] {
      fs, ms := frees, moves;
    } else {
      var n := |moves| - 1;
      FreeRunInit(frees, moves);
      var gs, ns := RunWith(keys, frees[..n + 1], moves[..n]);
      var m := if moves[n].Store? then moves[n].(keys := keys(n)) else moves[n];
      SameWritersAtWork(keys, frees[..n + 1], moves[..n], gs, ns);
      assert CanMove(gs[n], m) by {
        assert frees[..n + 1][n] == frees[n];
      }
      fs, ms := gs + [Moved(gs[n], m)], ns + [m];
      FreeRunSnoc(gs, ns, m);
      assert SameMove(moves[n], m);
    }
  }

  lemma FreeRunInit<V>(frees: seq<Free<V>>, moves: seq<Move<V>>)
    requires FreeRun(frees, moves) && moves != []
    ensures FreeRun(frees[..|moves|], moves[..|moves| - 1]) && CanMove(frees[|moves| - 1], moves[|moves| - 1])
  {
  }

  lemma FreeRunSnoc<V>(frees: seq<Free<V>>, moves: seq<Move<V>>, m: Move<V>)
    requires FreeRun(frees, moves) && CanMove(frees[|moves|], m)
    ensures FreeRun(frees + [Moved(frees[|moves|], m)], moves + [m])
  {
    hide Moved;
  }

  /** Runs of one schedule have the same writers at work. */
  lemma SameWritersAtWork<V>(keys: Keys, frees: seq<Free<V>>, moves: seq<Move<V>>, fs: seq<Free<V>>, ms: seq<Move<V>>)
    requires FreeRun(frees, moves) && FreeRun(fs, ms) && SameSchedule(moves, ms)
    requires forall j :: 0 <= j < |ms| && ms[j].Store? ==> ms[j].keys == keys(j)
    ensures fs[|ms|].jobs.Keys == frees[|moves|].jobs.Keys
  {
    RunShows(KeysOf(moves), frees, moves, |moves|);
    RunShows(keys, fs, ms, |ms|);
    assert moves[..|moves|] == moves && ms[..|ms|] == ms;
    SamePlan(moves, ms);
  }

  // ---- What every plan keeps

  predicate Waiting(p: Plan, s: Section) {
    exists w :: w in p.todo && s in p.todo[w]
  }

  predicate Issued(p: Plan, s: Section) {
    s in p.done || Waiting(p, s)
  }

  /** No section is gone through twice, nor waits twice, nor waits when it is done. */
  predicate Once(p: Plan) {
    && (forall i, j :: 0 <= i < j < |p.done| ==> p.done[i] != p.done[j])
    && (forall w :: w in p.todo ==> p.todo[w] != [] && forall s :: s in p.todo[w] ==> s !in p.done)
    && (forall w, i, j :: w in p.todo && 0 <= i < j < |p.todo[w]| ==> p.todo[w][i] != p.todo[w][j])
    && (forall v, w :: v in p.todo && w in p.todo && v != w ==> forall s :: s in p.todo[v] ==> s !in p.todo[w])
  }

  /** What is unbound was bound and is no longer stored; what was stored and is not unbound is stored still. */
  ghost predicate Accounted(p: Plan, n: nat) {
    && (forall h, s: nat :: IsUnbound(p, h, s) ==> IsBound(p, h, s) && !Owns(p, h, s))
    && (forall h, s: nat :: IsBound(p, h, s) ==> s < n && (Owns(p, h, s) || IsUnbound(p, h, s)))
    && (forall h, s: nat :: Owns(p, h, s) ==> IsBound(p, h, s))
  }

  predicate Owns(p: Plan, h: Hash, s: nat) {
    h in p.owner && p.owner[h] == s
  }

  predicate IsBound(p: Plan, h: Hash, s: nat) {
    Issued(p, Section(h, Binds(s)))
  }

  predicate IsUnbound(p: Plan, h: Hash, s: nat) {
    Issued(p, Section(h, Unbinds(s)))
  }

  predicate CanPlan<V>(p: Plan, m: Move<V>) {
    if m.Advance? then m.w in p.todo else m.w !in p.todo
  }

  /** A writer begins with these sections to go through. */
  lemma NewSections(p: Plan, owner: map<Hash, nat>, w: Tid, sections: seq<Section>)
    requires Once(p) && w !in p.todo && sections != []
    requires forall s :: s in sections ==> !Issued(p, s)
    requires forall i, j :: 0 <= i < j < |sections| ==> sections[i] != sections[j]
    ensures var after := Plan(owner, p.todo[w := sections], p.done);
            Once(after) && forall s :: Issued(after, s) <==> Issued(p, s) || s in sections
  {
    var after := Plan(owner, p.todo[w := sections], p.done);
    forall v, s | v in p.todo && s in p.todo[v]
      ensures s !in sections
    {
      assert Waiting(p, s);
    }
    forall s
      ensures Waiting(after, s) <==> Waiting(p, s) || s in sections
    {
      if Waiting(p, s) {
        var v :| v in p.todo && s in p.todo[v];
        assert v in after.todo && s in after.todo[v];
      }
      if s in sections {
        assert w in after.todo && s in after.todo[w];
      }
    }
  }

  lemma NextSection<V>(p: Plan, w: Tid, i: nat)
    requires Once(p) && w in p.todo
    ensures var after := Planned<V>(p, Advance(w), i);
            && Once(after) && after.owner == p.owner && after.done == p.done + [p.todo[w][0]]
            && forall s :: Issued(after, s) <==> Issued(p, s)
  {
    var after := Planned<V>(p, Advance(w), i);
    var head, rest := p.todo[w][0], p.todo[w][1..];
    assert p.todo[w] == [head] + rest;
    assert head in p.todo[w];
    assert forall j :: 0 <= j < |rest| ==> rest[j] == p.todo[w][j + 1];
    forall s
      ensures Issued(after, s) <==> Issued(p, s)
    {
      SectionMoves(p, after, w, s);
    }
  }

  lemma SectionMoves(p: Plan, after: Plan, w: Tid, s: Section)
    requires w in p.todo && p.todo[w] != [] && after.done == p.done + [p.todo[w][0]]
    requires after.todo == if |p.todo[w]| == 1 then p.todo - {w} else p.todo[w := p.todo[w][1..]]
    ensures Issued(after, s) <==> Issued(p, s)
  {
    assert p.todo[w] == [p.todo[w][0]] + p.todo[w][1..];
    if Waiting(p, s) {
      var v :| v in p.todo && s in p.todo[v];
      if v != w {
        assert v in after.todo && s in after.todo[v];
      } else if s in p.todo[w][1..] {
        assert w in after.todo && s in after.todo[w];
      }
    }
    if Waiting(after, s) {
      var v :| v in after.todo && s in after.todo[v];
      assert v in p.todo && s in p.todo[v];
    }
  }

  lemma PlannedKeeps<V>(p: Plan, m: Move<V>, i: nat)
    requires Once(p) && Accounted(p, i) && CanPlan(p, m)
    ensures Once(Planned(p, m, i)) && Accounted(Planned(p, m, i), i + 1)
  {
    match m
    case Store(w, h, _, _) => StorePlanned(p, m, i);
    case Delete(w, h) => DeletePlanned(p, m, i);
    case Advance(w) =>
      hide Once, Issued;
      NextSection<V>(p, w, i);
      SameAccounts(p, Planned(p, m, i), i);
  }

  lemma SameAccounts(p: Plan, after: Plan, n: nat)
    requires Accounted(p, n) && after.owner == p.owner && forall s :: Issued(after, s) <==> Issued(p, s)
    ensures Accounted(after, n + 1)
  {
    hide Issued;
    forall h, s: nat
      ensures IsBound(after, h, s) <==> IsBound(p, h, s)
      ensures IsUnbound(after, h, s) <==> IsUnbound(p, h, s)
      ensures Owns(after, h, s) <==> Owns(p, h, s)
    {
    }
  }

  lemma StorePlanned<V>(p: Plan, m: Move<V>, i: nat)
    requires Once(p) && Accounted(p, i) && m.Store? && m.w !in p.todo
    ensures Once(Planned(p, m, i)) && Accounted(Planned(p, m, i), i + 1)
  {
    hide Once, Issued;
    var h := m.h;
    var former := if h in p.owner then [Section(h, Unbinds(p.owner[h]))] else [];
    assert !IsBound(p, h, i);
    assert h in p.owner ==> Owns(p, h, p.owner[h]) && !IsUnbound(p, h, p.owner[h]);
    NewSections(p, p.owner[h := i], m.w, former + [Section(h, Binds(i))]);
    var after := Planned(p, m, i);
    forall g, s: nat
      ensures IsBound(after, g, s) <==> IsBound(p, g, s) || (g == h && s == i)
      ensures IsUnbound(after, g, s) <==> IsUnbound(p, g, s) || (g == h && Owns(p, h, s))
      ensures Owns(after, g, s) <==> if g == h then s == i else Owns(p, g, s)
    {
    }
    hide IsBound, IsUnbound, Owns;
  }

  lemma DeletePlanned<V>(p: Plan, m: Move<V>, i: nat)
    requires Once(p) && Accounted(p, i) && m.Delete? && m.w !in p.todo
    ensures Once(Planned(p, m, i)) && Accounted(Planned(p, m, i), i + 1)
  {
    hide Once, Issued;
    var h := m.h;
    var after := Planned(p, m, i);
    if h in p.owner {
      assert Owns(p, h, p.owner[h]) && !IsUnbound(p, h, p.owner[h]);
      NewSections(p, p.owner - {h}, m.w, [Section(h, Unbinds(p.owner[h]))]);
      forall g, s: nat
        ensures IsBound(after, g, s) <==> IsBound(p, g, s)
        ensures IsUnbound(after, g, s) <==> IsUnbound(p, g, s) || (g == h && Owns(p, h, s))
        ensures Owns(after, g, s) <==> g != h && Owns(p, g, s)
      {
      }
      hide IsBound, IsUnbound, Owns;
    } else {
      SameAccounts(p, after, i);
    }
  }

  lemma {:induction false} RunKeeps<V>(frees: seq<Free<V>>, moves: seq<Move<V>>, i: nat)
    requires FreeRun(frees, moves) && i < |frees|
    ensures Once(PlanOf(moves[..i])) && Accounted(PlanOf(moves[..i]), i)
    ensures frees[i].jobs.Keys == PlanOf(moves[..i]).todo.Keys
  {
    RunShows(KeysOf(moves), frees, moves, i);
    if i == 0 {
      assert moves[..0] == [];
    } else {
      hide Once, Accounted, Planned, Moved;
      RunKeeps(frees, moves, i - 1);
      assert moves[..i][..i - 1] == moves[..i - 1];
      PlannedKeeps(PlanOf(moves[..i - 1]), moves[i - 1], i - 1);
    }
  }

  // ---- The condition

  /** What the hash's values bind and unbind comes in order: nothing is unbound before it was bound, and what is stored
      is bound after everything of the hash that is unbound. */
  ghost predicate InOrder(p: Plan, h: Hash) {
    && (forall i, s: nat :: 0 <= i < |p.done| && p.done[i] == Section(h, Unbinds(s)) ==> Section(h, Binds(s)) in p.done[..i])
    && (h in p.owner ==> exists b :: IsLastBinding(p, h, b))
  }

  predicate IsLastBinding(p: Plan, h: Hash, b: int) {
    && 0 <= b < |p.done| && h in p.owner && p.done[b] == Section(h, Binds(p.owner[h]))
    && forall i :: b < i < |p.done| ==> !(p.done[i].h == h && p.done[i].mark.Unbinds?)
  }

  /** All writers are done. */
  predicate Quiet(p: Plan) {
    p.todo == map[]
  }

  predicate Expected(keys: Keys, p: Plan, h: Hash, k: IndexKey) {
    h in p.owner && k in keys(p.owner[h])
  }

  /** The last section about the hash and the key, -1 when there is none. */
  lemma {:induction false} LastAbout(keys: Keys, done: seq<Section>, h: Hash, k: IndexKey) returns (i: int)
    ensures -1 <= i < |done|
    ensures i >= 0 ==> About(keys, done[i], h, k) && (Shown(keys, done, h, k) <==> done[i].mark.Binds?)
    ensures i < 0 ==> !Shown(keys, done, h, k)
    ensures forall j :: i < j < |done| ==> !About(keys, done[j], h, k)
  {
    if done == [] {
      i := -1;
    } else if About(keys, done[|done| - 1], h, k) {
      i := |done| - 1;
    } else {
      i := LastAbout(keys, done[..|done| - 1], h, k);
    }
  }

  lemma QuietPlan(p: Plan, n: nat, h: Hash, s: nat)
    requires Accounted(p, n) && Quiet(p)
    ensures IsBound(p, h, s) <==> Section(h, Binds(s)) in p.done
    ensures IsUnbound(p, h, s) <==> Section(h, Unbinds(s)) in p.done
    ensures Owns(p, h, s) ==> IsBound(p, h, s)
    ensures IsUnbound(p, h, s) ==> IsBound(p, h, s) && !Owns(p, h, s)
    ensures IsBound(p, h, s) ==> Owns(p, h, s) || IsUnbound(p, h, s)
  {
  }

  /** In order, the index ends as it should under all keys. */
  lemma InOrderShows(keys: Keys, p: Plan, n: nat, h: Hash, k: IndexKey)
    requires Once(p) && Accounted(p, n) && Quiet(p) && InOrder(p, h)
    ensures Shown(keys, p.done, h, k) <==> Expected(keys, p, h, k)
  {
    hide Shown, Once, Accounted;
    var i := LastAbout(keys, p.done, h, k);
    if i >= 0 && p.done[i].mark.Binds? {
      BoundLast(keys, p, n, h, k, i);
    } else {
      UnboundLast(keys, p, h, k, i);
    }
  }

  lemma UnboundLast(keys: Keys, p: Plan, h: Hash, k: IndexKey, i: int)
    requires InOrder(p, h) && -1 <= i < |p.done|
    requires i >= 0 ==> About(keys, p.done[i], h, k) && p.done[i].mark.Unbinds?
    requires forall j :: i < j < |p.done| ==> !About(keys, p.done[j], h, k)
    ensures !Expected(keys, p, h, k)
  {
    if h in p.owner {
      var b :| IsLastBinding(p, h, b);
      assert k in keys(p.owner[h]) ==> About(keys, p.done[b], h, k);
    }
  }

  lemma BoundLast(keys: Keys, p: Plan, n: nat, h: Hash, k: IndexKey, i: nat)
    requires Once(p) && Accounted(p, n) && Quiet(p) && InOrder(p, h)
    requires i < |p.done| && About(keys, p.done[i], h, k) && p.done[i].mark.Binds?
    requires forall j :: i < j < |p.done| ==> !About(keys, p.done[j], h, k)
    ensures Expected(keys, p, h, k)
  {
    var s := p.done[i].mark.store;
    assert p.done[i] == Section(h, Binds(s)) && p.done[i] in p.done;
    QuietPlan(p, n, h, s);
    if !Owns(p, h, s) {
      var u :| 0 <= u < |p.done| && p.done[u] == Section(h, Unbinds(s));
      assert About(keys, p.done[u], h, k);
      BoundBefore(p, h, s, u, i);
    }
  }

  lemma BoundBefore(p: Plan, h: Hash, s: nat, u: nat, i: nat)
    requires Once(p) && InOrder(p, h) && u < |p.done| && i < |p.done|
    requires p.done[u] == Section(h, Unbinds(s)) && p.done[i] == Section(h, Binds(s))
    ensures i < u
  {
    assert Section(h, Binds(s)) in p.done[..u];
    var b :| 0 <= b < u && p.done[b] == Section(h, Binds(s));
  }

  // ---- Keys that find disorder out

  function Only(stores: set<nat>): Keys {
    (i: nat) => if i in stores then [CATCH_ALL] else []
  }

  /** Keys under which the end is wrong, when the sections are not in order. */
  lemma DisorderShows(p: Plan, n: nat, h: Hash) returns (keys: Keys)
    requires Once(p) && Accounted(p, n) && Quiet(p) && !InOrder(p, h)
    ensures Shown(keys, p.done, h, CATCH_ALL) <==> !Expected(keys, p, h, CATCH_ALL)
  {
    if i, s: nat :| 0 <= i < |p.done| && p.done[i] == Section(h, Unbinds(s)) && Section(h, Binds(s)) !in p.done[..i] {
      keys := Only({s});
      EarlyUnbinding(p, n, h, i, s);
    } else {
      keys := LateUnbinding(p, n, h);
    }
  }

  lemma EarlyUnbinding(p: Plan, n: nat, h: Hash, i: nat, s: nat)
    requires Once(p) && Accounted(p, n) && Quiet(p)
    requires i < |p.done| && p.done[i] == Section(h, Unbinds(s)) && Section(h, Binds(s)) !in p.done[..i]
    ensures Shown(Only({s}), p.done, h, CATCH_ALL) && !Expected(Only({s}), p, h, CATCH_ALL)
  {
    hide Shown;
    var keys := Only({s});
    assert p.done[i] in p.done;
    QuietPlan(p, n, h, s);
    var b :| 0 <= b < |p.done| && p.done[b] == Section(h, Binds(s));
    assert forall c :: 0 <= c < i ==> p.done[c] in p.done[..i];
    assert b > i;
    var last := LastAbout(keys, p.done, h, CATCH_ALL);
    assert About(keys, p.done[b], h, CATCH_ALL);
    assert p.done[last] in {Section(h, Binds(s)), Section(h, Unbinds(s))};
  }

  lemma LateUnbinding(p: Plan, n: nat, h: Hash) returns (keys: Keys)
    requires Once(p) && Accounted(p, n) && Quiet(p) && !InOrder(p, h)
    requires forall i, s: nat :: 0 <= i < |p.done| && p.done[i] == Section(h, Unbinds(s)) ==> Section(h, Binds(s)) in p.done[..i]
    ensures !Shown(keys, p.done, h, CATCH_ALL) && Expected(keys, p, h, CATCH_ALL)
  {
    hide Shown;
    var l := p.owner[h];
    QuietPlan(p, n, h, l);
    assert Owns(p, h, l);
    var b :| 0 <= b < |p.done| && p.done[b] == Section(h, Binds(l));
    assert !IsLastBinding(p, h, b);
    var u :| b < u < |p.done| && p.done[u].h == h && p.done[u].mark.Unbinds?;
    var s := p.done[u].mark.store;
    assert p.done[u] == Section(h, Unbinds(s)) && p.done[u] in p.done;
    QuietPlan(p, n, h, s);
    assert s != l;
    keys := Only({s, l});
    var last := LastAbout(keys, p.done, h, CATCH_ALL);
    assert About(keys, p.done[u], h, CATCH_ALL) && last >= u;
    NotBoundLast(p, n, h, keys, last, s, l, u, b);
  }

  lemma NotBoundLast(p: Plan, n: nat, h: Hash, keys: Keys, last: nat, s: nat, l: nat, u: nat, b: nat)
    requires Once(p) && Accounted(p, n) && Quiet(p) && keys == Only({s, l}) && b < u <= last < |p.done|
    requires About(keys, p.done[last], h, CATCH_ALL)
    requires p.done[b] == Section(h, Binds(l)) && p.done[u] == Section(h, Unbinds(s)) && Section(h, Binds(s)) in p.done[..u]
    ensures p.done[last].mark.Unbinds?
  {
    var c :| 0 <= c < u && p.done[c] == Section(h, Binds(s));
    assert p.done[last].mark.store in {s, l};
  }

  // ---- Main results

  /** The index has the hash under exactly the keys of what is stored under it. */
  ghost predicate AgreesOn<V>(f: Free<V>, h: Hash) {
    forall k :: Under(f.idx, k, h) <==> h in f.values && k in f.values[h].keys
  }

  lemma EndShows<V>(keys: Keys, frees: seq<Free<V>>, moves: seq<Move<V>>, h: Hash)
    requires FreeRun(frees, moves)
    requires forall j :: 0 <= j < |moves| && moves[j].Store? ==> moves[j].keys == keys(j)
    ensures var p := PlanOf(moves);
            AgreesOn(frees[|moves|], h) <==> forall k :: Shown(keys, p.done, h, k) <==> Expected(keys, p, h, k)
  {
    hide PlanOf, Shown, Moved;
    RunShows(keys, frees, moves, |moves|);
    assert moves[..|moves|] == moves;
    var f, p := frees[|moves|], PlanOf(moves);
    forall k
      ensures Under(f.idx, k, h) <==> Shown(keys, p.done, h, k)
      ensures (h in f.values && k in f.values[h].keys) <==> Expected(keys, p, h, k)
    {
    }
    hide Shows, Expected;
  }

  /** Exactly when a schedule ends with the index right for a hash, whatever keys its stores carry. */
  lemma ScheduleExactly<V>(frees: seq<Free<V>>, moves: seq<Move<V>>, h: Hash)
    requires FreeRun(frees, moves) && frees[|moves|].jobs == map[]
    ensures (forall fs: seq<Free<V>>, ms :: FreeRun(fs, ms) && SameSchedule(moves, ms) ==> AgreesOn(fs[|ms|], h)) <==>
              InOrder(PlanOf(moves), h)
  {
    RunKeeps(frees, moves, |moves|);
    assert moves[..|moves|] == moves;
    var p, n := PlanOf(moves), |moves|;
    hide FreeRun, PlanOf, Once, Accounted, InOrder, Shown, Expected, AgreesOn, SameSchedule;
    if InOrder(p, h) {
      forall fs: seq<Free<V>>, ms | FreeRun(fs, ms) && SameSchedule(moves, ms)
        ensures AgreesOn(fs[|ms|], h)
      {
        SamePlan(moves, ms);
        EndShows(KeysOf(ms), fs, ms, h);
        forall k
          ensures Shown(KeysOf(ms), p.done, h, k) <==> Expected(KeysOf(ms), p, h, k)
        {
          InOrderShows(KeysOf(ms), p, n, h, k);
        }
      }
    } else {
      var keys := DisorderShows(p, n, h);
      var fs, ms := RunWith(keys, frees, moves);
      SamePlan(moves, ms);
      EndShows(keys, fs, ms, h);
    }
  }

  // ---- Taking turns

  /** A write begins only while no other writer is at work on its hash. */
  predicate TakesTurn<V>(f: Free<V>, m: Move<V>) {
    !m.Advance? ==> forall w :: w in f.jobs ==> f.jobs[w].h != m.h
  }

  predicate IsAtWork(p: Plan, w: Tid, h: Hash) {
    w in p.todo && p.todo[w] != [] && p.todo[w][0].h == h
  }

  predicate Nobody(p: Plan, h: Hash) {
    forall w :: w in p.todo ==> !IsAtWork(p, w, h)
  }

  /** What a writer whose turn it is has to do: bind what is stored, after unbinding what was, which is bound; or just
      unbind what was, with nothing stored. */
  predicate Turn(p: Plan, q: seq<Section>) {
    && 1 <= |q| <= 2 && q[|q| - 1].h == q[0].h
    && (q[0].mark.Unbinds? ==> Section(q[0].h, Binds(q[0].mark.store)) in p.done)
    && (|q| == 2 ==> q[0].mark.Unbinds?)
    && if q[|q| - 1].mark.Binds? then Owns(p, q[0].h, q[|q| - 1].mark.store) else |q| == 1 && q[0].h !in p.owner
  }

  ghost predicate NothingEarly(p: Plan) {
    forall i, h, s: nat :: 0 <= i < |p.done| && p.done[i] == Section(h, Unbinds(s)) ==> Section(h, Binds(s)) in p.done[..i]
  }

  /** One writer per hash, each at its turn; a hash that nobody is at work on is bound after all that was unbound. */
  ghost predicate InTurn(p: Plan) {
    && NothingEarly(p)
    && (forall w :: w in p.todo ==> Turn(p, p.todo[w]))
    && (forall v, w, h :: v in p.todo && w in p.todo && IsAtWork(p, v, h) && IsAtWork(p, w, h) ==> v == w)
    && (forall h :: h in p.owner && Nobody(p, h) ==> exists b :: IsLastBinding(p, h, b))
  }

  lemma NothingEarlySnoc(p: Plan, after: Plan, section: Section)
    requires NothingEarly(p) && after.done == p.done + [section]
    requires section.mark.Unbinds? ==> Section(section.h, Binds(section.mark.store)) in p.done
    ensures NothingEarly(after)
  {
    assert after.done[..|p.done|] == p.done;
    forall i, h, s: nat | 0 <= i < |after.done| && after.done[i] == Section(h, Unbinds(s))
      ensures Section(h, Binds(s)) in after.done[..i]
    {
      if i < |p.done| {
        assert after.done[..i] == p.done[..i];
      }
    }
  }

  lemma StillTurn(p: Plan, after: Plan, q: seq<Section>)
    requires Turn(p, q) && p.done <= after.done
    requires q[0].h in after.owner <==> q[0].h in p.owner
    requires q[0].h in p.owner ==> after.owner[q[0].h] == p.owner[q[0].h]
    ensures Turn(after, q)
  {
  }

  lemma StillLast(p: Plan, after: Plan, h: Hash, b: int)
    requires IsLastBinding(p, h, b) && h in after.owner && after.owner[h] == p.owner[h]
    requires after.done == p.done || (|after.done| == |p.done| + 1 && p.done <= after.done && after.done[|p.done|].h != h)
    ensures IsLastBinding(after, h, b)
  {
  }

  lemma AdvanceInTurn<V>(p: Plan, w: Tid, i: nat)
    requires InTurn(p) && w in p.todo
    ensures InTurn(Planned<V>(p, Advance(w), i))
  {
    hide NothingEarly, IsLastBinding, Turn;
    var q := p.todo[w];
    var after := Planned<V>(p, Advance(w), i);
    TurnShape(p, q);
    NothingEarlySnoc(p, after, q[0]);
    forall v | v in after.todo
      ensures Turn(after, after.todo[v]) && forall h :: IsAtWork(after, v, h) <==> IsAtWork(p, v, h)
    {
      if v == w {
        RestIsTurn(p, after, q);
      } else {
        TurnShape(p, p.todo[v]);
        StillTurn(p, after, p.todo[v]);
      }
    }
    forall h | h in after.owner && Nobody(after, h)
      ensures exists b :: IsLastBinding(after, h, b)
    {
      if h == q[0].h {
        assert IsAtWork(p, w, h) && w !in after.todo;
        BoundNow(p, after, q);
      } else {
        NobodyBefore(p, after, w, h);
        var b :| IsLastBinding(p, h, b);
        StillLast(p, after, h, b);
      }
    }
  }

  lemma NobodyBefore(p: Plan, after: Plan, w: Tid, h: Hash)
    requires w in p.todo && !IsAtWork(p, w, h) && Nobody(after, h)
    requires forall v :: v in p.todo && v != w ==> v in after.todo && after.todo[v] == p.todo[v]
    ensures Nobody(p, h)
  {
  }

  lemma TurnShape(p: Plan, q: seq<Section>)
    requires Turn(p, q)
    ensures 1 <= |q| <= 2 && (q[0].mark.Unbinds? ==> Section(q[0].h, Binds(q[0].mark.store)) in p.done)
  {
  }

  lemma RestIsTurn(p: Plan, after: Plan, q: seq<Section>)
    requires Turn(p, q) && |q| == 2 && after.owner == p.owner
    ensures Turn(after, q[1..]) && q[1..][0].h == q[0].h
  {
  }

  lemma BoundNow(p: Plan, after: Plan, q: seq<Section>)
    requires Turn(p, q) && |q| == 1 && after.owner == p.owner && after.done == p.done + [q[0]] && q[0].h in p.owner
    ensures exists b :: IsLastBinding(after, q[0].h, b)
  {
    assert IsLastBinding(after, q[0].h, |p.done|);
  }

  lemma BeginInTurn<V>(p: Plan, m: Move<V>, i: nat)
    requires InTurn(p) && !m.Advance? && m.w !in p.todo && Nobody(p, m.h)
    ensures InTurn(Planned(p, m, i))
  {
    hide NothingEarly, IsLastBinding, Turn;
    var h, after := m.h, Planned(p, m, i);
    assert NothingEarly(after) by {
      SameDone(p, after);
    }
    if h in p.owner {
      var b :| IsLastBinding(p, h, b);
      BoundThen(p, h, b);
    }
    forall v | v in after.todo
      ensures Turn(after, after.todo[v]) && forall g :: IsAtWork(after, v, g) <==> if v == m.w then g == h else IsAtWork(p, v, g)
    {
      if v == m.w {
        FreshTurn(p, m, i);
      } else {
        TurnShape(p, p.todo[v]);
        StillTurn(p, after, p.todo[v]);
      }
    }
    forall g | g in after.owner && Nobody(after, g)
      ensures exists b :: IsLastBinding(after, g, b)
    {
      NobodyElse(p, m, i, g);
      var b :| IsLastBinding(p, g, b);
      StillLast(p, after, g, b);
    }
  }

  lemma SameDone(p: Plan, after: Plan)
    requires NothingEarly(p) && after.done == p.done
    ensures NothingEarly(after)
  {
  }

  lemma BoundThen(p: Plan, h: Hash, b: int)
    requires IsLastBinding(p, h, b)
    ensures h in p.owner && Section(h, Binds(p.owner[h])) in p.done
  {
  }

  lemma FreshTurn<V>(p: Plan, m: Move<V>, i: nat)
    requires !m.Advance? && m.w !in p.todo && m.w in Planned(p, m, i).todo
    requires m.h in p.owner ==> Section(m.h, Binds(p.owner[m.h])) in p.done
    ensures var after := Planned(p, m, i); Turn(after, after.todo[m.w]) && after.todo[m.w][0].h == m.h
  {
  }

  lemma NobodyElse<V>(p: Plan, m: Move<V>, i: nat, g: Hash)
    requires !m.Advance? && m.w !in p.todo && g in Planned(p, m, i).owner && Nobody(Planned(p, m, i), g) && Nobody(p, m.h)
    ensures g != m.h && g in p.owner && Planned(p, m, i).owner[g] == p.owner[g] && Nobody(p, g)
  {
    var after := Planned(p, m, i);
    if m.Store? {
      assert IsAtWork(after, m.w, m.h);
    }
    forall v | v in p.todo
      ensures IsAtWork(after, v, g) <==> IsAtWork(p, v, g)
    {
    }
  }

  lemma {:induction false} TurnsKeep<V>(frees: seq<Free<V>>, moves: seq<Move<V>>, i: nat)
    requires FreeRun(frees, moves) && i < |frees|
    requires forall j :: 0 <= j < |moves| ==> TakesTurn(frees[j], moves[j])
    ensures InTurn(PlanOf(moves[..i]))
  {
    if i == 0 {
      assert moves[..0] == [];
    } else {
      hide InTurn, Planned, Moved, IndexShown, ValuesShown;
      TurnsKeep(frees, moves, i - 1);
      RunShows(KeysOf(moves), frees, moves, i - 1);
      assert moves[..i][..i - 1] == moves[..i - 1];
      var p, m := PlanOf(moves[..i - 1]), moves[i - 1];
      if m.Advance? {
        AdvanceInTurn<V>(p, m.w, i - 1);
      } else {
        forall w | w in p.todo
          ensures !IsAtWork(p, w, m.h)
        {
          assert JobShown(KeysOf(moves), frees[i - 1].jobs[w], p.todo[w]);
        }
        BeginInTurn(p, m, i - 1);
      }
    }
  }

  lemma InTurnIsInOrder(p: Plan, h: Hash)
    requires InTurn(p) && Quiet(p)
    ensures InOrder(p, h)
  {
    assert Nobody(p, h);
  }

  lemma FreeRunPrefix<V>(frees: seq<Free<V>>, moves: seq<Move<V>>, i: nat)
    requires FreeRun(frees, moves) && i < |frees|
    ensures FreeRun(frees[..i + 1], moves[..i])
  {
    hide Moved;
  }

  lemma TurnsAreInOrder<V>(frees: seq<Free<V>>, moves: seq<Move<V>>, i: nat, h: Hash)
    requires FreeRun(frees, moves) && i < |frees| && frees[i].jobs == map[]
    requires forall j :: 0 <= j < |moves| ==> TakesTurn(frees[j], moves[j])
    ensures InOrder(PlanOf(moves[..i]), h)
  {
    hide InTurn, InOrder, Once, Accounted, PlanOf, Moved;
    TurnsKeep(frees, moves, i);
    RunKeeps(frees, moves, i);
    InTurnIsInOrder(PlanOf(moves[..i]), h);
  }

  lemma AgreesEverywhere<V>(keys: Keys, frees: seq<Free<V>>, moves: seq<Move<V>>, i: nat)
    requires FreeRun(frees, moves) && i < |frees| && forall h :: AgreesOn(frees[i], h)
    requires forall j :: 0 <= j < |moves| && moves[j].Store? ==> moves[j].keys == keys(j)
    ensures Agrees(frees[i].idx, RoutesIn(frees[i].values))
  {
    RunShows(keys, frees, moves, i);
    hide FreeRun, Shown, PlanOf;
    forall h, k
      ensures Under(frees[i].idx, k, h) <==> h in frees[i].values && k in frees[i].values[h].keys
    {
      assert AgreesOn(frees[i], h);
    }
  }

  /** Taking turns puts the sections in order: in such a run the index is exact whenever nobody is at work. */
  lemma TurnsSuffice<V>(frees: seq<Free<V>>, moves: seq<Move<V>>, i: nat)
    requires FreeRun(frees, moves) && i < |frees| && frees[i].jobs == map[]
    requires forall j :: 0 <= j < |moves| ==> TakesTurn(frees[j], moves[j])
    ensures forall h :: InOrder(PlanOf(moves[..i]), h)
    ensures Agrees(frees[i].idx, RoutesIn(frees[i].values))
  {
    assert |frees| == |moves| + 1;
    hide FreeRun, InOrder, AgreesOn, PlanOf, TakesTurn;
    forall h
      ensures InOrder(PlanOf(moves[..i]), h) && AgreesOn(frees[i], h)
    {
      TurnsAreInOrder(frees, moves, i, h);
      FreeRunPrefix(frees, moves, i);
      OrderedAgrees(frees[..i + 1], moves[..i], h);
    }
    AgreesEverywhere(KeysOf(moves), frees, moves, i);
  }

  /** A run that ends in order ends with the index right, with the keys it carries. */
  lemma OrderedAgrees<V>(frees: seq<Free<V>>, moves: seq<Move<V>>, h: Hash)
    requires FreeRun(frees, moves) && frees[|moves|].jobs == map[] && InOrder(PlanOf(moves), h)
    ensures AgreesOn(frees[|moves|], h)
  {
    hide FreeRun, InOrder, AgreesOn;
    ScheduleExactly(frees, moves, h);
    assert SameSchedule(moves, moves);
  }

  /** Without turns it is not: a deletion that slips between another writer's store and its binding leaves the hash in
      the index for good, with no value and nobody to unbind it. */
  lemma UnserialisedWriterLeaks<V>(h: Hash, v: V, key: IndexKey) returns (frees: seq<Free<V>>, moves: seq<Move<V>>)
    ensures FreeRun(frees, moves) && moves == [Store(0, h, v, [key]), Delete(1, h), Advance(1), Advance(0)]
    ensures var last := frees[|moves|];
            && last.jobs == map[] && h !in last.values && Under(last.idx, key, h)
            && !Agrees(last.idx, RoutesIn(last.values)) && !InOrder(PlanOf(moves), h)
  {
    var keys := [key];
    moves := [Store(0, h, v, keys), Delete(1, h), Advance(1), Advance(0)];
    var f0: Free<V> := Free(map[], map[], map[]);
    var f1 := Moved(f0, moves[0]);
    var f2 := Moved(f1, moves[1]);
    var f3 := Moved(f2, moves[2]);
    var f4 := Moved(f3, moves[3]);
    frees := [f0, f1, f2, f3, f4];
    assert keys[..0] == [] && WithoutAll(map[], h, keys[..0]) == map[];
    assert WithoutAll(map[], h, keys) == map[];
    WithAllMembers(map[], h, keys);
    assert key in keys;
    assert Under(f4.idx, key, h);
    hide FreeRun, PlanOf, InOrder;
    if InOrder(PlanOf(moves), h) {
      OrderedAgrees(frees, moves, h);
    }
  }
}
