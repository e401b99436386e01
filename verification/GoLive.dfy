/** A subscription going live (`server/ws/subscriptions.go`): stored events are streamed while
    broadcasts are buffered, then the subscription is switched live and the buffer is flushed. */
module GoLive {
  import opened Nostr
  import opened LatestBuffer
  import opened Addresses
  import S = Subscription

  datatype Phase = Streaming | Live | Flushed

  /** One atomic step of the handler or of a concurrent broadcast. */
  datatype Action = Broadcast(e: Event) | StreamStored(e: Event) | SetLive | Flush

  /** Whether an event may be forwarded to the subscriber, whether its reducer skips it, and the address
      it is buffered under. */
  datatype Policy = Policy(forwards: Event -> bool, reduces: Event -> bool, address: Event -> string)

  datatype Session = Session(phase: Phase, pending: seq<Event>, written: seq<Event>)

  const START := Session(Streaming, [], [])

  predicate Enabled(phase: Phase, a: Action) {
    match a
    case Broadcast(_) => true
    case StreamStored(_) => phase == Streaming
    case SetLive => phase == Streaming
    case Flush => phase == Live
  }

  function Step(p: Policy, s: Session, a: Action): Session {
    match a
    case Broadcast(e) =>
      if !p.forwards(e) then s
      else if s.phase != Streaming then s.(written := s.written + [e])
      else if p.reduces(e) then s
      else s.(pending := Buffered(p.address, s.pending, e))
    case StreamStored(e) => if p.reduces(e) then s else s.(written := s.written + [e])
    case SetLive => s.(phase := Live)
    case Flush => Session(Flushed, [], s.written + s.pending)
  }

  function PhaseAfter(acts: seq<Action>): Phase {
    if acts == [] then Streaming
    else match acts[|acts| - 1]
         case SetLive => Live
         case Flush => Flushed
         case _ => PhaseAfter(acts[..|acts| - 1])
  }

  ghost predicate Legal(acts: seq<Action>) {
    forall i :: 0 <= i < |acts| ==> Enabled(PhaseAfter(acts[..i]), acts[i])
  }

  function Exec(p: Policy, acts: seq<Action>): Session {
    if acts == [] then START else Step(p, Exec(p, acts[..|acts| - 1]), acts[|acts| - 1])
  }

  /** The forwarded broadcasts of one phase, in order; those of the streaming phase only if the reducer
      lets them in. */
  function Forwarded(p: Policy, acts: seq<Action>, phase: Phase): seq<Event> {
    if acts == [] then []
    else
      var init, last := acts[..|acts| - 1], acts[|acts| - 1];
      var before := Forwarded(p, init, phase);
      if Counts(p, PhaseAfter(init), last) && PhaseAfter(init) == phase then before + [last.e] else before
  }

  /** Whether an action made in a phase is a broadcast that reaches the subscriber. */
  predicate Counts(p: Policy, phase: Phase, a: Action) {
    a.Broadcast? && p.forwards(a.e) && (phase == Streaming ==> !p.reduces(a.e))
  }

  function StoredWrites(p: Policy, acts: seq<Action>): seq<Event> {
    if acts == [] then []
    else
      var before, last := StoredWrites(p, acts[..|acts| - 1]), acts[|acts| - 1];
      if last.StreamStored? && !p.reduces(last.e) then before + [last.e] else before
  }

  lemma LegalPrefix(acts: seq<Action>)
    requires Legal(acts) && acts != []
    ensures Legal(acts[..|acts| - 1]) && Enabled(PhaseAfter(acts[..|acts| - 1]), acts[|acts| - 1])
  {
    var init := acts[..|acts| - 1];
    forall i | 0 <= i < |init|
      ensures Enabled(PhaseAfter(init[..i]), init[i])
    {
      assert init[..i] == acts[..i];
    }
  }

  /** The parts of the output appear only once their phase has begun. */
  lemma {:induction false} NothingBeforeItsPhase(p: Policy, acts: seq<Action>)
    requires Legal(acts)
    ensures PhaseAfter(acts) == Streaming ==> Forwarded(p, acts, Live) == []
    ensures PhaseAfter(acts) != Flushed ==> Forwarded(p, acts, Flushed) == []
  {
    if acts != [] {
      LegalPrefix(acts);
      NothingBeforeItsPhase(p, acts[..|acts| - 1]);
    }
  }

  lemma {:induction false} RunPhaseAndPending(p: Policy, acts: seq<Action>)
    requires Legal(acts)
    ensures var s := Exec(p, acts);
            && s.phase == PhaseAfter(acts)
            && s.pending == if s.phase == Flushed then [] else BufferAll(p.address, Forwarded(p, acts, Streaming))
  {
    if acts != [] {
      var init, last := acts[..|acts| - 1], acts[|acts| - 1];
      LegalPrefix(acts);
      RunPhaseAndPending(p, init);
      var early := Forwarded(p, init, Streaming);
      if Counts(p, PhaseAfter(init), last) {
        assert (early + [last.e])[..|early|] == early;
      }
    }
  }

  /** Everything written by a run, in order. */
  function Output(p: Policy, acts: seq<Action>): seq<Event> {
    var buffer := if PhaseAfter(acts) == Flushed then BufferAll(p.address, Forwarded(p, acts, Streaming)) else [];
    StoredWrites(p, acts) + Forwarded(p, acts, Live) + buffer + Forwarded(p, acts, Flushed)
  }

  lemma OutputStep(p: Policy, init: seq<Action>, last: Action, s: Session)
    requires Legal(init + [last]) && Legal(init) && Enabled(PhaseAfter(init), last)
    requires s.phase == PhaseAfter(init) && s.written == Output(p, init)
    requires s.phase != Flushed ==> s.pending == BufferAll(p.address, Forwarded(p, init, Streaming))
    ensures Step(p, s, last).written == Output(p, init + [last])
  {
    NothingBeforeItsPhase(p, init);
    PartsStep(p, init, last);
    hide StoredWrites, Forwarded, BufferAll, Buffered, Legal, PhaseAfter;
    var stored, live, late := StoredWrites(p, init), Forwarded(p, init, Live), Forwarded(p, init, Flushed);
    match last
    case StreamStored(e) => InsertLate(stored, [], [], [], e);
    case Flush => InsertBuffer(stored, live, BufferAll(p.address, Forwarded(p, init, Streaming)));
    case Broadcast(e) =>
      if s.phase == Live {
        InsertLate(stored, live, [], [], e);
      } else if s.phase == Flushed {
        InsertLate(stored, live, BufferAll(p.address, Forwarded(p, init, Streaming)), late, e);
      }
    case SetLive =>
  }

  /** Appending to the last part that is not empty is appending to the whole. */
  lemma InsertLate(a: seq<Event>, b: seq<Event>, c: seq<Event>, d: seq<Event>, e: Event)
    ensures a + b + c + (d + [e]) == (a + b + c + d) + [e]
    ensures c == d == [] ==> a + (b + [e]) + [] + [] == (a + b + c + d) + [e]
    ensures b == c == d == [] ==> (a + [e]) + [] + [] + [] == (a + b + c + d) + [e]
  {
  }

  lemma InsertBuffer(a: seq<Event>, b: seq<Event>, buffer: seq<Event>)
    ensures a + b + buffer + [] == (a + b + [] + []) + buffer
  {
  }

  /** How one more action extends the parts of the output. */
  lemma PartsStep(p: Policy, init: seq<Action>, last: Action)
    ensures var acts := init + [last];
            && StoredWrites(p, acts) ==
               (if last.StreamStored? && !p.reduces(last.e) then StoredWrites(p, init) + [last.e] else StoredWrites(p, init))
            && (forall phase :: Forwarded(p, acts, phase) ==
                  if Counts(p, PhaseAfter(init), last) && PhaseAfter(init) == phase then Forwarded(p, init, phase) + [last.e]
                  else Forwarded(p, init, phase))
            && PhaseAfter(acts) == (match last case SetLive => Live case Flush => Flushed case _ => PhaseAfter(init))
  {
    assert (init + [last])[..|init|] == init;
  }

  lemma {:induction false} RunWritten(p: Policy, acts: seq<Action>)
    requires Legal(acts)
    ensures Exec(p, acts).written == Output(p, acts)
  {
    if acts != [] {
      var init, last := acts[..|acts| - 1], acts[|acts| - 1];
      LegalPrefix(acts);
      assert init + [last] == acts;
      RunPhaseAndPending(p, init);
      RunWritten(p, init);
      OutputStep(p, init, last, Exec(p, init));
    }
  }

  /** Exactly what every run has written and still holds: stored events, live broadcasts made before the
      flush, the latest buffered event of each address, and live broadcasts made after it. */
  lemma RunExactly(p: Policy, acts: seq<Action>)
    requires Legal(acts)
    ensures var s := Exec(p, acts);
            && s.phase == PhaseAfter(acts)
            && s.pending == (if s.phase == Flushed then [] else BufferAll(p.address, Forwarded(p, acts, Streaming)))
            && s.written == Output(p, acts)
  {
    RunPhaseAndPending(p, acts);
    RunWritten(p, acts);
  }

  // ---- No loss

  /** Broadcast `i` is to be delivered: it may be forwarded and, while buffering, is not skipped. */
  predicate Deliverable(p: Policy, acts: seq<Action>, i: nat)
    requires i < |acts|
  {
    Counts(p, PhaseAfter(acts[..i]), acts[i])
  }

  lemma {:induction false} PushKeepsOrReplaces(p: Policy, pending: seq<Event>, e: Event, x: Event)
    requires x in pending
    ensures e in Buffered(p.address, pending, e)
    ensures x in Buffered(p.address, pending, e) || p.address(x) == p.address(e)
  {
    if p.address(pending[0]) != p.address(e) && x != pending[0] {
      PushKeepsOrReplaces(p, pending[1..], e, x);
    } else if p.address(pending[0]) != p.address(e) {
      PushedIsThere(p, pending, e);
    }
  }

  lemma {:induction false} PushedIsThere(p: Policy, pending: seq<Event>, e: Event)
    ensures e in Buffered(p.address, pending, e)
  {
    if pending != [] && p.address(pending[0]) != p.address(e) {
      PushedIsThere(p, pending[1..], e);
    }
  }

  /** The broadcast that carries event `i` at the end of the run: itself, or a later one of the same
      address that replaced it in the buffer. */
  lemma {:induction false} Carrier(p: Policy, acts: seq<Action>, i: nat) returns (j: nat)
    requires Legal(acts) && i < |acts| && Deliverable(p, acts, i)
    ensures i <= j < |acts| && Deliverable(p, acts, j) && p.address(acts[j].e) == p.address(acts[i].e)
    ensures j > i ==> PhaseAfter(acts[..j]) == Streaming
    ensures var s := Exec(p, acts); acts[j].e in s.pending || acts[j].e in s.written
  {
    var init, last := acts[..|acts| - 1], acts[|acts| - 1];
    LegalPrefix(acts);
    RunPhaseAndPending(p, init);
    var s := Exec(p, init);
    if i == |init| {
      PushedIsThere(p, s.pending, last.e);
      j := i;
    } else {
      assert init[..i] == acts[..i];
      j := Carrier(p, init, i);
      assert init[..j] == acts[..j];
      var e := acts[j].e;
      if s.phase == Streaming && Counts(p, s.phase, last) && e !in s.written {
        PushKeepsOrReplaces(p, s.pending, last.e, e);
        if e !in Buffered(p.address, s.pending, last.e) {
          j := |init|;
        }
      }
    }
  }

  /** No loss across going live: once the buffer is flushed, every deliverable broadcast since linking
      has been written, or was replaced in the buffer by a later one of the same address that has. */
  lemma NoLoss(p: Policy, acts: seq<Action>, i: nat)
    requires Legal(acts) && PhaseAfter(acts) == Flushed
    requires i < |acts| && Deliverable(p, acts, i)
    ensures || acts[i].e in Exec(p, acts).written
            || exists j :: i < j < |acts| && Deliverable(p, acts, j) && PhaseAfter(acts[..j]) == Streaming &&
                           p.address(acts[j].e) == p.address(acts[i].e) && acts[j].e in Exec(p, acts).written
  {
    RunExactly(p, acts);
    var j := Carrier(p, acts, i);
  }

  /** Said of the events themselves: only a later version of the same subject takes a deliverable broadcast's place. */
  lemma NoSubjectIsLost(p: Policy, acts: seq<Action>, i: nat)
    requires Legal(acts) && PhaseAfter(acts) == Flushed && p.address == Address
    requires forall j :: 0 <= j < |acts| && acts[j].Broadcast? ==> PlainKeys(acts[j].e)
    requires i < |acts| && Deliverable(p, acts, i)
    ensures || acts[i].e in Exec(p, acts).written
            || exists j :: i < j < |acts| && Deliverable(p, acts, j) && SameSubject(acts[j].e, acts[i].e) &&
                           acts[j].e in Exec(p, acts).written
  {
    hide Address, SameSubject, PlainKeys;
    NoLoss(p, acts, i);
    if acts[i].e !in Exec(p, acts).written {
      var j :| i < j < |acts| && Deliverable(p, acts, j) && p.address(acts[j].e) == p.address(acts[i].e) &&
               acts[j].e in Exec(p, acts).written;
      SameAddressExactly(acts[j].e, acts[i].e);
    }
  }

  /** Nothing is written that was neither streamed from the store nor a forwarded broadcast. */
  lemma {:induction false} NothingInvented(p: Policy, acts: seq<Action>, e: Event)
    requires Legal(acts) && (e in Exec(p, acts).written || e in Exec(p, acts).pending)
    ensures exists i :: 0 <= i < |acts| && ((acts[i].StreamStored? && acts[i].e == e && !p.reduces(e)) ||
                                            (acts[i].Broadcast? && acts[i].e == e && p.forwards(e)))
  {
    if acts != [] {
      var init, last := acts[..|acts| - 1], acts[|acts| - 1];
      LegalPrefix(acts);
      if e in Exec(p, init).written || e in Exec(p, init).pending {
        NothingInvented(p, init, e);
        var i :| 0 <= i < |init| && ((init[i].StreamStored? && init[i].e == e && !p.reduces(e)) ||
                                     (init[i].Broadcast? && init[i].e == e && p.forwards(e)));
        assert acts[i] == init[i];
      } else {
        assert acts[|init|] == last;
        if (last.Broadcast? || last.StreamStored?) && last.e != e {
          PushedIsOnlyNew(p, Exec(p, init).pending, last.e, e);
        }
      }
    }
  }

  lemma {:induction false} PushedIsOnlyNew(p: Policy, pending: seq<Event>, e: Event, x: Event)
    requires x !in pending && x != e
    ensures x !in Buffered(p.address, pending, e)
  {
    if pending != [] {
      PushedIsOnlyNew(p, pending[1..], e, x);
    }
  }

  // ---- The methods take exactly these steps

  /** The connection's side: everything sent to the client. */
  class Writer {
    var written: seq<Event>
  }

  ghost function View(sub: S.Subscription, w: Writer, flushed: bool): Session
    reads sub, w
  {
    Session(if !sub.live then Streaming else if flushed then Flushed else Live, sub.pending, w.written)
  }

  /** The body of the broadcast loop for one subscription. */
  method BroadcastNewEvent(sub: S.Subscription, w: Writer, forwards: Event -> bool, e: Event, ghost flushed: bool)
    requires sub.Valid()
    modifies sub`pending, sub`addresses, w
    ensures sub.Valid()
    ensures forall p: Policy :: p.forwards(e) == forwards(e) && p.reduces(e) == sub.Reduces(e) && p.address == Address ==>
              View(sub, w, flushed) == Step(p, old(View(sub, w, flushed)), Broadcast(e))
  {
    if !forwards(e) {
      return;
    }
    if sub.live {
      w.written := w.written + [e];
    } else {
      sub.Push(e);
    }
  }

  method StreamEventsBuffered(sub: S.Subscription, w: Writer)
    requires sub.Valid() && sub.live
    modifies sub`pending, sub`addresses, w
    ensures sub.Valid()
    ensures forall p: Policy :: View(sub, w, true) == Step(p, old(View(sub, w, false)), Flush)
  {
    hide LatestBuffer.Corresponds, LatestBuffer.Buffered;
    var buffered := sub.GetPending();
    ghost var before := w.written;
    for i := 0 to |buffered|
      invariant w.written == before + buffered[..i]
      invariant sub.Valid() && sub.live && sub.pending == []
    {
      w.written := w.written + [buffered[i]];
      assert before + buffered[..i + 1] == (before + buffered[..i]) + [buffered[i]];
    }
    assert buffered[..|buffered|] == buffered;
  }
}
