/** Going live as it is interleaved (`server/ws/subscriptions.go`, `model/subscription.go`): a broadcast reads the live
    flag in one step and writes or pushes in another, and the flush takes the buffer in one step and writes it event by
    event. */
module SplitBroadcast {
  import opened Optional
  import opened Nostr
  import opened Seqs
  import opened LatestBuffer
  import G = GoLive
  import S = Subscription

  /** One broadcast to the subscription, with the live flag its check saw; the number tells equal events apart. */
  datatype Ticket = Ticket(number: nat, e: Event, live: bool)

  datatype Line = FromStore(e: Event) | Sent(ticket: Ticket)

  /** The steps of the handler (stored events, the switch, taking the buffer, writing it) and of broadcasts (the check of
      the flag, and what follows it). */
  datatype Action = Stored(e: Event) | Switch | Take | WriteNext | Check(t: Ticket) | Land(t: Ticket)

  datatype Policy = Policy(forwards: Event -> bool, reduces: Event -> bool, address: Event -> string)

  /** `early` and `late` list the broadcasts that have landed before and since the buffer was taken. */
  datatype Session = Session(live: bool, taken: bool, checked: set<Ticket>, early: seq<Ticket>, late: seq<Ticket>,
                             pending: seq<Ticket>, flushing: seq<Ticket>, written: seq<Line>)

  const START := Session(false, false, {}, [], [], [], [], [])

  predicate Enabled(p: Policy, s: Session, a: Action) {
    match a
    case Stored(_) => !s.live
    case Switch => !s.live
    case Take => s.live && !s.taken
    case WriteNext => s.flushing != []
    case Check(t) => p.forwards(t.e) && t.live == s.live && t !in s.checked
    case Land(t) => t in s.checked && t !in s.early + s.late
  }

  function Address(p: Policy): Ticket -> string {
    (t: Ticket) => p.address(t.e)
  }

  /** A broadcast that saw the flag unset and that the reducer lets in ends in the buffer. */
  function IsPush(p: Policy): Ticket -> bool {
    (t: Ticket) => !t.live && !p.reduces(t.e)
  }

  function Landing(p: Policy, s: Session, t: Ticket): Session {
    if t.live then s.(written := s.written + [Sent(t)])
    else if p.reduces(t.e) then s
    else s.(pending := Buffered(Address(p), s.pending, t))
  }

  function Step(p: Policy, s: Session, a: Action): Session
    requires Enabled(p, s, a)
  {
    match a
    case Stored(e) => if p.reduces(e) then s else s.(written := s.written + [FromStore(e)])
    case Switch => s.(live := true)
    case Take => s.(taken := true, flushing := s.pending, pending := [])
    case WriteNext => s.(written := s.written + [Sent(s.flushing[0])], flushing := s.flushing[1..])
    case Check(t) => s.(checked := s.checked + {t})
    case Land(t) =>
      var after := Landing(p, s, t);
      if s.taken then after.(late := s.late + [t]) else after.(early := s.early + [t])
  }

  /** The session after a sequence of steps, if each is enabled when its turn comes. */
  function Exec(p: Policy, acts: seq<Action>): Option<Session> {
    if acts == [] then Some(START)
    else
      var last := acts[|acts| - 1];
      match Exec(p, acts[..|acts| - 1])
      case Some(s) => if Enabled(p, s, last) then Some(Step(p, s, last)) else None
      case None => None
  }

  // ---- What every reachable session keeps

  function Pushes(p: Policy, tickets: seq<Ticket>): seq<Ticket> {
    Select(tickets, IsPush(p))
  }

  /** The written tickets that came out of the buffer. */
  function Flushed(written: seq<Line>): seq<Ticket> {
    if written == [] then []
    else
      var before, last := Flushed(written[..|written| - 1]), written[|written| - 1];
      if last.Sent? && !last.ticket.live then before + [last.ticket] else before
  }

  predicate NoRepeats(q: seq<Ticket>) {
    forall i, j :: 0 <= i < j < |q| ==> q[i] != q[j]
  }

  ghost predicate Landed(s: Session) {
    && NoRepeats(s.early + s.late)
    && (forall t :: t in s.early + s.late ==> t in s.checked)
    && (!s.taken ==> s.late == [])
    && (forall t: Ticket :: t.live ==> (Sent(t) in s.written <==> t in s.early + s.late))
  }

  ghost predicate Buffers(p: Policy, s: Session) {
    && s.pending == BufferAll(Address(p), Pushes(p, if s.taken then s.late else s.early))
    && Flushed(s.written) + s.flushing == if s.taken then BufferAll(Address(p), Pushes(p, s.early)) else []
  }

  ghost predicate Inv(p: Policy, s: Session) {
    Landed(s) && Buffers(p, s)
  }

  lemma FlushedSnoc(written: seq<Line>, line: Line)
    ensures Flushed(written + [line]) ==
            if line.Sent? && !line.ticket.live then Flushed(written) + [line.ticket] else Flushed(written)
  {
    assert (written + [line])[..|written|] == written;
  }

  lemma {:induction false} FlushedMembers(written: seq<Line>)
    ensures forall t :: t in Flushed(written) <==> !t.live && Sent(t) in written
  {
    if written != [] {
      var init, last := written[..|written| - 1], written[|written| - 1];
      assert written == init + [last];
      FlushedMembers(init);
    }
  }

  lemma PushSnoc(p: Policy, landed: seq<Ticket>, t: Ticket)
    ensures Pushes(p, landed + [t]) == if IsPush(p)(t) then Pushes(p, landed) + [t] else Pushes(p, landed)
    ensures IsPush(p)(t) ==>
              BufferAll(Address(p), Pushes(p, landed + [t])) ==
              Buffered(Address(p), BufferAll(Address(p), Pushes(p, landed)), t)
  {
    SelectConcat(landed, [t], IsPush(p));
    assert (Pushes(p, landed) + [t])[..|Pushes(p, landed)|] == Pushes(p, landed);
  }

  lemma LandKeepsLanded(p: Policy, s: Session, t: Ticket)
    requires Landed(s) && Enabled(p, s, Land(t))
    ensures Landed(Step(p, s, Land(t)))
  {
    var after := Step(p, s, Land(t));
    var all := s.early + s.late;
    assert after.early + after.late == all + [t];
  }

  lemma LandKeepsBuffers(p: Policy, s: Session, t: Ticket)
    requires Buffers(p, s) && Enabled(p, s, Land(t))
    ensures Buffers(p, Step(p, s, Land(t)))
  {
    PushSnoc(p, if s.taken then s.late else s.early, t);
    FlushedSnoc(s.written, Sent(t));
  }

  lemma StepKeepsLanded(p: Policy, s: Session, a: Action)
    requires Landed(s) && Enabled(p, s, a) && !a.Land?
    requires forall t :: t in s.flushing ==> !t.live
    ensures Landed(Step(p, s, a))
  {
  }

  lemma StepKeepsBuffers(p: Policy, s: Session, a: Action)
    requires Landed(s) && Buffers(p, s) && Enabled(p, s, a) && !a.Land?
    ensures Buffers(p, Step(p, s, a))
  {
    if a.WriteNext? {
      WriteKeepsBuffers(p, s);
    } else if a.Take? {
      TakeKeepsBuffers(p, s);
    } else {
      hide Select, BufferAll, Flushed, Landed;
      if a.Stored? {
        FlushedSnoc(s.written, FromStore(a.e));
      }
    }
  }

  lemma WriteKeepsBuffers(p: Policy, s: Session)
    requires Landed(s) && Buffers(p, s) && s.flushing != []
    ensures Buffers(p, Step(p, s, WriteNext))
  {
    var head := s.flushing[0];
    FlushingIsPushed(p, s);
    assert head in s.flushing && !head.live;
    hide Select, BufferAll, Flushed, Landed, Landing, Address, IsPush, Pushes, Buffers;
    FlushedSnoc(s.written, Sent(head));
    HeadMoves(Flushed(s.written), s.flushing);
    SameBuffers(p, s, Step(p, s, WriteNext));
  }

  lemma SameBuffers(p: Policy, s: Session, after: Session)
    requires Buffers(p, s) && after.taken == s.taken && after.early == s.early && after.late == s.late
    requires after.pending == s.pending && Flushed(after.written) + after.flushing == Flushed(s.written) + s.flushing
    ensures Buffers(p, after)
  {
    hide Select, BufferAll, Flushed, Address, IsPush, Pushes;
  }

  lemma HeadMoves(a: seq<Ticket>, b: seq<Ticket>)
    requires b != []
    ensures (a + [b[0]]) + b[1..] == a + b
  {
  }

  lemma TakeKeepsBuffers(p: Policy, s: Session)
    requires Landed(s) && Buffers(p, s) && s.live && !s.taken
    ensures Buffers(p, Step(p, s, Take))
  {
    NothingPushed(p);
    hide Select, BufferAll, Flushed;
  }

  lemma NothingPushed(p: Policy)
    ensures Pushes(p, []) == [] && BufferAll(Address(p), []) == []
  {
  }

  lemma BufferedOnly(p: Policy, tickets: seq<Ticket>)
    ensures forall t :: t in BufferAll(Address(p), tickets) ==> t in tickets
  {
    BufferHoldsLatest(Address(p), tickets);
  }

  lemma FlushingIsPushed(p: Policy, s: Session)
    requires Landed(s) && Buffers(p, s)
    ensures forall t :: t in s.flushing ==> !t.live
  {
    hide BufferAll;
    if s.taken {
      BufferedOnly(p, Pushes(p, s.early));
      SelectMembers(s.early, IsPush(p));
      forall t | t in s.flushing
        ensures !t.live
      {
        assert t in Flushed(s.written) + s.flushing;
      }
    }
  }

  lemma {:induction false} RunKeepsInv(p: Policy, acts: seq<Action>, s: Session)
    requires Exec(p, acts) == Some(s)
    ensures Inv(p, s)
  {
    hide Landed, Buffers, Enabled, Step;
    if acts == [] {
      StartIsSound(p);
    } else {
      var init, a := acts[..|acts| - 1], acts[|acts| - 1];
      var before := Exec(p, init).value;
      RunKeepsInv(p, init, before);
      if a.Land? {
        LandKeepsLanded(p, before, a.t);
        LandKeepsBuffers(p, before, a.t);
      } else {
        FlushingIsPushed(p, before);
        StepKeepsLanded(p, before, a);
        StepKeepsBuffers(p, before, a);
      }
    }
  }

  lemma StartIsSound(p: Policy)
    ensures Inv(p, START)
  {
  }

  // ---- No loss

  /** The buffer has been taken and written out, and every broadcast has landed. */
  predicate Quiet(s: Session) {
    s.taken && s.flushing == [] && forall t :: t in s.checked ==> t in s.early + s.late
  }

  /** A broadcast that is to reach the client. */
  predicate Due(p: Policy, t: Ticket) {
    t.live || !p.reduces(t.e)
  }

  predicate LandedAfter(s: Session, t: Ticket, u: Ticket) {
    var landed := s.early + s.late;
    exists i, j :: 0 <= i < j < |landed| && landed[i] == t && landed[j] == u
  }

  /** Written itself, or replaced in the buffer by a later push to the same address that was. */
  ghost predicate Delivered(p: Policy, s: Session, t: Ticket) {
    || Sent(t) in s.written
    || exists u :: LandedAfter(s, t, u) && IsPush(p)(t) && IsPush(p)(u) && p.address(u.e) == p.address(t.e) &&
                   Sent(u) in s.written
  }

  lemma {:induction false} SelectedInOrder(q: seq<Ticket>, keep: Ticket -> bool, i: nat, j: nat)
    returns (k: nat, l: nat)
    requires i < j < |Select(q, keep)|
    ensures k < l < |q| && q[k] == Select(q, keep)[i] && q[l] == Select(q, keep)[j]
  {
    if keep(q[0]) {
      if i == 0 {
        SelectMembers(q[1..], keep);
        assert Select(q[1..], keep)[j - 1] in Select(q[1..], keep);
        var m :| 0 <= m < |q[1..]| && q[1..][m] == Select(q[1..], keep)[j - 1];
        k, l := 0, m + 1;
      } else {
        k, l := SelectedInOrder(q[1..], keep, i - 1, j - 1);
        k, l := k + 1, l + 1;
      }
    } else {
      k, l := SelectedInOrder(q[1..], keep, i, j);
      k, l := k + 1, l + 1;
    }
  }

  /** A push that landed before the buffer was taken is delivered with it. */
  lemma EarlyPushIsDelivered(p: Policy, s: Session, t: Ticket)
    requires Inv(p, s) && Quiet(s) && t in s.early && IsPush(p)(t)
    ensures Delivered(p, s, t)
  {
    hide BufferAll, Select;
    var early := Pushes(p, s.early);
    SelectMembers(s.early, IsPush(p));
    var i :| 0 <= i < |early| && early[i] == t;
    PushedOrReplaced(Address(p), early, i);
    var j :| i <= j < |early| && Address(p)(early[j]) == Address(p)(early[i]) && early[j] in BufferAll(Address(p), early);
    FlushedMembers(s.written);
    assert Flushed(s.written) + [] == Flushed(s.written);
    var u := early[j];
    assert Sent(u) in s.written && u in early;
    if i < j {
      var k, l := SelectedInOrder(s.early, IsPush(p), i, j);
      assert (s.early + s.late)[k] == t && (s.early + s.late)[l] == u;
      assert LandedAfter(s, t, u);
    }
  }

  lemma WrittenPushIsEarly(p: Policy, s: Session, u: Ticket)
    requires Inv(p, s) && s.taken && IsPush(p)(u) && Sent(u) in s.written
    ensures u in s.early && u !in s.late
  {
    hide BufferAll, Select;
    SelectMembers(s.early, IsPush(p));
    BufferedOnly(p, Pushes(p, s.early));
    FlushedMembers(s.written);
    assert u in Flushed(s.written) + s.flushing;
    InOneHalf(s, u);
  }

  lemma AfterLateIsLate(s: Session, t: Ticket, u: Ticket)
    requires NoRepeats(s.early + s.late) && t in s.late && LandedAfter(s, t, u)
    ensures u in s.late
  {
    var landed := s.early + s.late;
    var i :| 0 <= i < |s.late| && s.late[i] == t;
    var k, l :| 0 <= k < l < |landed| && landed[k] == t && landed[l] == u;
    assert landed[|s.early| + i] == t;
    assert u == s.late[l - |s.early|];
  }

  /** A push that lands after the buffer was taken is never written, and nothing that replaced it is. */
  lemma LatePushIsLost(p: Policy, s: Session, t: Ticket)
    requires Inv(p, s) && s.taken && t in s.late && IsPush(p)(t)
    ensures !Delivered(p, s, t)
  {
    hide Inv, LandedAfter, IsPush;
    assert NoRepeats(s.early + s.late) by {
      LandedOnce(p, s);
    }
    forall u | IsPush(p)(u) && Sent(u) in s.written
      ensures u !in s.late
    {
      WrittenPushIsEarly(p, s, u);
    }
    forall u | LandedAfter(s, t, u)
      ensures u in s.late
    {
      AfterLateIsLate(s, t, u);
    }
  }

  lemma LandedOnce(p: Policy, s: Session)
    requires Inv(p, s)
    ensures NoRepeats(s.early + s.late)
  {
  }

  lemma InOneHalf(s: Session, u: Ticket)
    requires NoRepeats(s.early + s.late) && u in s.early
    ensures u !in s.late
  {
    var i :| 0 <= i < |s.early| && s.early[i] == u;
    assert (s.early + s.late)[i] == u;
    forall j | 0 <= j < |s.late|
      ensures s.late[j] != u
    {
      assert (s.early + s.late)[|s.early| + j] == s.late[j];
    }
  }

  /** Once everything has landed and the buffer is written: every broadcast that is due was written, or replaced by a
      later one that was, if and only if no push landed after the buffer was taken. So the only loss is a broadcast
      that reads the flag before the switch and pushes after the take. */
  lemma NoLossExactly(p: Policy, acts: seq<Action>, s: Session)
    requires Exec(p, acts) == Some(s) && Quiet(s)
    ensures (forall t :: t in s.checked && Due(p, t) ==> Delivered(p, s, t)) <==>
              forall t :: t in s.late ==> !IsPush(p)(t)
  {
    RunKeepsInv(p, acts, s);
    hide Exec, Delivered, Buffers;
    if forall t :: t in s.late ==> !IsPush(p)(t) {
      forall t | t in s.checked && Due(p, t)
        ensures Delivered(p, s, t)
      {
        if t.live {
          WrittenIsDelivered(p, s, t);
        } else {
          EarlyPushIsDelivered(p, s, t);
        }
      }
    } else {
      var t :| t in s.late && IsPush(p)(t);
      LatePushIsLost(p, s, t);
      assert t in s.early + s.late;
    }
  }

  lemma WrittenIsDelivered(p: Policy, s: Session, t: Ticket)
    requires Sent(t) in s.written
    ensures Delivered(p, s, t)
  {
  }

  /** Nothing is sent that was not a forwarded broadcast. */
  lemma NothingSentUnchecked(p: Policy, acts: seq<Action>, s: Session, t: Ticket)
    requires Exec(p, acts) == Some(s) && Sent(t) in s.written
    ensures t in s.checked
  {
    RunKeepsInv(p, acts, s);
    if !t.live {
      hide BufferAll, Select;
      FlushedMembers(s.written);
      SelectMembers(s.early, IsPush(p));
      BufferedOnly(p, Pushes(p, s.early));
      assert t in Flushed(s.written) + s.flushing;
      assert t in s.early + s.late;
    }
  }

  /** The shortest loss: a broadcast reads the flag, the handler switches and takes the empty buffer, and the broadcast
      pushes. */
  lemma ShortestLoss(p: Policy, e: Event) returns (acts: seq<Action>, s: Session)
    requires p.forwards(e) && !p.reduces(e)
    ensures Exec(p, acts) == Some(s) && Quiet(s) && s.checked == {Ticket(0, e, false)}
    ensures s.written == [] && s.pending == [Ticket(0, e, false)]
  {
    var t := Ticket(0, e, false);
    acts := [Check(t), Switch, Take, Land(t)];
    assert [] + [Check(t)] == [Check(t)] && [Check(t)] + [Switch] == [Check(t), Switch];
    assert [Check(t), Switch] + [Take] == [Check(t), Switch, Take] && [Check(t), Switch, Take] + [Land(t)] == acts;
    hide Exec;
    NothingRun(p);
    RunSnoc(p, [], START, Check(t));
    var s1 := Step(p, START, Check(t));
    RunSnoc(p, [Check(t)], s1, Switch);
    var s2 := Step(p, s1, Switch);
    RunSnoc(p, [Check(t), Switch], s2, Take);
    var s3 := Step(p, s2, Take);
    RunSnoc(p, [Check(t), Switch, Take], s3, Land(t));
    s := Step(p, s3, Land(t));
  }

  lemma NothingRun(p: Policy)
    ensures Exec(p, []) == Some(START)
  {
  }

  lemma RunSnoc(p: Policy, acts: seq<Action>, s: Session, a: Action)
    requires Exec(p, acts) == Some(s) && Enabled(p, s, a)
    ensures Exec(p, acts + [a]) == Some(Step(p, s, a))
  {
    assert (acts + [a])[..|acts|] == acts;
  }

  // ---- The stored events come first

  /** The stored events of a run that the reducer lets in, in order. */
  function LetIn(p: Policy, acts: seq<Action>): seq<Line> {
    if acts == [] then []
    else
      var before, last := LetIn(p, acts[..|acts| - 1]), acts[|acts| - 1];
      if last.Stored? && !p.reduces(last.e) then before + [FromStore(last.e)] else before
  }

  /** Nothing is sent before the switch. */
  ghost predicate Waits(s: Session) {
    && (s.taken ==> s.live) && (s.flushing != [] ==> s.taken)
    && (!s.live ==> forall t :: t in s.checked ==> !t.live)
  }

  /** What is written in any interleaving begins with exactly the stored events let in, in order, and everything after
      them was broadcast. */
  lemma {:induction false} StoredComeFirst(p: Policy, acts: seq<Action>, s: Session)
    requires Exec(p, acts) == Some(s)
    ensures LetIn(p, acts) <= s.written && forall i :: |LetIn(p, acts)| <= i < |s.written| ==> s.written[i].Sent?
    ensures Waits(s) && (!s.live ==> s.written == LetIn(p, acts))
  {
    if acts != [] {
      StoredComeFirst(p, acts[..|acts| - 1], Exec(p, acts[..|acts| - 1]).value);
    }
  }

  // ---- The second half of the broadcast loop takes exactly the landing step

  function Events(tickets: seq<Ticket>): seq<Event> {
    if tickets == [] then [] else [tickets[0].e] + Events(tickets[1..])
  }

  function LineEvents(written: seq<Line>): seq<Event> {
    if written == [] then []
    else
      var last := written[|written| - 1];
      LineEvents(written[..|written| - 1]) + [if last.Sent? then last.ticket.e else last.e]
  }

  /** The subscription and its writer show a session, numbers aside. */
  ghost predicate Shows(p: Policy, sub: S.Subscription, w: G.Writer, s: Session)
    reads sub, w
  {
    && sub.Valid() && p.address == Nostr.Address && (forall e :: p.reduces(e) == sub.Reduces(e))
    && sub.pending == Events(s.pending) && w.written == LineEvents(s.written)
  }

  lemma {:induction false} BufferedForgets(p: Policy, pending: seq<Ticket>, t: Ticket)
    ensures Events(Buffered(Address(p), pending, t)) == Buffered(p.address, Events(pending), t.e)
  {
    if pending == [] {
      assert [t][1..] == [];
    } else if p.address(pending[0].e) != p.address(t.e) {
      BufferedForgets(p, pending[1..], t);
      var rest := Buffered(Address(p), pending[1..], t);
      assert ([pending[0]] + rest)[1..] == rest;
    } else {
      assert ([t] + pending[1..])[1..] == pending[1..];
    }
  }

  method LandBroadcast(sub: S.Subscription, w: G.Writer, t: Ticket, ghost p: Policy, ghost s: Session)
    requires Shows(p, sub, w, s) && Enabled(p, s, Land(t))
    modifies sub`pending, sub`addresses, w
    ensures Shows(p, sub, w, Step(p, s, Land(t)))
  {
    hide Buffered, Nostr.Address;
    if t.live {
      w.written := w.written + [t.e];
      assert (s.written + [Sent(t)])[..|s.written|] == s.written;
    } else {
      sub.Push(t.e);
      BufferedForgets(p, s.pending, t);
    }
  }
}
