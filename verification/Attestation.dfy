/** On-behalf access: the attestation tags of a master key, their validator
    (`validation/validation_icip_2000.go`) and the access decision (`model/onbehalf.go`). */
module Attestation {
  import opened Optional
  import opened Nostr
  import opened AttestationString
  import W = AttestationWords

  datatype Action = Active | Inactive | Revoked | Unknown(name: string)

  datatype Act = Act(action: Action, ts: int, kinds: seq<int>)

  function ActionOf(name: string): Action {
    if name == "active" then Active
    else if name == "inactive" then Inactive
    else if name == "revoked" then Revoked
    else Unknown(name)
  }

  /** The actions that may follow each action for one device. */
  function Successors(a: Action): set<Action> {
    match a
    case Active => {Revoked, Inactive}
    case Inactive => {Active, Revoked}
    case Revoked => {}
    case Unknown(_) => {}
  }

  function ParseAct(s: string): Option<Act> {
    match ParseAttestationString(s)
    case Some(a) => Some(Act(ActionOf(a.action), a.ts, a.kinds))
    case None => None
  }

  // ---- A device's history

  /** What a tag means here: nothing, an attestation with too few fields, or an attestation, which may
      not parse. */
  datatype Item = Other | Short | Attest(device: string, parsed: Option<Act>)

  function ItemOf(tag: Tag): Item {
    if Key(tag) != "p" then Other
    else if |tag| < 4 then Short
    else Attest(tag[1], ParseAct(tag[3]))
  }

  function Items(tags: seq<Tag>): (items: seq<Item>)
    ensures |items| == |tags|
  {
    seq(|tags|, i requires 0 <= i < |tags| => ItemOf(tags[i]))
  }

  /** The attestations of one device, in tag order. */
  function History(items: seq<Item>, device: string): seq<Act> {
    if items == [] then []
    else
      var before, item := History(items[..|items| - 1], device), items[|items| - 1];
      if item.Attest? && item.device == device && item.parsed.Some? then before + [item.parsed.value] else before
  }

  predicate Follows(a: Act, b: Act) {
    b.action in Successors(a.action) && a.ts <= b.ts
  }

  /** A path in the transition graph with non-decreasing times; it may start anywhere. */
  predicate WellFormedPath(path: seq<Act>) {
    && (forall i :: 0 <= i < |path| ==> !path[i].action.Unknown?)
    && (forall i :: 0 < i < |path| ==> Follows(path[i - 1], path[i]))
  }

  predicate WellFormedItem(item: Item, owner: string) {
    item.Other? || (item.Attest? && item.device != "" && item.device != owner && item.parsed.Some?)
  }

  /** What the validator is to accept: well-formed tags whose every device has a well-formed history. */
  ghost predicate Accepted(items: seq<Item>, owner: string) {
    && (forall i :: 0 <= i < |items| ==> WellFormedItem(items[i], owner))
    && (forall device :: WellFormedPath(History(items, device)))
  }

  // ---- The validator

  datatype Error = InvalidFormat | InvalidPubkey | Unparsable | UnknownAction | InvalidTransition | InvalidTemporalOrder

  /** What is wrong with the next attestation of a device with the given history. */
  function BadNext(history: seq<Act>, a: Act): Option<Error> {
    if a.action.Unknown? then Some(UnknownAction)
    else if history == [] then None
    else
      var last := history[|history| - 1];
      if a.action !in Successors(last.action) then Some(InvalidTransition)
      else if last.ts > a.ts then Some(InvalidTemporalOrder)
      else None
  }

  function Fault(items: seq<Item>, item: Item, owner: string): Option<Error> {
    match item
    case Other => None
    case Short => Some(InvalidFormat)
    case Attest(device, parsed) =>
      if device == "" || device == owner then Some(InvalidPubkey)
      else if parsed.None? then Some(Unparsable)
      else BadNext(History(items, device), parsed.value)
  }

  lemma PathStep(path: seq<Act>, a: Act)
    ensures WellFormedPath(path + [a]) <==> WellFormedPath(path) && BadNext(path, a) == None
  {
    var longer := path + [a];
    if WellFormedPath(longer) {
      assert forall i :: 0 <= i < |path| ==> longer[i] == path[i];
      assert longer[|path|] == a;
      assert path != [] ==> Follows(longer[|path| - 1], longer[|path|]);
    }
  }

  lemma HistoryStep(items: seq<Item>, item: Item, d: string)
    ensures History(items + [item], d) ==
            if item.Attest? && item.device == d && item.parsed.Some? then History(items, d) + [item.parsed.value]
            else History(items, d)
  {
    assert (items + [item])[..|items|] == items;
  }

  /** Acceptance one tag at a time. */
  lemma AcceptedStep(items: seq<Item>, item: Item, owner: string)
    ensures Accepted(items + [item], owner) <==> Accepted(items, owner) && Fault(items, item, owner) == None
  {
    hide History, WellFormedPath;
    var all := items + [item];
    assert forall i :: 0 <= i < |items| ==> all[i] == items[i];
    assert all[|items|] == item;
    forall d
      ensures WellFormedPath(History(all, d)) <==>
                && WellFormedPath(History(items, d))
                && (item.Attest? && item.device == d && item.parsed.Some? ==>
                      BadNext(History(items, d), item.parsed.value) == None)
    {
      HistoryStep(items, item, d);
      if item.Attest? && item.device == d && item.parsed.Some? {
        PathStep(History(items, d), item.parsed.value);
      }
    }
    if Accepted(all, owner) {
      assert WellFormedItem(all[|items|], owner);
    }
  }

  lemma {:induction false} AcceptedPrefix(items: seq<Item>, owner: string, n: nat)
    requires n <= |items| && Accepted(items, owner)
    ensures Accepted(items[..n], owner)
    decreases |items|
  {
    if n == |items| {
      assert items[..n] == items;
    } else {
      var init := items[..|items| - 1];
      assert init + [items[|items| - 1]] == items;
      AcceptedStep(init, items[|items| - 1], owner);
      AcceptedPrefix(init, owner, n);
      assert init[..n] == items[..n];
    }
  }

  /** The last action and time of each device seen so far: the validator's `keys` map. */
  ghost predicate Remembers(states: map<string, (Action, int)>, items: seq<Item>) {
    forall d ::
      var h := History(items, d);
      && (d in states <==> h != [])
      && (h != [] ==> states[d] == (h[|h| - 1].action, h[|h| - 1].ts))
  }

  /** The checks made on one tag. */
  method CheckItem(states: map<string, (Action, int)>, item: Item, owner: string, ghost items: seq<Item>)
    returns (err: Option<Error>, states': map<string, (Action, int)>)
    requires Remembers(states, items) && Accepted(items, owner)
    ensures err == Fault(items, item, owner)
    ensures err.None? ==> Remembers(states', items + [item])
  {
    hide History, Remembers;
    states' := states;
    match item {
      case Other =>
        NothingNew(states, items, item);
        return None, states;
      case Short =>
        return Some(InvalidFormat), states;
      case Attest(device, parsed) =>
        LastRemembered(states, items, device);
        if device == "" || device == owner {
          return Some(InvalidPubkey), states;
        }
        if parsed.None? {
          return Some(Unparsable), states;
        }
        var a := parsed.value;
        if a.action.Unknown? {
          return Some(UnknownAction), states;
        }
        assert WellFormedPath(History(items, device));
        if device in states {
          var (name, ts) := states[device];
          if a.action !in Successors(name) {
            return Some(InvalidTransition), states;
          } else if ts > a.ts {
            return Some(InvalidTemporalOrder), states;
          }
        }
        states' := states[device := (a.action, a.ts)];
        NewRemembered(states, items, item);
        err := None;
    }
  }

  lemma LastRemembered(states: map<string, (Action, int)>, items: seq<Item>, d: string)
    requires Remembers(states, items)
    ensures var h := History(items, d);
            (d in states <==> h != []) && (h != [] ==> states[d] == (h[|h| - 1].action, h[|h| - 1].ts))
  {
  }

  lemma NothingNew(states: map<string, (Action, int)>, items: seq<Item>, item: Item)
    requires Remembers(states, items) && item.Other?
    ensures Remembers(states, items + [item])
  {
    hide History;
    forall d
      ensures History(items + [item], d) == History(items, d)
    {
      HistoryStep(items, item, d);
    }
  }

  lemma NewRemembered(states: map<string, (Action, int)>, items: seq<Item>, item: Item)
    requires Remembers(states, items) && item.Attest? && item.parsed.Some?
    ensures Remembers(states[item.device := (item.parsed.value.action, item.parsed.value.ts)], items + [item])
  {
    hide History;
    forall d
      ensures History(items + [item], d) == if d == item.device then History(items, d) + [item.parsed.value] else History(items, d)
    {
      HistoryStep(items, item, d);
    }
  }

  /** The single pass over the tags, remembering only each device's last action and time: it accepts
      exactly the accepted lists, and otherwise reports the fault of the first tag at which they stop
      being so. */
  method ValidateAttestationEvent(tags: seq<Tag>, owner: string) returns (err: Option<Error>)
    ensures err.None? <==> Accepted(Items(tags), owner)
    ensures err.Some? ==> exists i :: 0 <= i < |tags| && Accepted(Items(tags)[..i], owner) &&
                            Fault(Items(tags)[..i], Items(tags)[i], owner) == err
    ensures err.None? <==> W.InOrder(tags, owner)
    ensures forall i :: 0 <= i < |tags| && Accepted(Items(tags)[..i], owner) &&
                        Fault(Items(tags)[..i], Items(tags)[i], owner) != None ==>
              err == Fault(Items(tags)[..i], Items(tags)[i], owner)
  {
    hide W.InOrder, Accepted, Fault, Remembers;
    NothingRemembered(owner);

    var states: map<string, (Action, int)> := map[];
    ghost var items := Items(tags);
    assert items[..0] == [];
    for i := 0 to |tags|
      invariant Accepted(items[..i], owner)
      invariant Remembers(states, items[..i])
    {
      assert items[..i + 1] == items[..i] + [items[i]];
      AcceptedStep(items[..i], items[i], owner);
      err, states := CheckItem(states, ItemOf(tags[i]), owner, items[..i]);
      if err.Some? {
        FaultAt(tags, owner, i);
        return;
      }
    }
    assert items[..|tags|] == items;
    NoFault(tags, owner);
    return None;
  }

  // ---- The access records

  datatype Entry = Entry(start: Option<int>, end: Option<int>, revoked: Option<int>, kinds: seq<int>)

  const NO_ACCESS := Entry(None, None, None, [])

  function Apply(entry: Entry, a: Act): Entry {
    if a.action == Revoked then entry.(revoked := Some(a.ts))
    else if a.action == Active then entry.(start := Some(a.ts), end := None, kinds := a.kinds)
    else if a.action == Inactive then entry.(end := Some(a.ts))
    else entry
  }

  function EntryOf(history: seq<Act>): Entry {
    if history == [] then NO_ACCESS else Apply(EntryOf(history[..|history| - 1]), history[|history| - 1])
  }

  predicate Parses(items: seq<Item>) {
    forall i :: 0 <= i < |items| && items[i].Attest? ==> items[i].parsed.Some?
  }

  /** What `ParseAttestationTags` returns for tags that parse. */
  ghost predicate Records(items: seq<Item>, records: map<string, Entry>) {
    forall d ::
      var h := History(items, d);
      (d in records <==> h != []) && (h != [] ==> records[d] == EntryOf(h))
  }

  lemma SkipItem(items: seq<Item>, item: Item, records: map<string, Entry>)
    requires Records(items, records) && !item.Attest?
    ensures Records(items + [item], records)
  {
    assert (items + [item])[..|items|] == items;
  }

  lemma RecordItem(items: seq<Item>, device: string, a: Act, records: map<string, Entry>)
    requires Records(items, records)
    ensures var entry := if device in records then records[device] else NO_ACCESS;
            Records(items + [Attest(device, Some(a))], records[device := Apply(entry, a)])
  {
    var all := items + [Attest(device, Some(a))];
    assert all[..|items|] == items;
    var h := History(items, device);
    assert History(all, device) == h + [a];
    assert (h + [a])[..|h|] == h;
    var entry := if device in records then records[device] else NO_ACCESS;
    forall d
      ensures var g := History(all, d); var after := records[device := Apply(entry, a)];
              (d in after <==> g != []) && (g != [] ==> after[d] == EntryOf(g))
    {
      if d != device {
        assert History(all, d) == History(items, d);
      }
    }
  }

  /** One entry per device that has attestations: what its history amounts to. None is a parse error. */
  method ParseAttestationTags(tags: seq<Tag>) returns (records: Option<map<string, Entry>>)
    ensures records.Some? <==> Parses(Items(tags))
    ensures records.Some? ==> Records(Items(tags), records.value)
  {
    var found: map<string, Entry> := map[];
    ghost var items := Items(tags);
    for i := 0 to |tags|
      invariant Parses(items[..i])
      invariant Records(items[..i], found)
    {
      var tag := tags[i];
      assert items[..i + 1] == items[..i] + [items[i]] && items[i] == ItemOf(tag);
      if |tag| < 4 || Key(tag) != "p" {
        SkipItem(items[..i], items[i], found);
        continue;
      }
      var parsed := ParseAct(tag[3]);
      if parsed.None? {
        return None;
      }
      RecordItem(items[..i], tag[1], parsed.value, found);
      var entry := if tag[1] in found then found[tag[1]] else NO_ACCESS;
      found := found[tag[1] := Apply(entry, parsed.value)];
    }
    assert items[..|tags|] == items;
    return Some(found);
  }

  // ---- The decision

  datatype Decision = Allowed | Forbidden | NotFound | IsRevoked | Expired | NotActive

  function IsAccessAllowed(records: map<string, Entry>, device: string, kind: int, now: int): Decision {
    if kind == KIND_ATTESTATION then Forbidden
    else if device !in records then NotFound
    else
      var r := records[device];
      if r.revoked.Some? && r.revoked.value <= now then IsRevoked
      else if r.end.Some? && r.end.value < now then Expired
      else if r.start.None? then NotFound
      else if now < r.start.value then NotActive
      else if kind >= 0 && |r.kinds| > 0 && kind !in r.kinds then Forbidden
      else Allowed
  }

  predicate Permits(kinds: seq<int>, kind: int) {
    kind < 0 || kinds == [] || kind in kinds
  }

  /** The device's latest activation. */
  predicate LastActive(path: seq<Act>, i: int) {
    0 <= i < |path| && path[i].action == Active && forall j :: i < j < |path| ==> path[j].action != Active
  }

  /** What the latest activation says at any time: it has begun and permits the kind, it has not ended before now, and
      no revocation has taken effect. Activations before it count for nothing. */
  ghost predicate GrantedAt(path: seq<Act>, kind: int, now: int) {
    && kind != KIND_ATTESTATION
    && exists i :: && LastActive(path, i)
                   && path[i].ts <= now && Permits(path[i].kinds, kind)
                   && (forall j :: i < j < |path| && path[j].action == Inactive ==> now <= path[j].ts)
                   && (forall j :: i < j < |path| && path[j].action == Revoked ==> now < path[j].ts)
  }

  lemma WellFormedInit(path: seq<Act>)
    requires WellFormedPath(path) && path != []
    ensures WellFormedPath(path[..|path| - 1])
    ensures |path| > 1 ==> Follows(path[|path| - 2], path[|path| - 1])
  {
    assert forall i :: 0 < i < |path| - 1 ==> Follows(path[i - 1], path[i]);
  }

  lemma {:induction false} EntryRevoked(path: seq<Act>)
    requires WellFormedPath(path)
    ensures EntryOf(path).revoked ==
            if path != [] && path[|path| - 1].action == Revoked then Some(path[|path| - 1].ts) else None
  {
    if path != [] {
      WellFormedInit(path);
      EntryRevoked(path[..|path| - 1]);
    }
  }

  lemma {:induction false} EntryNeverActive(path: seq<Act>)
    requires forall i :: 0 <= i < |path| ==> path[i].action != Active
    ensures EntryOf(path).start == None
  {
    if path != [] {
      EntryNeverActive(path[..|path| - 1]);
    }
  }

  lemma NextAction(path: seq<Act>, i: int)
    requires WellFormedPath(path) && 0 <= i < |path| - 1
    ensures path[i + 1].action in Successors(path[i].action)
    ensures path[i].ts <= path[i + 1].ts
  {
    assert Follows(path[i], path[i + 1]);
  }

  /** After a device's latest activation it can be deactivated at most once, and then only revoked. */
  lemma TailAfterActivation(path: seq<Act>, i: int)
    requires WellFormedPath(path) && LastActive(path, i)
    ensures i >= |path| - 3
    ensures i == |path| - 2 ==> path[i + 1].action in {Inactive, Revoked}
    ensures i == |path| - 3 ==> path[i + 1].action == Inactive && path[i + 2].action == Revoked
  {
    if i < |path| - 1 {
      NextAction(path, i);
    }
    if i < |path| - 2 {
      NextAction(path, i + 1);
    }
    if i < |path| - 3 {
      NextAction(path, i + 2);
    }
  }

  lemma {:induction false} EntryAfterActivation(path: seq<Act>, i: int)
    requires WellFormedPath(path) && LastActive(path, i)
    ensures var r := EntryOf(path);
            && r.start == Some(path[i].ts) && r.kinds == path[i].kinds
            && r.end == if i + 1 < |path| && path[i + 1].action == Inactive then Some(path[i + 1].ts) else None
  {
    TailAfterActivation(path, i);
    if i < |path| - 1 {
      WellFormedInit(path);
      EntryAfterActivation(path[..|path| - 1], i);
    }
  }

  /** The record kept for a well-formed history gives the right answer at every time. */
  lemma EntryDecides(records: map<string, Entry>, device: string, path: seq<Act>, kind: int,
                                        now: int)
    requires WellFormedPath(path)
    requires (device in records <==> path != []) && (path != [] ==> records[device] == EntryOf(path))
    ensures IsAccessAllowed(records, device, kind, now) == Allowed <==> GrantedAt(path, kind, now)
  {
    hide EntryOf, WellFormedPath;
    if path != [] {
      EntryRevoked(path);
      if i :| LastActive(path, i) {
        EntryAfterActivation(path, i);
        TailAfterActivation(path, i);
      } else {
        NeverActive(path);
        EntryNeverActive(path);
      }
    }
  }

  lemma {:induction false} NeverActive(path: seq<Act>)
    requires forall i :: !LastActive(path, i)
    ensures forall i :: 0 <= i < |path| ==> path[i].action != Active
  {
    if path != [] {
      var init := path[..|path| - 1];
      assert !LastActive(path, |path| - 1);
      forall i
        ensures !LastActive(init, i)
      {
        if LastActive(init, i) {
          assert LastActive(path, i);
        }
      }
      NeverActive(init);
      assert forall i :: 0 <= i < |init| ==> path[i] == init[i];
    }
  }

  // ---- Main results

  /** The access decision reads the latest activation in the device's own history: for any accepted tag list, device,
      kind and time. */
  lemma DecisionReadsLatest(items: seq<Item>, owner: string, records: map<string, Entry>,
                                            device: string, kind: int, now: int)
    requires Accepted(items, owner) && Records(items, records)
    ensures IsAccessAllowed(records, device, kind, now) == Allowed <==> GrantedAt(History(items, device), kind, now)
  {
    hide IsAccessAllowed;
    EntryDecides(records, device, History(items, device), kind, now);
  }

  // ---- Replaying a history up to a time

  /** The last action at or before a time. */
  function LastBy(path: seq<Act>, now: int): Option<Act> {
    if path == [] then None
    else if path[|path| - 1].ts <= now then Some(path[|path| - 1])
    else LastBy(path[..|path| - 1], now)
  }

  /** The replay: at any time the last action up to then decides, with the kinds it permits. */
  predicate Replayed(path: seq<Act>, kind: int, now: int) {
    match LastBy(path, now)
    case Some(a) => a.action == Active && Permits(a.kinds, kind) && kind != KIND_ATTESTATION
    case None => false
  }

  /** A time in an activation that ended before the latest one began. */
  ghost predicate Forgotten(path: seq<Act>, now: int) {
    exists k, i :: 0 <= k < i && LastActive(path, i) && path[k].action == Active && path[k].ts <= now < path[k + 1].ts
  }

  /** The very second of the latest deactivation, unless revoked by then. */
  ghost predicate Lingers(path: seq<Act>, now: int) {
    exists i :: && LastActive(path, i) && i + 1 < |path| && path[i + 1].action == Inactive && path[i + 1].ts == now
                && (i + 2 < |path| ==> now < path[i + 2].ts)
  }

  lemma {:induction false} TimesAscend(path: seq<Act>, i: int, j: int)
    requires WellFormedPath(path) && 0 <= i <= j < |path|
    ensures path[i].ts <= path[j].ts
    decreases j - i
  {
    if i < j {
      NextAction(path, i);
      TimesAscend(path, i + 1, j);
    }
  }

  /** Where a time falls in a history: -1 before it begins. */
  lemma {:induction false} PositionAt(path: seq<Act>, now: int) returns (k: int)
    requires WellFormedPath(path)
    ensures -1 <= k < |path|
    ensures LastBy(path, now) == if k < 0 then None else Some(path[k])
    ensures forall j :: 0 <= j < |path| ==> (path[j].ts <= now <==> j <= k)
  {
    if path == [] {
      k := -1;
    } else if path[|path| - 1].ts <= now {
      k := |path| - 1;
      forall j | 0 <= j < |path|
        ensures path[j].ts <= now
      {
        TimesAscend(path, j, |path| - 1);
      }
    } else {
      WellFormedInit(path);
      k := PositionAt(path[..|path| - 1], now);
    }
  }

  lemma OneLastActive(path: seq<Act>, i: int, j: int)
    requires LastActive(path, i) && LastActive(path, j)
    ensures i == j
  {
  }

  /** What the replay says, once the time is located. */
  lemma ReplayedAt(path: seq<Act>, kind: int, now: int, k: int)
    requires -1 <= k < |path| && LastBy(path, now) == if k < 0 then None else Some(path[k])
    ensures Replayed(path, kind, now) <==>
              k >= 0 && path[k].action == Active && Permits(path[k].kinds, kind) && kind != KIND_ATTESTATION
  {
  }

  /** What the latest activation says, once the time is located. */
  lemma GrantedWhen(path: seq<Act>, kind: int, now: int, i: int)
    requires LastActive(path, i)
    ensures GrantedAt(path, kind, now) <==>
              && kind != KIND_ATTESTATION && path[i].ts <= now && Permits(path[i].kinds, kind)
              && (forall j :: i < j < |path| && path[j].action == Inactive ==> now <= path[j].ts)
              && (forall j :: i < j < |path| && path[j].action == Revoked ==> now < path[j].ts)
  {
    if GrantedAt(path, kind, now) {
      var h :| && LastActive(path, h)
               && path[h].ts <= now && Permits(path[h].kinds, kind)
               && (forall j :: h < j < |path| && path[j].action == Inactive ==> now <= path[j].ts)
               && (forall j :: h < j < |path| && path[j].action == Revoked ==> now < path[j].ts);
      OneLastActive(path, h, i);
    }
  }

  /** The latest activation and the replay say the same on all kinds exactly at the times that are neither forgotten
      nor linger. */
  lemma LatestIsReplayExactly(path: seq<Act>, now: int)
    requires WellFormedPath(path)
    ensures (forall kind :: GrantedAt(path, kind, now) <==> Replayed(path, kind, now)) <==>
              !Forgotten(path, now) && !Lingers(path, now)
  {
    hide GrantedAt, Replayed, Forgotten, Lingers, LastBy, WellFormedPath;
    if i :| LastActive(path, i) {
      var k := PositionAt(path, now);
      if k < i {
        BeforeLatest(path, now, i, k);
      } else {
        SinceLatest(path, now, i, k);
      }
    } else {
      NeverActivated(path, now);
    }
  }

  lemma NeverActivated(path: seq<Act>, now: int)
    requires WellFormedPath(path) && forall i :: !LastActive(path, i)
    ensures forall kind :: !GrantedAt(path, kind, now) && !Replayed(path, kind, now)
    ensures !Forgotten(path, now) && !Lingers(path, now)
  {
    var k := PositionAt(path, now);
    hide LastBy, WellFormedPath;
    NeverActive(path);
  }

  lemma BeforeLatest(path: seq<Act>, now: int, i: int, k: int)
    requires WellFormedPath(path) && LastActive(path, i) && -1 <= k < i
    requires LastBy(path, now) == if k < 0 then None else Some(path[k])
    requires forall j :: 0 <= j < |path| ==> (path[j].ts <= now <==> j <= k)
    ensures !Lingers(path, now)
    ensures Forgotten(path, now) <==> k >= 0 && path[k].action == Active
    ensures (forall kind :: GrantedAt(path, kind, now) <==> Replayed(path, kind, now)) <==> !Forgotten(path, now)
  {
    hide GrantedAt, Replayed, LastBy, WellFormedPath;
    if Lingers(path, now) {
      var h :| LastActive(path, h) && h + 1 < |path| && path[h + 1].ts == now;
      OneLastActive(path, h, i);
    }
    if Forgotten(path, now) {
      var l, h :| 0 <= l < h && LastActive(path, h) && path[l].action == Active && path[l].ts <= now < path[l + 1].ts;
      OneLastActive(path, h, i);
      assert l <= k && !(l + 1 <= k);
    }
    if k >= 0 && path[k].action == Active {
      assert path[k].ts <= now < path[k + 1].ts;
    }
    forall kind
      ensures !GrantedAt(path, kind, now)
      ensures Replayed(path, kind, now) <==>
                k >= 0 && path[k].action == Active && Permits(path[k].kinds, kind) && kind != KIND_ATTESTATION
    {
      GrantedWhen(path, kind, now, i);
      ReplayedAt(path, kind, now, k);
    }
    if k >= 0 && path[k].action == Active {
      assert Replayed(path, -1, now);
    }
  }

  lemma SinceLatest(path: seq<Act>, now: int, i: int, k: int)
    requires WellFormedPath(path) && LastActive(path, i) && i <= k < |path|
    requires LastBy(path, now) == Some(path[k])
    requires forall j :: 0 <= j < |path| ==> (path[j].ts <= now <==> j <= k)
    ensures !Forgotten(path, now)
    ensures (forall kind :: GrantedAt(path, kind, now) <==> Replayed(path, kind, now)) <==> !Lingers(path, now)
  {
    hide GrantedAt, Replayed, LastBy, WellFormedPath;
    TailAfterActivation(path, i);
    NotForgottenSince(path, now, i, k);
    var lingers := i + 1 < |path| && path[i + 1].action == Inactive && path[i + 1].ts == now && k == i + 1;
    LingersWhen(path, now, i, k);
    forall kind
      ensures GrantedAt(path, kind, now) <==> (k == i || lingers) && Permits(path[i].kinds, kind) && kind != KIND_ATTESTATION
      ensures Replayed(path, kind, now) <==> k == i && Permits(path[i].kinds, kind) && kind != KIND_ATTESTATION
    {
      GrantedWhen(path, kind, now, i);
      ReplayedAt(path, kind, now, k);
    }
    if lingers {
      assert GrantedAt(path, -1, now);
    }
  }

  lemma NotForgottenSince(path: seq<Act>, now: int, i: int, k: int)
    requires LastActive(path, i) && i <= k < |path| && forall j :: 0 <= j < |path| ==> (path[j].ts <= now <==> j <= k)
    ensures !Forgotten(path, now)
  {
    forall h | LastActive(path, h)
      ensures h == i
    {
      OneLastActive(path, h, i);
    }
  }

  lemma LingersWhen(path: seq<Act>, now: int, i: int, k: int)
    requires LastActive(path, i) && i <= k < |path| && forall j :: 0 <= j < |path| ==> (path[j].ts <= now <==> j <= k)
    ensures Lingers(path, now) <==>
              i + 1 < |path| && path[i + 1].action == Inactive && path[i + 1].ts == now && k == i + 1
  {
    if Lingers(path, now) {
      var h :| && LastActive(path, h) && h + 1 < |path| && path[h + 1].action == Inactive && path[h + 1].ts == now
               && (h + 2 < |path| ==> now < path[h + 2].ts);
      OneLastActive(path, h, i);
    }
  }

  /** The access decision is the replay of the device's actions up to the time asked about, for every kind, exactly at
      the times that are neither forgotten nor linger. */
  lemma DecisionIsReplayExactly(items: seq<Item>, owner: string, records: map<string, Entry>,
                                                   device: string, now: int)
    requires Accepted(items, owner) && Records(items, records)
    ensures (forall kind :: IsAccessAllowed(records, device, kind, now) == Allowed <==>
                              Replayed(History(items, device), kind, now)) <==>
              !Forgotten(History(items, device), now) && !Lingers(History(items, device), now)
  {
    hide IsAccessAllowed, GrantedAt, Replayed, Forgotten, Lingers;
    var h := History(items, device);
    assert WellFormedPath(h);
    LatestIsReplayExactly(h, now);
    forall kind
      ensures IsAccessAllowed(records, device, kind, now) == Allowed <==> GrantedAt(h, kind, now)
    {
      DecisionReadsLatest(items, owner, records, device, kind, now);
    }
  }

  /** An accepted history whose first period is forgotten: active at 10, inactive at 20, active again at 30. At 15 the
      device was allowed; asked about 15 today, the decision is that it is not active yet. */
  lemma FirstPeriodIsForgotten(device: string, owner: string, records: map<string, Entry>, kind: int)
    requires device != "" && device != owner && kind != KIND_ATTESTATION
    requires Records(Twice(device), records)
    ensures Accepted(Twice(device), owner) && Replayed(History(Twice(device), device), kind, 15)
    ensures IsAccessAllowed(records, device, kind, 15) == NotActive
  {
    var path := [Act(Active, 10, []), Act(Inactive, 20, []), Act(Active, 30, [])];
    forall d
      ensures History(Twice(device), d) == if d == device then path else []
    {
      HistoryOfThree(device, path[0], path[1], path[2], d);
    }
    TwoPeriods(path);
    hide History, LastBy, EntryOf;
    assert WellFormedPath([]);
    assert LastActive(path, 2);
    EntryAfterActivation(path, 2);
    EntryRevoked(path);
  }

  lemma TwoPeriods(path: seq<Act>)
    requires path == [Act(Active, 10, []), Act(Inactive, 20, []), Act(Active, 30, [])]
    ensures WellFormedPath(path) && LastBy(path, 15) == Some(path[0])
  {
    assert Follows(path[0], path[1]) && Follows(path[1], path[2]);
    assert path[..2][..1] == [path[0]];
    assert LastBy(path[..1], 15) == Some(path[0]);
    assert LastBy(path[..2], 15) == LastBy(path[..1], 15);
  }

  function Twice(device: string): seq<Item> {
    [Attest(device, Some(Act(Active, 10, []))), Attest(device, Some(Act(Inactive, 20, []))),
     Attest(device, Some(Act(Active, 30, [])))]
  }

  lemma HistoryOfThree(device: string, a: Act, b: Act, c: Act, d: string)
    ensures History([Attest(device, Some(a)), Attest(device, Some(b)), Attest(device, Some(c))], d) ==
            if d == device then [a, b, c] else []
  {
    var i, j, k := Attest(device, Some(a)), Attest(device, Some(b)), Attest(device, Some(c));
    HistoryStep([], i, d);
    HistoryStep([i], j, d);
    HistoryStep([i, j], k, d);
    assert [] + [i] == [i] && [i] + [j] == [i, j] && [i, j] + [k] == [i, j, k];
    assert History([], d) == [];
    hide History;
  }

  /** Once a device's last attestation lies in the past, its action alone decides, with the kinds it
      permits. */
  lemma LastActionDecides(items: seq<Item>, owner: string, records: map<string, Entry>,
                                             device: string, kind: int, now: int)
    requires Accepted(items, owner) && Records(items, records)
    requires var h := History(items, device); h != [] ==> h[|h| - 1].ts < now
    ensures IsAccessAllowed(records, device, kind, now) == Allowed <==>
              var h := History(items, device);
              h != [] && h[|h| - 1].action == Active && Permits(h[|h| - 1].kinds, kind) && kind != KIND_ATTESTATION
  {
    hide IsAccessAllowed;
    var h := History(items, device);
    EntryDecides(records, device, h, kind, now);
    assert WellFormedPath(h);
    if h != [] && h[|h| - 1].action == Active {
      assert LastActive(h, |h| - 1);
    }
    if i :| LastActive(h, i) {
      TailAfterActivation(h, i);
    }
  }

  /** At the very second of a deactivation the device is still let in, which is why the time above must be
      later than the last attestation. */
  lemma DeactivationIsInclusive(items: seq<Item>, owner: string, records: map<string, Entry>,
                                                   device: string, kind: int)
    requires Accepted(items, owner) && Records(items, records)
    requires var h := History(items, device);
             |h| > 1 && h[|h| - 1].action == Inactive && Permits(h[|h| - 2].kinds, kind) && kind != KIND_ATTESTATION
    ensures var h := History(items, device); IsAccessAllowed(records, device, kind, h[|h| - 1].ts) == Allowed
  {
    hide IsAccessAllowed, History;
    var h := History(items, device);
    assert WellFormedPath(h);
    GrantedUntilDeactivated(h, kind);
    EntryDecides(records, device, h, kind, h[|h| - 1].ts);
  }

  lemma GrantedUntilDeactivated(h: seq<Act>, kind: int)
    requires WellFormedPath(h) && |h| > 1 && h[|h| - 1].action == Inactive
    requires Permits(h[|h| - 2].kinds, kind) && kind != KIND_ATTESTATION
    ensures GrantedAt(h, kind, h[|h| - 1].ts)
  {
    NextAction(h, |h| - 2);
    assert LastActive(h, |h| - 2);
  }

  /** Other devices' tags never change the answer. */
  lemma OtherDevicesAreIrrelevant(items: seq<Item>, items': seq<Item>, records: map<string, Entry>,
                                  records': map<string, Entry>, device: string, kind: int, now: int)
    requires Records(items, records) && Records(items', records')
    requires History(items, device) == History(items', device)
    ensures IsAccessAllowed(records, device, kind, now) == IsAccessAllowed(records', device, kind, now)
  {
    hide Records, History, EntryOf;
    RecordOf(items, records, device);
    RecordOf(items', records', device);
  }

  lemma RecordOf(items: seq<Item>, records: map<string, Entry>, device: string)
    requires Records(items, records)
    ensures device in records <==> History(items, device) != []
    ensures device in records ==> records[device] == EntryOf(History(items, device))
  {
    hide History, EntryOf;
  }

  lemma {:induction false} HistoryConcat(a: seq<Item>, b: seq<Item>, device: string)
    ensures History(a + b, device) == History(a, device) + History(b, device)
  {
    if b == [] {
      assert a + b == a;
    } else {
      var n := |b| - 1;
      HistoryConcat(a, b[..n], device);
      assert (a + b)[..|a + b| - 1] == a + b[..n];
    }
  }

  /** Revocation is for good: once a device's last attestation is a revocation at t, no accepted extension
      of the tags lets it in at t or later, for any kind. */
  lemma RevokedForGood(items: seq<Item>, more: seq<Item>, owner: string, records: map<string, Entry>,
                       device: string, kind: int, now: int)
    requires Accepted(items, owner) && Accepted(items + more, owner) && Records(items + more, records)
    requires var h := History(items, device); h != [] && h[|h| - 1].action == Revoked && h[|h| - 1].ts <= now
    ensures History(items + more, device) == History(items, device)
    ensures IsAccessAllowed(records, device, kind, now) != Allowed
  {
    hide History, Records, EntryOf, WellFormedPath;
    var h := History(items, device);
    HistoryConcat(items, more, device);
    NothingAfterRevoked(h, History(more, device));
    RecordOf(items + more, records, device);
    EntryRevoked(h);
  }

  lemma NothingAfterRevoked(h: seq<Act>, rest: seq<Act>)
    requires WellFormedPath(h + rest) && h != [] && h[|h| - 1].action == Revoked
    ensures WellFormedPath(h) && rest == [] && h + rest == h
  {
    var all := h + rest;
    assert all[|h| - 1] == h[|h| - 1];
    if rest != [] {
      NextAction(all, |h| - 1);
    } else {
      assert all == h;
    }
  }

  // ---- In the words of the tags

  /** The tag is an attestation of the device that parses. */
  predicate Attested(tag: Tag, device: string) {
    W.Names(tag, device) && W.Said(tag).Some?
  }

  function ActAt(tag: Tag): Act
    requires W.Said(tag).Some?
  {
    var a := W.Said(tag).value;
    Act(ActionOf(a.action), a.ts, a.kinds)
  }

  /** Where the tags of a device's history stand. */
  function Places(tags: seq<Tag>, device: string): (ps: seq<nat>)
    ensures forall k :: 0 <= k < |ps| ==> ps[k] < |tags| && Attested(tags[ps[k]], device)
  {
    if tags == [] then []
    else
      var before := Places(tags[..|tags| - 1], device);
      if Attested(tags[|tags| - 1], device) then before + [|tags| - 1] else before
  }

  lemma ItemInWords(tag: Tag, device: string)
    ensures Attested(tag, device) <==> ItemOf(tag).Attest? && ItemOf(tag).device == device && ItemOf(tag).parsed.Some?
    ensures Attested(tag, device) ==> ItemOf(tag).parsed == Some(ActAt(tag))
  {
    hide ParseAttestationString;
  }

  ghost predicate Located(tags: seq<Tag>, device: string, ps: seq<nat>, h: seq<Act>) {
    Shown(tags, device, ps, h) && Ascends(ps) && Complete(tags, device, ps)
  }

  predicate Shown(tags: seq<Tag>, device: string, ps: seq<nat>, h: seq<Act>) {
    && |ps| == |h|
    && forall k :: 0 <= k < |ps| ==> ps[k] < |tags| && Attested(tags[ps[k]], device) && h[k] == ActAt(tags[ps[k]])
  }

  predicate Ascends(ps: seq<nat>) {
    forall k, l :: 0 <= k < l < |ps| ==> ps[k] < ps[l]
  }

  predicate Complete(tags: seq<Tag>, device: string, ps: seq<nat>) {
    forall j :: 0 <= j < |tags| && Attested(tags[j], device) ==> IsPlace(ps, j)
  }

  predicate IsPlace(ps: seq<nat>, j: int) {
    exists k :: 0 <= k < |ps| && ps[k] == j
  }

  /** The history is what the places say, in their order, and all of it. */
  lemma {:induction false} HistoryInWords(tags: seq<Tag>, device: string)
    ensures Located(tags, device, Places(tags, device), History(Items(tags), device))
  {
    NothingLocated(device);
    hide Attested, ActAt, Located, History, Places, ItemOf;
    if tags == [] {
      assert tags == [] && Items(tags) == [];
    } else {
      var init, last := tags[..|tags| - 1], tags[|tags| - 1];
      HistoryInWords(init, device);
      assert tags == init + [last] && Items(tags) == Items(init) + [ItemOf(last)];
      HistoryStep(Items(init), ItemOf(last), device);
      ItemInWords(last, device);
      PlacesSnoc(init, last, device);
      OneMoreTag(init, last, device, Places(init, device), History(Items(init), device));
    }
  }

  lemma PlacesSnoc(tags: seq<Tag>, last: Tag, device: string)
    ensures Places(tags + [last], device) ==
            if Attested(last, device) then Places(tags, device) + [|tags|] else Places(tags, device)
  {
    hide Attested;
    assert (tags + [last])[..|tags|] == tags;
  }

  lemma NothingLocated(device: string)
    ensures Located([], device, [], []) && Places([], device) == [] && History([], device) == []
  {
  }

  lemma OneMoreTag(tags: seq<Tag>, last: Tag, device: string, ps: seq<nat>, h: seq<Act>)
    requires Located(tags, device, ps, h)
    ensures if Attested(last, device) then Located(tags + [last], device, ps + [|tags|], h + [ActAt(last)])
            else Located(tags + [last], device, ps, h)
  {
    hide Attested, ActAt, Complete, Shown, Ascends;
    OneMorePlace(tags, last, device, ps);
    OneMoreShown(tags, last, device, ps, h);
  }

  lemma OneMoreShown(tags: seq<Tag>, last: Tag, device: string, ps: seq<nat>, h: seq<Act>)
    requires Shown(tags, device, ps, h) && Ascends(ps)
    ensures Shown(tags + [last], device, ps, h)
    ensures Attested(last, device) ==>
              Shown(tags + [last], device, ps + [|tags|], h + [ActAt(last)]) && Ascends(ps + [|tags|])
  {
    hide Attested, ActAt;
    assert (tags + [last])[|tags|] == last;
    assert forall i :: 0 <= i < |tags| ==> (tags + [last])[i] == tags[i];
  }

  lemma OneMorePlace(tags: seq<Tag>, last: Tag, device: string, ps: seq<nat>)
    requires Complete(tags, device, ps)
    ensures Complete(tags + [last], device, if Attested(last, device) then ps + [|tags|] else ps)
  {
    hide Attested;
    var all, more := tags + [last], ps + [|tags|];
    forall j | 0 <= j < |all| && Attested(all[j], device)
      ensures IsPlace(if Attested(last, device) then more else ps, j)
    {
      if j < |tags| {
        assert all[j] == tags[j] && IsPlace(ps, j);
        var k :| 0 <= k < |ps| && ps[k] == j;
        assert more[k] == j;
      } else {
        assert more[|ps|] == j;
      }
    }
  }

  lemma WordsOfActions(name: string)
    ensures ActionOf(name) == Active <==> name == "active"
    ensures ActionOf(name) == Inactive <==> name == "inactive"
    ensures ActionOf(name) == Revoked <==> name == "revoked"
    ensures ActionOf(name).Unknown? <==> name !in {"active", "inactive", "revoked"}
  {
  }

  lemma FollowsInWords(a: Tag, b: Tag)
    requires W.Said(a).Some? && W.Said(b).Some?
    ensures !ActAt(a).action.Unknown? && !ActAt(b).action.Unknown? ==>
              (Follows(ActAt(a), ActAt(b)) <==> W.MayFollow(W.Said(a).value, W.Said(b).value))
  {
    hide W.Said;
    WordsOfActions(W.Said(a).value.action);
    WordsOfActions(W.Said(b).value.action);
  }

  /** What the history grants is what the words grant. */
  lemma GrantedInWords(tags: seq<Tag>, device: string, kind: int, now: int)
    ensures GrantedAt(History(Items(tags), device), kind, now) <==> W.Grants(tags, device, kind, now)
  {
    var ps, h := Places(tags, device), History(Items(tags), device);
    HistoryInWords(tags, device);
    hide Places, History, Shown, Ascends, ActionOf, W.Said;
    if GrantedAt(h, kind, now) {
      var i :| && LastActive(h, i) && h[i].ts <= now && Permits(h[i].kinds, kind)
               && (forall j :: i < j < |h| && h[j].action == Inactive ==> now <= h[j].ts)
               && (forall j :: i < j < |h| && h[j].action == Revoked ==> now < h[j].ts);
      GrantedToWords(tags, device, kind, now, ps, h, i);
    }
    if W.Grants(tags, device, kind, now) {
      var j :| 0 <= j < |tags| && W.GrantsFrom(tags, device, kind, now, j);
      assert Attested(tags[j], device) && IsPlace(ps, j);
      var i :| 0 <= i < |ps| && ps[i] == j;
      WordsToGranted(tags, device, kind, now, ps, h, i);
    }
  }

  /** A later place of the history is a later tag. */
  lemma LaterPlace(tags: seq<Tag>, device: string, ps: seq<nat>, h: seq<Act>, i: nat, j: nat) returns (k: nat)
    requires Located(tags, device, ps, h) && i < |ps| && ps[i] < j < |tags| && Attested(tags[j], device)
    ensures i < k < |ps| && ps[k] == j
  {
    hide Attested, Shown;
    assert IsPlace(ps, j);
    k :| 0 <= k < |ps| && ps[k] == j;
  }

  lemma GrantedToWords(tags: seq<Tag>, device: string, kind: int, now: int, ps: seq<nat>, h: seq<Act>, i: nat)
    requires Located(tags, device, ps, h) && kind != KIND_ATTESTATION
    requires LastActive(h, i) && h[i].ts <= now && Permits(h[i].kinds, kind)
    requires forall j :: i < j < |h| && h[j].action == Inactive ==> now <= h[j].ts
    requires forall j :: i < j < |h| && h[j].action == Revoked ==> now < h[j].ts
    ensures W.Grants(tags, device, kind, now)
  {
    hide ActionOf, W.Said, Located;
    assert |ps| == |h| && ps[i] < |tags| && Attested(tags[ps[i]], device) && h[i] == ActAt(tags[ps[i]]) by {
      PlaceOf(tags, device, ps, h, i);
    }
    WordsOfActions(W.Said(tags[ps[i]]).value.action);
    forall j | ps[i] < j < |tags| && Attested(tags[j], device)
      ensures !W.Says(tags[j], device, "active")
      ensures W.Says(tags[j], device, "inactive") ==> now <= W.Said(tags[j]).value.ts
      ensures W.Says(tags[j], device, "revoked") ==> now < W.Said(tags[j]).value.ts
    {
      var k := LaterPlace(tags, device, ps, h, i, j);
      PlaceOf(tags, device, ps, h, k);
      WordsOfActions(W.Said(tags[j]).value.action);
    }
    assert W.GrantsFrom(tags, device, kind, now, ps[i]);
  }

  lemma PlaceOf(tags: seq<Tag>, device: string, ps: seq<nat>, h: seq<Act>, k: nat)
    requires Located(tags, device, ps, h) && (k < |ps| || k < |h|)
    ensures |ps| == |h| && ps[k] < |tags| && Attested(tags[ps[k]], device) && h[k] == ActAt(tags[ps[k]])
  {
  }

  lemma WordsToGranted(tags: seq<Tag>, device: string, kind: int, now: int, ps: seq<nat>, h: seq<Act>, i: nat)
    requires Located(tags, device, ps, h) && i < |ps| && kind != KIND_ATTESTATION
    requires W.GrantsFrom(tags, device, kind, now, ps[i])
    ensures GrantedAt(h, kind, now)
  {
    hide ActionOf, W.Said;
    PlaceOf(tags, device, ps, h, i);
    WordsOfActions(W.Said(tags[ps[i]]).value.action);
    forall k | i < k < |h|
      ensures h[k].action != Active
      ensures h[k].action == Inactive ==> now <= h[k].ts
      ensures h[k].action == Revoked ==> now < h[k].ts
    {
      PlaceOf(tags, device, ps, h, k);
      assert ps[i] < ps[k];
      WordsOfActions(W.Said(tags[ps[k]]).value.action);
    }
    assert LastActive(h, i);
  }

  /** What passes validation is what is in order in words. */
  lemma AcceptedInWords(tags: seq<Tag>, owner: string)
    ensures Accepted(Items(tags), owner) <==> W.InOrder(tags, owner)
  {
    hide History, WellFormedPath, W.InOrderTag, WellFormedItem, W.MayFollow, W.Names;
    var items := Items(tags);
    if Accepted(items, owner) {
      forall i | 0 <= i < |tags|
        ensures W.InOrderTag(tags[i], owner)
      {
        TagInOrder(tags, owner, i);
      }
      forall i, j | 0 <= i < j < |tags| && W.Next(tags, i, j)
        ensures W.MayFollow(W.Said(tags[i]).value, W.Said(tags[j]).value)
      {
        NextFollows(tags, owner, i, j);
      }
    }
    if W.InOrder(tags, owner) {
      forall i | 0 <= i < |items|
        ensures WellFormedItem(items[i], owner)
      {
        ItemInOrder(tags[i], owner);
      }
      forall device
        ensures WellFormedPath(History(items, device))
      {
        PathInOrder(tags, owner, device);
      }
    }
  }

  lemma ItemInOrder(tag: Tag, owner: string)
    requires W.InOrderTag(tag, owner)
    ensures WellFormedItem(ItemOf(tag), owner)
  {
    hide ParseAttestationString;
  }

  lemma TagInOrder(tags: seq<Tag>, owner: string, i: nat)
    requires Accepted(Items(tags), owner) && i < |tags|
    ensures W.InOrderTag(tags[i], owner)
  {
    hide ParseAttestationString, History, Places, ActionOf;
    var tag := tags[i];
    assert WellFormedItem(Items(tags)[i], owner);
    if tag != [] && tag[0] == "p" {
      var device := tag[1];
      ItemInWords(tag, device);
      HistoryInWords(tags, device);
      var ps, h := Places(tags, device), History(Items(tags), device);
      assert WellFormedPath(h);
      assert IsPlace(ps, i);
      var k :| 0 <= k < |ps| && ps[k] == i;
      PlaceOf(tags, device, ps, h, k);
      WordsOfActions(W.Said(tag).value.action);
    }
  }

  lemma NextFollows(tags: seq<Tag>, owner: string, i: nat, j: nat)
    requires Accepted(Items(tags), owner) && i < j < |tags| && W.Next(tags, i, j)
    ensures W.MayFollow(W.Said(tags[i]).value, W.Said(tags[j]).value)
  {
    hide ParseAttestationString, W.Said, W.MayFollow, History, Places, ActionOf, Follows;
    var device := tags[i][1];
    HistoryInWords(tags, device);
    var ps, h := Places(tags, device), History(Items(tags), device);
    assert WellFormedPath(h);
    assert IsPlace(ps, i);
    var k :| 0 <= k < |ps| && ps[k] == i;
    var l := LaterPlace(tags, device, ps, h, k, j);
    PlaceOf(tags, device, ps, h, k);
    PlaceOf(tags, device, ps, h, l);
    PlaceOf(tags, device, ps, h, k + 1);
    assert i < ps[k + 1];
    assert l == k + 1;
    assert Follows(h[k], h[l]);
    FollowsInWords(tags[i], tags[j]);
  }

  lemma PathInOrder(tags: seq<Tag>, owner: string, device: string)
    requires W.InOrder(tags, owner)
    ensures WellFormedPath(History(Items(tags), device))
  {
    hide ParseAttestationString, W.Said, W.MayFollow, History, Places, ActionOf, Follows;
    HistoryInWords(tags, device);
    var ps, h := Places(tags, device), History(Items(tags), device);
    forall k | 0 <= k < |h|
      ensures !h[k].action.Unknown?
    {
      PlaceOf(tags, device, ps, h, k);
      assert W.InOrderTag(tags[ps[k]], owner);
      WordsOfActions(W.Said(tags[ps[k]]).value.action);
    }
    forall k | 0 < k < |h|
      ensures Follows(h[k - 1], h[k])
    {
      PlaceOf(tags, device, ps, h, k - 1);
      PlaceOf(tags, device, ps, h, k);
      NothingBetween(tags, device, ps, h, k);
      assert W.Next(tags, ps[k - 1], ps[k]);
      FollowsInWords(tags[ps[k - 1]], tags[ps[k]]);
    }
  }

  lemma NotAPlace(ps: seq<nat>, k: nat, j: int)
    requires Ascends(ps) && 0 < k < |ps| && ps[k - 1] < j < ps[k]
    ensures !IsPlace(ps, j)
  {
    forall l | 0 <= l < |ps|
      ensures ps[l] != j
    {
    }
  }

  lemma NothingBetween(tags: seq<Tag>, device: string, ps: seq<nat>, h: seq<Act>, k: nat)
    requires Located(tags, device, ps, h) && 0 < k < |ps|
    ensures ps[k - 1] < ps[k] && forall j :: ps[k - 1] < j < ps[k] ==> j < |tags| && !Attested(tags[j], device)
  {
    PlaceOf(tags, device, ps, h, k);
    assert ps[k - 1] < ps[k];
    hide Attested, Shown, IsPlace, Ascends;
    forall j | ps[k - 1] < j < ps[k]
      ensures j < |tags| && !Attested(tags[j], device)
    {
      NotAPlace(ps, k, j);
    }
  }

  lemma NothingRemembered(owner: string)
    ensures Remembers(map[], []) && Accepted([], owner)
  {
  }

  lemma PrefixBefore(items: seq<Item>, owner: string, i: nat, j: nat)
    requires i < j <= |items| && Accepted(items[..j], owner)
    ensures Accepted(items[..i + 1], owner)
  {
    AcceptedPrefix(items[..j], owner, i + 1);
    assert items[..j][..i + 1] == items[..i + 1];
  }

  lemma NotPastAFault(items: seq<Item>, owner: string, i: nat, j: nat)
    requires i < j <= |items| && Accepted(items[..i], owner) && Fault(items[..i], items[i], owner) != None
    ensures !Accepted(items[..j], owner)
  {
    hide Accepted, Fault;
    assert items[..i + 1] == items[..i] + [items[i]];
    AcceptedStep(items[..i], items[i], owner);
    if Accepted(items[..j], owner) {
      PrefixBefore(items, owner, i, j);
    }
  }

  /** The first fault is the only one at which the tags stop being accepted. */
  lemma FaultAt(tags: seq<Tag>, owner: string, i: nat)
    requires i < |tags| && Accepted(Items(tags)[..i], owner) && Fault(Items(tags)[..i], Items(tags)[i], owner) != None
    ensures !Accepted(Items(tags), owner) && !W.InOrder(tags, owner)
    ensures forall j :: 0 <= j < |tags| && Accepted(Items(tags)[..j], owner) && j != i ==>
              Fault(Items(tags)[..j], Items(tags)[j], owner) == None
  {
    hide Accepted, Fault, W.InOrder;
    var items := Items(tags);
    NotPastAFault(items, owner, i, |items|);
    assert items[..|items|] == items;
    AcceptedInWords(tags, owner);
    forall j | 0 <= j < |tags| && Accepted(items[..j], owner) && j != i
      ensures Fault(items[..j], items[j], owner) == None
    {
      if i < j {
        NotPastAFault(items, owner, i, j);
      } else if Fault(items[..j], items[j], owner) != None {
        NotPastAFault(items, owner, j, i);
      }
    }
  }

  lemma NoFault(tags: seq<Tag>, owner: string)
    requires Accepted(Items(tags), owner)
    ensures W.InOrder(tags, owner)
    ensures forall i :: 0 <= i < |tags| && Accepted(Items(tags)[..i], owner) ==>
              Fault(Items(tags)[..i], Items(tags)[i], owner) == None
  {
    hide Accepted, Fault, W.InOrder;
    var items := Items(tags);
    AcceptedInWords(tags, owner);
    assert items[..|items|] == items;
    forall i | 0 <= i < |tags| && Accepted(items[..i], owner)
      ensures Fault(items[..i], items[i], owner) == None
    {
      if Fault(items[..i], items[i], owner) != None {
        NotPastAFault(items, owner, i, |items|);
      }
    }
  }

  /** Any other word after tags in order is an unknown action. */
  lemma OtherWordIsUnknown(tags: seq<Tag>, device: string, owner: string, word: string, t: int, kinds: seq<int>)
    requires W.InOrder(tags, owner) && device != "" && device != owner && word !in {"active", "inactive", "revoked"}
    requires (forall i :: 0 <= i < |word| ==> word[i] != ':') && W.AllFit(t, kinds)
    ensures var all := tags + [["p", device, "", Render(AttestationString.Attestation(word, t, kinds))]];
            && Accepted(Items(all)[..|tags|], owner)
            && Fault(Items(all)[..|tags|], Items(all)[|tags|], owner) == Some(UnknownAction)
  {
    hide ParseAttestationString, Render, History;
    var tag := W.Write(device, word, t, kinds);
    var all := tags + [tag];
    W.WrittenIsSaid(device, word, t, kinds);
    assert Items(all)[..|tags|] == Items(tags);
    AcceptedInWords(tags, owner);
    ItemInWords(tag, device);
    WordsOfActions(word);
  }

  /** The decision taken from the tags themselves: tags that pass validation always parse, and the latest activation
      decides. None is a parse error. */
  method OnBehalfIsAccessAllowed(tags: seq<Tag>, device: string, kind: int, now: int) returns (d: Option<Decision>)
    ensures d.None? <==> !Parses(Items(tags))
    ensures forall owner :: Accepted(Items(tags), owner) ==>
              d.Some? && (d.value == Allowed <==> GrantedAt(History(Items(tags), device), kind, now))
    ensures forall owner :: W.InOrder(tags, owner) ==> d.Some? && (d.value == Allowed <==> W.Grants(tags, device, kind, now))
    ensures forall owner :: Accepted(Items(tags), owner) ==>
              var h := History(Items(tags), device);
              !Forgotten(h, now) && !Lingers(h, now) ==> (d.value == Allowed <==> Replayed(h, kind, now))
  {
    hide IsAccessAllowed, History, GrantedAt, Replayed, Forgotten, Lingers, W.InOrder, W.Grants;
    GrantedInWords(tags, device, kind, now);
    forall owner
      ensures Accepted(Items(tags), owner) <==> W.InOrder(tags, owner)
    {
      AcceptedInWords(tags, owner);
    }
    var records := ParseAttestationTags(tags);
    if records.None? {
      assert forall owner :: !Accepted(Items(tags), owner);
      return None;
    }
    forall owner | Accepted(Items(tags), owner)
      ensures IsAccessAllowed(records.value, device, kind, now) == Allowed <==>
                GrantedAt(History(Items(tags), device), kind, now)
    {
      DecisionReadsLatest(Items(tags), owner, records.value, device, kind, now);
    }
    forall owner | Accepted(Items(tags), owner)
      ensures WellFormedPath(History(Items(tags), device))
    {
    }
    if WellFormedPath(History(Items(tags), device)) {
      LatestIsReplayExactly(History(Items(tags), device), now);
    }
    return Some(IsAccessAllowed(records.value, device, kind, now));
  }
}
