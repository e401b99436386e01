/** The push-notification device registry (`push-notifications/devices.go`): the event map, seen by event ID and
    by device key, and the filter index. */
module Devices {
  import opened Optional
  import opened Strconv
  import opened Text
  import opened Nostr
  import opened FilterMatch
  import opened Routing
  import opened RoutingComplete
  import opened HashOrder
  import opened Seqs
  import opened Matcher
  import opened Storage

  datatype Device = Device(event: Event, filters: seq<Filter>, remote: bool)

  /** A registration's content: its filters, and the events it links to. */
  datatype Content = Content(filters: seq<Filter>, data: seq<Event>)

  /** What the registry leaves to others: hashing a device key, parsing a content, comparing a relay with its own,
      and recording a price-change subscriber, which can fail. */
  datatype Config = Config(
    hashKey: string -> Hash, parse: string -> Option<Content>, isOwnRelay: string -> bool, subscribe: (string, Event) -> bool)

  const KIND_DEVICE_REGISTRATION := 31751
  const KIND_PRICE_CHANGE := 5176
  const KIND_DELETION := 5

  function DeviceKey(e: Event): string {
    OrElse(GetD(e.tags), e.id)
  }

  function HashOf(hashKey: string -> Hash): Device -> Hash {
    (d: Device) => hashKey(DeviceKey(d.event))
  }

  /** Who is notified: for a remote device the `d` tag reads `<master key>_<device ID>`. */
  function NotificationTarget(e: Event): (string, string, bool) {
    var d := GetD(e.tags);
    var i := IndexOf(d, '_');
    if i < |d| then (d[..i], d[i + 1..], true) else (MasterKey(e), d, false)
  }

  predicate Subscribes(c: Config, e: Event, data: seq<Event>) {
    forall i :: 0 <= i < |data| && data[i].kind == KIND_PRICE_CHANGE ==> c.subscribe(DeviceKey(e), data[i])
  }

  /** What a registration comes to: refused outright; accepted only to remove the device; or registered. */
  datatype Outcome = Refused | Dropped | Kept(device: Device)

  function Judge(c: Config, e: Event): Outcome {
    var (master, id, remote) := NotificationTarget(e);
    if master == "" || id == "" || c.parse(e.content).None? then Refused
    else
      var content := c.parse(e.content).value;
      if !remote && (!c.isOwnRelay(Value(GetTag(e.tags, "relay"))) || !Subscribes(c, e, content.data)) then Dropped
      else Kept(Device(e, content.filters, remote))
  }

  /** A registration is answered without an error: it is well formed, and belongs to another relay or has all its
      price-change subscribers recorded. */
  predicate Succeeds(c: Config, e: Event) {
    var (master, id, remote) := NotificationTarget(e);
    && master != "" && id != "" && c.parse(e.content).Some?
    && (remote || !c.isOwnRelay(Value(GetTag(e.tags, "relay"))) || Subscribes(c, e, c.parse(e.content).value.data))
  }

  // ---- The registry as a value: device key to registered device

  type Registry = map<string, Device>

  datatype Step = Register(event: Event) | Invalidate(event: Event) | Delete(id: string)

  function Next(c: Config, m: Registry, step: Step): Registry {
    match step
    case Register(e) => (
      match Judge(c, e)
      case Refused => m
      case Dropped => m - {DeviceKey(e)}
      case Kept(d) => m[DeviceKey(e) := d])
    case Invalidate(e) => m - {DeviceKey(e)}
    case Delete(id) => map k | k in m && m[k].event.id != id :: m[k]
  }

  function Apply(c: Config, m: Registry, steps: seq<Step>): Registry {
    if steps == [] then m else Next(c, Apply(c, m, steps[..|steps| - 1]), steps[|steps| - 1])
  }

  lemma ApplySnoc(c: Config, m: Registry, steps: seq<Step>, step: Step)
    ensures Apply(c, m, steps + [step]) == Next(c, Apply(c, m, steps), step)
  {
    assert (steps + [step])[..|steps|] == steps;
  }

  lemma InvalidateRemoves(c: Config, m: Registry, e: Event)
    ensures Next(c, m, Invalidate(e)) == m - {DeviceKey(e)}
  {
  }

  lemma NoSteps(c: Config, m: Registry)
    ensures Apply(c, m, Deletes([])) == m && Apply(c, m, Registers([])) == m && Apply(c, m, Invalidates([])) == m
  {
  }

  /** The step registers a device under the key. */
  predicate Places(c: Config, step: Step, k: string) {
    step.Register? && Judge(c, step.event).Kept? && DeviceKey(step.event) == k
  }

  /** The step ends a registration made by the event with this ID under the key. */
  predicate Displaces(c: Config, step: Step, k: string, id: string) {
    match step
    case Register(e) => DeviceKey(e) == k && !Judge(c, e).Refused?
    case Invalidate(e) => DeviceKey(e) == k
    case Delete(gone) => gone == id
  }

  predicate Stands(c: Config, steps: seq<Step>, k: string, i: nat)
    requires i < |steps|
  {
    Places(c, steps[i], k) && forall j :: i < j < |steps| ==> !Displaces(c, steps[j], k, steps[i].event.id)
  }

  /** After any run from an empty registry a device is registered exactly when some accepted registration of it
      has not been superseded, invalidated or deleted since, and what it holds is that registration. */
  lemma {:induction false} LatestAccepted(c: Config, steps: seq<Step>, k: string)
    ensures k in Apply(c, map[], steps) <==> exists i :: 0 <= i < |steps| && Stands(c, steps, k, i)
    ensures forall i :: 0 <= i < |steps| && Stands(c, steps, k, i) ==>
              k in Apply(c, map[], steps) && Apply(c, map[], steps)[k] == Judge(c, steps[i].event).device
  {
    hide Judge, Next, Stands, Places, Displaces;
    if steps == [] {
      assert steps == [];
    } else {
      var init, last := steps[..|steps| - 1], steps[|steps| - 1];
      assert init + [last] == steps;
      LatestAccepted(c, init, k);
      NextAt(c, Apply(c, map[], init), last, k);
      LastStands(c, steps, k);
      forall i | 0 <= i < |init|
        ensures Stands(c, init, k, i) ==> init[i].Register? && Judge(c, init[i].event).Kept? &&
                                          Judge(c, init[i].event).device.event == init[i].event
        ensures Stands(c, steps, k, i) <==>
                  Stands(c, init, k, i) && !Displaces(c, last, k, init[i].event.id)
      {
        StandsLonger(c, init, last, k, i);
        StandingIsKept(c, init, k, i);
      }
    }
  }

  /** One step's effect on one key. */
  lemma NextAt(c: Config, m: Registry, step: Step, k: string)
    ensures k in Next(c, m, step) <==> Places(c, step, k) || (k in m && !Displaces(c, step, k, m[k].event.id))
    ensures k in Next(c, m, step) ==> Next(c, m, step)[k] == if Places(c, step, k) then Judge(c, step.event).device else m[k]
    ensures Places(c, step, k) ==> forall id :: Displaces(c, step, k, id)
  {
    hide DeviceKey, Judge;
  }

  lemma LastStands(c: Config, steps: seq<Step>, k: string)
    requires steps != []
    ensures Stands(c, steps, k, |steps| - 1) <==> Places(c, steps[|steps| - 1], k)
    ensures Places(c, steps[|steps| - 1], k) ==> steps[|steps| - 1].Register?
  {
    hide Displaces;
  }

  lemma StandingIsKept(c: Config, steps: seq<Step>, k: string, i: nat)
    requires i < |steps|
    ensures Stands(c, steps, k, i) ==> steps[i].Register? && Judge(c, steps[i].event).Kept? &&
                                       Judge(c, steps[i].event).device.event == steps[i].event
  {
    hide Judge;
    JudgedSelf(c);
  }

  lemma StandsLonger(c: Config, init: seq<Step>, last: Step, k: string, i: nat)
    requires i < |init|
    ensures Stands(c, init + [last], k, i) <==> Stands(c, init, k, i) && (init[i].Register? ==> !Displaces(c, last, k, init[i].event.id))
  {
    hide Judge, Displaces;
    var steps := init + [last];
    assert steps[|init|] == last;
    assert forall j :: 0 <= j < |init| ==> steps[j] == init[j];
  }

  /** A registered device's event is the registration itself. */
  lemma JudgedSelf(c: Config)
    ensures forall e :: Judge(c, e).Kept? ==> Judge(c, e).device.event == e
  {
  }

  // ---- The three views

  ghost predicate HasId(m: Registry, id: string) {
    exists k :: k in m && m[k].event.id == id
  }

  ghost predicate HasHash(m: Registry, hashKey: string -> Hash, h: Hash) {
    exists k :: k in m && hashKey(k) == h
  }

  ghost predicate EventIdView(m: Registry, byId: map<string, Event>) {
    && (forall k :: k in m ==> m[k].event.id in byId && byId[m[k].event.id] == m[k].event)
    && (forall id :: id in byId ==> HasId(m, id))
  }

  ghost predicate DeviceKeyView(m: Registry, byKey: map<string, Event>) {
    && (forall k :: k in byKey <==> k in m)
    && (forall k :: k in m ==> byKey[k] == m[k].event && DeviceKey(m[k].event) == k)
  }

  ghost predicate IndexView(m: Registry, store: map<Hash, Stored<Device>>, hashKey: string -> Hash) {
    && (forall k :: k in m ==> hashKey(k) in store && store[hashKey(k)] == Stored(m[k], m[k].filters))
    && (forall h :: h in store ==> HasHash(m, hashKey, h))
  }

  /** Device-key hashes do not collide. */
  ghost predicate CollisionFree(hashKey: string -> Hash) {
    forall k, l :: hashKey(k) == hashKey(l) ==> k == l
  }

  /** Every registered event is known, and among the known events the ID determines the event. */
  ghost predicate Known(m: Registry, known: set<Event>) {
    && (forall k :: k in m ==> m[k].event in known)
    && (forall a, b :: a in known && b in known && a.id == b.id ==> a == b)
  }

  lemma OneKeyPerId(m: Registry, byKey: map<string, Event>, known: set<Event>, k: string, e: Event)
    requires DeviceKeyView(m, byKey) && Known(m, known) && k in m && e in known && m[k].event.id == e.id
    ensures k == DeviceKey(e) && m[k].event == e
  {
    hide DeviceKey;
  }

  lemma EventIdViewWithout(m: Registry, byId: map<string, Event>, byKey: map<string, Event>, known: set<Event>,
                           k: string)
    requires EventIdView(m, byId) && DeviceKeyView(m, byKey) && Known(m, known) && k in m
    ensures EventIdView(m - {k}, byId - {m[k].event.id})
  {
    hide DeviceKey, DeviceKeyView;
    var id := m[k].event.id;
    forall l | l in m && m[l].event.id == id
      ensures l == k
    {
      OneKeyPerId(m, byKey, known, l, m[k].event);
      OneKeyPerId(m, byKey, known, k, m[k].event);
    }
    forall x | x in byId && x != id
      ensures HasId(m - {k}, x)
    {
      var l :| l in m && m[l].event.id == x;
      assert l in m - {k};
    }
  }

  lemma EventIdViewWith(m: Registry, byId: map<string, Event>, k: string, d: Device)
    requires EventIdView(m, byId) && k !in m && !HasId(m, d.event.id)
    ensures EventIdView(m[k := d], byId[d.event.id := d.event])
  {
    var more, ids := m[k := d], byId[d.event.id := d.event];
    forall x | x in ids
      ensures HasId(more, x)
    {
      if x == d.event.id {
        assert more[k].event.id == x;
      } else {
        var l :| l in m && m[l].event.id == x;
        assert more[l].event.id == x;
      }
    }
  }

  lemma IndexViewWithout(m: Registry, store: map<Hash, Stored<Device>>, hashKey: string -> Hash, k: string)
    requires IndexView(m, store, hashKey) && CollisionFree(hashKey)
    ensures IndexView(m - {k}, store - {hashKey(k)}, hashKey)
  {
    forall h | h in store && h != hashKey(k)
      ensures HasHash(m - {k}, hashKey, h)
    {
      var l :| l in m && hashKey(l) == h;
      assert l in m - {k};
    }
  }

  lemma IndexViewWith(m: Registry, store: map<Hash, Stored<Device>>, hashKey: string -> Hash, k: string, d: Device)
    requires IndexView(m, store, hashKey) && CollisionFree(hashKey)
    ensures IndexView(m[k := d], store[hashKey(k) := Stored(d, d.filters)], hashKey)
  {
    var more, held := m[k := d], store[hashKey(k) := Stored(d, d.filters)];
    forall h | h in held
      ensures HasHash(more, hashKey, h)
    {
      if h == hashKey(k) {
        assert k in more;
      } else {
        var l :| l in m && hashKey(l) == h;
        assert l in more;
      }
    }
  }

  lemma KeyViewChanges(m: Registry, byKey: map<string, Event>, k: string, d: Device)
    requires DeviceKeyView(m, byKey)
    ensures DeviceKeyView(m - {k}, byKey - {k})
    ensures DeviceKey(d.event) == k ==> DeviceKeyView(m[k := d], byKey[k := d.event])
    ensures forall l :: (l in byKey <==> l in m) && (l in m ==> byKey[l] == m[l].event && DeviceKey(m[l].event) == l)
  {
    hide DeviceKey;
  }

  /** An event whose device is not registered is not in the event-ID view either. */
  lemma UnknownId(m: Registry, byId: map<string, Event>, byKey: map<string, Event>, known: set<Event>, e: Event)
    requires EventIdView(m, byId) && DeviceKeyView(m, byKey) && Known(m, known) && e in known
    ensures DeviceKey(e) !in m ==> e.id !in byId && !HasId(m, e.id)
    ensures e.id in byId && DeviceKey(e) in m ==> m[DeviceKey(e)].event == e
  {
    hide DeviceKey, DeviceKeyView;
    if HasId(m, e.id) {
      var k :| k in m && m[k].event.id == e.id;
      OneKeyPerId(m, byKey, known, k, e);
    }
  }

  class DeviceRegistry {
    const config: Config
    const index: MatcherStorage<Device>
    var byId: map<string, Event>
    var byKey: map<string, Event>
    ghost var devices: Registry
    ghost var Repr: set<object>

    /** The event-ID view, the device-key view and the filter index describe the same devices. */
    ghost predicate Valid()
      reads this, Repr, index.Repr, index
    {
      && this in Repr && index in Repr && index.Repr <= Repr && this !in index.Repr
      && index.Valid() && index.hashOf == HashOf(config.hashKey) && CollisionFree(config.hashKey)
      && EventIdView(devices, byId) && DeviceKeyView(devices, byKey)
      && IndexView(devices, index.store, config.hashKey)
    }

    constructor (config: Config, numShards: nat, cpus: nat)
      requires cpus > 0 && CollisionFree(config.hashKey)
      ensures Valid() && fresh(Repr) && devices == map[] && this.config == config
    {
      this.config := config;
      index := new MatcherStorage<Device>(HashOf(config.hashKey), numShards, cpus);
      byId, byKey, devices := map[], map[], map[];
      new;
      Repr := {this} + index.Repr;
    }

    /** Removes whatever is registered under the event's device key. */
    method RemoveDeviceFromCache(event: Event, ghost known: set<Event>)
      requires Valid() && Known(devices, known) && event in known
      modifies Repr
      ensures Valid() && fresh(Repr - old(Repr)) && Known(devices, known)
      ensures devices == old(devices) - {DeviceKey(event)}
    {
      hide DeviceKey, CollisionFree, EventIdView, DeviceKeyView, IndexView, Known, HasId;
      var deviceKey := DeviceKey(event);
      ghost var m, ids := devices, byId;
      KeyViewChanges(m, byKey, deviceKey, Device(event, [], false));
      UnknownId(m, byId, byKey, known, event);
      KnownChanges(m, known, deviceKey, Device(event, [], false));
      byId := byId - {event.id};
      if deviceKey !in byKey {
        assert m - {deviceKey} == m && byId == ids;
        return;
      }
      var oldEvent := byKey[deviceKey];
      EventIdViewWithout(m, ids, byKey, known, deviceKey);
      IndexViewWithout(m, index.store, config.hashKey, deviceKey);
      byKey := byKey - {deviceKey};
      byId := byId - {oldEvent.id};
      assert byId == ids - {m[deviceKey].event.id};
      Unindex(deviceKey);
      devices := devices - {deviceKey};
    }

    method Unindex(deviceKey: string)
      requires this in Repr && index in Repr && index.Repr <= Repr && this !in index.Repr && index.Valid()
      modifies Repr
      ensures index in Repr && index.Repr <= Repr && this in Repr && this !in index.Repr && index.Valid()
      ensures fresh(Repr - old(Repr)) && index.store == old(index.store) - {config.hashKey(deviceKey)}
      ensures byId == old(byId) && byKey == old(byKey) && devices == old(devices)
    {
      var removed := index.RemoveByHash(config.hashKey(deviceKey));
      Repr := Repr + index.Repr;
    }

    /** A registration: refused, or the device's former registration goes and, if accepted here, the new one is
        held under its event ID, its device key and its filters. */
    method ProcessDeviceRegistrationEvent(event: Event, ghost known: set<Event>) returns (ok: bool)
      requires Valid() && Known(devices, known) && event in known
      modifies Repr
      ensures Valid() && fresh(Repr - old(Repr)) && Known(devices, known)
      ensures devices == Next(config, old(devices), Register(event))
      ensures ok <==> Succeeds(config, event)
      ensures Judge(config, event).Refused? ==> !ok
      ensures Judge(config, event).Kept? ==> ok
    {
      hide DeviceKey, EventIdView, DeviceKeyView, IndexView, Known, CollisionFree, HasId, Subscribes, NotificationTarget;
      var (masterPubKey, deviceID, remote) := NotificationTarget(event);
      if masterPubKey == "" || deviceID == "" {
        return false;
      }
      var parsed := config.parse(event.content);
      if parsed.None? {
        return false;
      }
      var content := parsed.value;
      RemoveDeviceFromCache(event, known);
      if !remote {
        if !config.isOwnRelay(Value(GetTag(event.tags, "relay"))) {
          return true;
        }
        var linked := SubscribeAll(event, content.data);
        if !linked {
          return false;
        }
      }
      Store(event, Device(event, content.filters, remote), known);
      ok := true;
    }

    method SubscribeAll(event: Event, data: seq<Event>) returns (linked: bool)
      ensures linked <==> Subscribes(config, event, data)
    {
      for i := 0 to |data|
        invariant Subscribes(config, event, data[..i])
      {
        if data[i].kind == KIND_PRICE_CHANGE && !config.subscribe(DeviceKey(event), data[i]) {
          return false;
        }
      }
      assert data[..|data|] == data;
      return true;
    }

    method Store(event: Event, device: Device, ghost known: set<Event>)
      requires Valid() && Known(devices, known) && event in known && device.event == event
      requires DeviceKey(event) !in devices
      modifies Repr
      ensures Valid() && fresh(Repr - old(Repr)) && Known(devices, known)
      ensures devices == old(devices)[DeviceKey(event) := device]
    {
      hide DeviceKey, CollisionFree, EventIdView, DeviceKeyView, IndexView, Known, HasId;
      var deviceKey := DeviceKey(event);
      ghost var m := devices;
      UnknownId(m, byId, byKey, known, event);
      EventIdViewWith(m, byId, deviceKey, device);
      KeyViewChanges(m, byKey, deviceKey, device);
      IndexViewWith(m, index.store, config.hashKey, deviceKey, device);
      KnownChanges(m, known, deviceKey, device);
      byId := byId[event.id := event];
      byKey := byKey[deviceKey := event];
      index.Index(device.filters, device);
      devices := devices[deviceKey := device];
      Repr := Repr + index.Repr;
    }

    /** Deletions first name event IDs; each removes the device registered by that very event, if there is one. */
    method RemoveDevicesIfAny(events: seq<Event>, ghost known: set<Event>)
      requires Valid() && Known(devices, known)
      modifies Repr
      ensures Valid() && fresh(Repr - old(Repr)) && Known(devices, known)
      ensures devices == Apply(config, old(devices), Deletes(DeletedIds(events)))
    {
      hide EventIdView, DeviceKeyView, IndexView, Known, CollisionFree, HasId, Next, Apply, Deletes, DeletedIds;
      var eventIDs := CollectDeletedIds(events);
      NoSteps(config, devices);
      for i := 0 to |eventIDs|
        invariant Valid() && fresh(Repr - old(Repr)) && Known(devices, known)
        invariant devices == Apply(config, old(devices), Deletes(eventIDs[..i]))
      {
        DeletesSnoc(eventIDs[..i], eventIDs[i]);
        ApplySnoc(config, old(devices), Deletes(eventIDs[..i]), Delete(eventIDs[i]));
        assert eventIDs[..i + 1] == eventIDs[..i] + [eventIDs[i]];
        RemoveById(eventIDs[i], known);
      }
      assert eventIDs[..|eventIDs|] == eventIDs;
    }

    method RemoveById(id: string, ghost known: set<Event>)
      requires Valid() && Known(devices, known)
      modifies Repr
      ensures Valid() && fresh(Repr - old(Repr)) && Known(devices, known)
      ensures devices == Next(config, old(devices), Delete(id))
    {
      hide EventIdView, DeviceKeyView, IndexView, Known, CollisionFree, HasId, DeviceKey;
      DeleteById(config, devices, byId, byKey, known, id);
      if id in byId {
        RemoveDeviceFromCache(byId[id], known);
      }
    }

    /** A batch of events: its deletions, then its registrations in order. A failed registration does not stop the
        rest. */
    method ManageDeviceRegistrationEvents(events: seq<Event>, ghost known: set<Event>) returns (ok: bool)
      requires Valid() && Known(devices, known) && forall e :: e in events ==> e in known
      modifies Repr
      ensures Valid() && fresh(Repr - old(Repr)) && Known(devices, known)
      ensures devices == Apply(config, old(devices), BatchSteps(events))
      ensures ok <==> forall e :: e in events && e.kind == KIND_DEVICE_REGISTRATION ==> Succeeds(config, e)
    {
      hide EventIdView, DeviceKeyView, IndexView, Known, CollisionFree, Judge, Next, Apply, Registers, Succeeds;
      ok := true;
      RemoveDevicesIfAny(events, known);
      ghost var m := devices;
      NoSteps(config, m);
      for i := 0 to |events|
        invariant Valid() && fresh(Repr - old(Repr)) && Known(devices, known)
        invariant devices == Apply(config, m, Registers(events[..i]))
        invariant ok <==> forall e :: e in events[..i] && e.kind == KIND_DEVICE_REGISTRATION ==> Succeeds(config, e)
      {
        RegistersSnoc(events[..i], events[i]);
        ApplySnoc(config, m, Registers(events[..i]), Register(events[i]));
        assert events[..i + 1] == events[..i] + [events[i]];
        if events[i].kind == KIND_DEVICE_REGISTRATION {
          var done := ProcessDeviceRegistrationEvent(events[i], known);
          ok := ok && done;
        }
      }
      assert events[..|events|] == events;
      ApplyConcat(config, old(devices), Deletes(DeletedIds(events)), Registers(events));
    }

    /** The registered devices to notify of an event: those of the user whose filters match it. */
    method CollectUserDevices(pubKey: string, remote: bool, event: Event) returns (found: seq<Event>)
      requires Valid()
      modifies Repr
      ensures Valid() && fresh(Repr - old(Repr)) && devices == old(devices)
      ensures forall e :: e in found ==>
                exists k :: k in devices && devices[k].event == e && Wants(devices[k], pubKey, remote, event)
      ensures PlainKind(event.kind) && StoreCovered(old(index.store), NOBODY) ==>
                forall k :: k in devices && Wants(devices[k], pubKey, remote, event) ==> devices[k].event in found
    {
      hide EventIdView, DeviceKeyView, CollisionFree, FiltersMatch, IndexView, StoreCovered, PlainKind;
      hide Scan, Select, ShardOrder, Candidates, MatchTest, ValuesOf, MasterKey;
      StoredFilters(devices, index.store, config.hashKey);
      ghost var store := index.store;
      var matching := index.LookupMatching(event, NOBODY, FiltersOf);
      Repr := Repr + index.Repr;
      found := PickAddressed(matching, pubKey, remote);
      CollectedDevices(devices, store, config.hashKey, event, |index.shards|);
    }

    static method PickAddressed(matching: seq<Device>, pubKey: string, remote: bool) returns (found: seq<Event>)
      ensures forall e :: e in found <==> exists d :: d in matching && Addressed(d, pubKey, remote) && d.event == e
    {
      found := [];
      for i := 0 to |matching|
        invariant forall e :: e in found <==> exists d :: d in matching[..i] && Addressed(d, pubKey, remote) && d.event == e
      {
        assert matching[..i + 1] == matching[..i] + [matching[i]];
        if Addressed(matching[i], pubKey, remote) {
          found := found + [matching[i].event];
        }
      }
      assert matching[..|matching|] == matching;
    }

    /** Devices whose tokens proved invalid go, whatever event has registered them since. */
    method RemoveInvalidTokenDevicesFromCache(events: seq<Event>, ghost known: set<Event>)
      requires Valid() && Known(devices, known) && forall e :: e in events ==> e in known
      modifies Repr
      ensures Valid() && fresh(Repr - old(Repr)) && Known(devices, known)
      ensures devices == Apply(config, old(devices), Invalidates(events))
    {
      hide EventIdView, DeviceKeyView, IndexView, Known, CollisionFree, Judge, Next, Apply, Invalidates, DeviceKey;
      NoSteps(config, devices);
      for i := 0 to |events|
        invariant Valid() && fresh(Repr - old(Repr)) && Known(devices, known)
        invariant devices == Apply(config, old(devices), Invalidates(events[..i]))
      {
        InvalidatesSnoc(events[..i], events[i]);
        ApplySnoc(config, old(devices), Invalidates(events[..i]), Invalidate(events[i]));
        InvalidateRemoves(config, devices, events[i]);
        assert events[..i + 1] == events[..i] + [events[i]];
        RemoveDeviceFromCache(events[i], known);
      }
      assert events[..|events|] == events;
    }
  }

  predicate Addressed(d: Device, pubKey: string, remote: bool) {
    (pubKey == "" || MasterKey(d.event) == pubKey || d.event.pubkey == pubKey) && d.remote == remote
  }

  predicate Wants(d: Device, pubKey: string, remote: bool, e: Event) {
    Addressed(d, pubKey, remote) && FiltersMatch(d.filters, e, NOBODY)
  }

  lemma KnownChanges(m: Registry, known: set<Event>, k: string, d: Device)
    requires Known(m, known)
    ensures Known(m - {k}, known) && (d.event in known ==> Known(m[k := d], known))
  {
  }

  /** Removing the device key of the event with an ID removes exactly the device that event registered. */
  lemma DeleteById(c: Config, m: Registry, byId: map<string, Event>, byKey: map<string, Event>, known: set<Event>,
                   id: string)
    requires EventIdView(m, byId) && DeviceKeyView(m, byKey) && Known(m, known)
    ensures id !in byId ==> Next(c, m, Delete(id)) == m
    ensures id in byId ==> byId[id] in known && Next(c, m, Delete(id)) == Next(c, m, Invalidate(byId[id]))
  {
    hide DeviceKey, DeviceKeyView, Judge;
    if id in byId {
      var k :| k in m && m[k].event.id == id;
      forall l | l in m
        ensures m[l].event.id == id <==> l == DeviceKey(byId[id])
      {
        OneKeyPerId(m, byKey, known, k, byId[id]);
        if m[l].event.id == id {
          OneKeyPerId(m, byKey, known, l, byId[id]);
        }
      }
    }
  }

  function FiltersOf(d: Device): seq<Filter> {
    d.filters
  }

  lemma StoredFilters(m: Registry, store: map<Hash, Stored<Device>>, hashKey: string -> Hash)
    requires IndexView(m, store, hashKey)
    ensures forall h :: h in store ==> FiltersOf(store[h].value) == store[h].filters
  {
    forall h | h in store
      ensures FiltersOf(store[h].value) == store[h].filters
    {
      assert HasHash(m, hashKey, h);
      var k :| k in m && hashKey(k) == h;
    }
  }

  lemma MatchingSound(store: map<Hash, Stored<Device>>, e: Event, n: nat)
    requires n > 0
    ensures forall h :: h in Select(ShardOrder(Candidates(store, e), n, 0), MatchTest(store, e, NOBODY)) ==>
                          MatchesStored(store, e, NOBODY, h)
  {
    SelectMembers(ShardOrder(Candidates(store, e), n, 0), MatchTest(store, e, NOBODY));
  }

  /** Values found by hash are registered devices whose filters match, and all of them if no hash is missed. */
  lemma MatchingDevices(m: Registry, store: map<Hash, Stored<Device>>, hashKey: string -> Hash, e: Event,
                        hashes: seq<Hash>)
    requires IndexView(m, store, hashKey)
    ensures (forall h :: h in hashes ==> MatchesStored(store, e, NOBODY, h)) ==>
              forall d :: d in ValuesOf(store, hashes) ==> exists k :: k in m && m[k] == d && FiltersMatch(d.filters, e, NOBODY)
    ensures (forall h :: MatchesStored(store, e, NOBODY, h) ==> h in hashes) ==>
              forall k :: k in m && FiltersMatch(m[k].filters, e, NOBODY) ==> m[k] in ValuesOf(store, hashes)
  {
    hide FiltersMatch;
    forall d
      ensures d in ValuesOf(store, hashes) <==> exists h :: h in hashes && h in store && store[h].value == d
    {
      ValuesOfMembers(store, hashes, d);
    }
    forall h | h in store
      ensures exists k :: k in m && hashKey(k) == h
    {
      assert HasHash(m, hashKey, h);
    }
    assert forall k :: k in m && FiltersMatch(m[k].filters, e, NOBODY) ==> MatchesStored(store, e, NOBODY, hashKey(k));
  }

  lemma CollectedDevices(m: Registry, store: map<Hash, Stored<Device>>, hashKey: string -> Hash, e: Event, n: nat)
    requires IndexView(m, store, hashKey) && n > 0
    ensures var matching := ValuesOf(store, Select(ShardOrder(Candidates(store, e), n, 0), MatchTest(store, e, NOBODY)));
            && (forall d :: d in matching ==> exists k :: k in m && m[k] == d && FiltersMatch(d.filters, e, NOBODY))
            && (PlainKind(e.kind) && StoreCovered(store, NOBODY) ==>
                  forall k :: k in m && FiltersMatch(m[k].filters, e, NOBODY) ==> m[k] in matching)
  {
    hide IndexView, FiltersMatch, StoreCovered, PlainKind, ValuesOf;
    var hashes := Select(ShardOrder(Candidates(store, e), n, 0), MatchTest(store, e, NOBODY));
    MatchingDevices(m, store, hashKey, e, hashes);
    MatchingSound(store, e, n);
    if PlainKind(e.kind) && StoreCovered(store, NOBODY) {
      IndexRefinesScan(store, e, NOBODY, n);
      ScanIsExact(store, e, NOBODY, n);
    }
  }

  // ---- Batches as steps

  function Deletes(ids: seq<string>): seq<Step> {
    if ids == [] then [] else Deletes(ids[..|ids| - 1]) + [Delete(ids[|ids| - 1])]
  }

  lemma DeletesSnoc(ids: seq<string>, id: string)
    ensures Deletes(ids + [id]) == Deletes(ids) + [Delete(id)]
  {
    assert (ids + [id])[..|ids|] == ids;
  }

  function Invalidates(events: seq<Event>): seq<Step> {
    if events == [] then [] else Invalidates(events[..|events| - 1]) + [Invalidate(events[|events| - 1])]
  }

  lemma InvalidatesSnoc(events: seq<Event>, e: Event)
    ensures Invalidates(events + [e]) == Invalidates(events) + [Invalidate(e)]
  {
    assert (events + [e])[..|events|] == events;
  }

  function Registers(events: seq<Event>): seq<Step> {
    if events == [] then []
    else
      var init, e := Registers(events[..|events| - 1]), events[|events| - 1];
      if e.kind == KIND_DEVICE_REGISTRATION then init + [Register(e)] else init
  }

  lemma RegistersSnoc(events: seq<Event>, e: Event)
    ensures Registers(events + [e]) ==
            if e.kind == KIND_DEVICE_REGISTRATION then Registers(events) + [Register(e)] else Registers(events)
  {
    assert (events + [e])[..|events|] == events;
  }

  function BatchSteps(events: seq<Event>): seq<Step> {
    Deletes(DeletedIds(events)) + Registers(events)
  }

  lemma {:induction false} ApplyConcat(c: Config, m: Registry, a: seq<Step>, b: seq<Step>)
    ensures Apply(c, m, a + b) == Apply(c, Apply(c, m, a), b)
  {
    hide Next;
    if b == [] {
      assert a + b == a;
    } else {
      var init := b[..|b| - 1];
      ApplyConcat(c, m, a, init);
      assert (a + b)[..|a + b| - 1] == a + init;
    }
  }

  // ---- Deletions

  /** A deletion concerns devices when it names their kind, or no kind at all. */
  predicate DeletesDevices(e: Event) {
    && e.kind == KIND_DELETION
    && ((forall i :: 0 <= i < |e.tags| ==> Key(e.tags[i]) != "k") ||
        exists i :: 0 <= i < |e.tags| && Key(e.tags[i]) == "k" && Value(e.tags[i]) == Itoa(KIND_DEVICE_REGISTRATION))
  }

  method ShouldProcessDeletionEvent(e: Event) returns (should: bool)
    ensures should <==> DeletesDevices(e)
  {
    hide Itoa;
    var kCount := 0;
    if e.kind != KIND_DELETION {
      return false;
    }
    var expected := Itoa(KIND_DEVICE_REGISTRATION);
    for i := 0 to |e.tags|
      invariant kCount >= 0 && (kCount == 0 <==> forall j :: 0 <= j < i ==> Key(e.tags[j]) != "k")
      invariant forall j :: 0 <= j < i && Key(e.tags[j]) == "k" ==> Value(e.tags[j]) != expected
    {
      if Key(e.tags[i]) == "k" {
        kCount := kCount + 1;
        if Value(e.tags[i]) == expected {
          return true;
        }
      }
    }
    return kCount == 0;
  }

  function NamedIds(tags: seq<Tag>): seq<string> {
    if tags == [] then []
    else
      var init, t := NamedIds(tags[..|tags| - 1]), tags[|tags| - 1];
      if Key(t) == "e" then init + [Value(t)] else init
  }

  /** The event IDs named by the deletions of a batch, in order. */
  function DeletedIds(events: seq<Event>): seq<string> {
    if events == [] then []
    else
      var init, e := DeletedIds(events[..|events| - 1]), events[|events| - 1];
      if DeletesDevices(e) then init + NamedIds(e.tags) else init
  }

  method CollectDeletedIds(events: seq<Event>) returns (ids: seq<string>)
    ensures ids == DeletedIds(events)
  {
    hide DeletesDevices;
    ids := [];
    for i := 0 to |events|
      invariant ids == DeletedIds(events[..i])
    {
      assert events[..i + 1][..i] == events[..i];
      var should := ShouldProcessDeletionEvent(events[i]);
      if should {
        var tags, before := events[i].tags, ids;
        for j := 0 to |tags|
          invariant ids == before + NamedIds(tags[..j])
        {
          assert tags[..j + 1][..j] == tags[..j];
          if Key(tags[j]) == "e" {
            ids := ids + [Value(tags[j])];
          }
        }
        assert tags[..|tags|] == tags;
      }
    }
    assert events[..|events|] == events;
  }
}
