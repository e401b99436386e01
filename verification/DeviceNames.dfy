/** The device registry said of the registration events' tags: which registrations displace which, what a registration
    comes to, and what a batch deletes. */
module DeviceNames {
  import opened Optional
  import opened Strconv
  import opened Text
  import opened Nostr
  import opened Addresses
  import opened Devices

  // ---- Which registrations are of one device

  /** A device is named by its registration's `d` value, and without one by the registration's ID. */
  predicate Named(e: Event, n: string) {
    (n != "" && HasD(e.tags, n)) || (n == e.id && HasD(e.tags, ""))
  }

  ghost predicate SameDevice(e: Event, f: Event) {
    exists n :: Named(e, n) && Named(f, n)
  }

  lemma KeyIsName(e: Event, n: string)
    ensures DeviceKey(e) == n <==> Named(e, n)
  {
    DIsFirst(e.tags, n);
    DIsFirst(e.tags, "");
    hide HasD;
  }

  lemma SameKeyIsSameDevice(e: Event, f: Event)
    ensures DeviceKey(e) == DeviceKey(f) <==> SameDevice(e, f)
  {
    hide DeviceKey, Named;
    KeyIsName(e, DeviceKey(e));
    KeyIsName(f, DeviceKey(e));
    if n :| Named(e, n) && Named(f, n) {
      KeyIsName(e, n);
      KeyIsName(f, n);
    }
  }

  /** By their `d` values: two that are not empty are of one device exactly when they are equal; a registration without
      one is of the device whose name is its own ID. */
  lemma SameDeviceExactly(e: Event, f: Event, d: string, c: string)
    requires HasD(e.tags, d) && HasD(f.tags, c)
    ensures SameDevice(e, f) <==> (if d != "" then d else e.id) == (if c != "" then c else f.id)
  {
    SameKeyIsSameDevice(e, f);
    DIsFirst(e.tags, d);
    DIsFirst(f.tags, c);
    hide HasD, SameDevice;
  }

  // ---- One registration

  ghost predicate Holds(m: Registry, e: Event) {
    exists k :: k in m && m[k].event == e
  }

  predicate ByKey(m: Registry) {
    forall k :: k in m ==> DeviceKey(m[k].event) == k
  }

  lemma NextByKey(c: Config, m: Registry, step: Step)
    requires ByKey(m)
    ensures ByKey(Next(c, m, step))
  {
    hide DeviceKey, Judge;
    JudgedSelf(c);
  }

  lemma {:induction false} RunByKey(c: Config, steps: seq<Step>)
    ensures ByKey(Apply(c, map[], steps))
  {
    hide Next, ByKey;
    if steps == [] {
      assert ByKey(map[]) by {
        NothingByKey();
      }
    } else {
      RunByKey(c, steps[..|steps| - 1]);
      NextByKey(c, Apply(c, map[], steps[..|steps| - 1]), steps[|steps| - 1]);
    }
  }

  lemma NothingByKey()
    ensures ByKey(map[])
  {
  }

  /** After any run the events held are of different devices. */
  lemma OnePerDevice(c: Config, steps: seq<Step>, e: Event, f: Event)
    requires var m := Apply(c, map[], steps); Holds(m, e) && Holds(m, f) && SameDevice(e, f)
    ensures e == f
  {
    hide DeviceKey, SameDevice, Apply;
    RunByKey(c, steps);
    SameKeyIsSameDevice(e, f);
  }

  /** What a registration leaves registered: itself if it is kept, and of the others those of other devices; nothing
      changes when it is refused. */
  lemma RegistrationExactly(c: Config, m: Registry, e: Event, f: Event)
    requires ByKey(m)
    ensures Holds(Next(c, m, Register(e)), f) <==>
              || (Judge(c, e).Kept? && f == e)
              || (Holds(m, f) && (Judge(c, e).Refused? || !SameDevice(e, f)))
  {
    hide DeviceKey, SameDevice, Judge;
    JudgedSelf(c);
    SameKeyIsSameDevice(e, f);
    var after := Next(c, m, Register(e));
    if k :| k in m && m[k].event == f {
      if Judge(c, e).Refused? || !SameDevice(e, f) {
        assert k in after && after[k].event == f;
      }
    }
    if Judge(c, e).Kept? {
      assert after[DeviceKey(e)].event == e;
    }
  }

  /** A device that registers again under its `d` value is held once, by its latest registration. */
  lemma ReRegistered(c: Config, a: Event, b: Event, d: string)
    requires d != "" && HasD(a.tags, d) && HasD(b.tags, d) && Judge(c, b).Kept?
    ensures forall f :: Holds(Apply(c, map[], [Register(a), Register(b)]), f) <==> f == b
  {
    var first, both := [Register(a)], [Register(a), Register(b)];
    assert both[..1] == first && first[..0] == [];
    assert Apply(c, map[], first) == Next(c, map[], Register(a));
    assert Apply(c, map[], both) == Next(c, Apply(c, map[], first), Register(b));
    SameDeviceExactly(a, b, d, d);
    SameDeviceExactly(b, a, d, d);
    hide DeviceKey, SameDevice, Judge, Next, Apply, HasD;
    RunByKey(c, []);
    assert Apply(c, map[], []) == map[] by {
      NothingRun(c);
    }
    RunByKey(c, first);
    forall f
      ensures Holds(Apply(c, map[], both), f) <==> f == b
    {
      RegistrationExactly(c, map[], a, f);
      RegistrationExactly(c, Apply(c, map[], first), b, f);
    }
  }

  lemma NothingRun(c: Config)
    ensures Apply(c, map[], []) == map[]
  {
  }

  // ---- What a registration comes to

  lemma IndexIs(a: string, b: string)
    requires '_' !in a
    ensures IndexOf(a + "_" + b, '_') == |a|
  {
    IndexAfterPrefix(a, '_', b);
    assert a + "_" + b == a + ['_'] + b;
  }

  lemma NoUnderscore(d: string)
    requires '_' !in d
    ensures IndexOf(d, '_') == |d|
  {
  }

  /** A registration for a device of another relay, its `d` value reading `<master key>_<device ID>`. */
  lemma RemoteRegistration(c: Config, e: Event, master: string, id: string)
    requires '_' !in master && HasD(e.tags, master + "_" + id)
    ensures NotificationTarget(e) == (master, id, true)
    ensures Judge(c, e).Kept? <==> master != "" && id != "" && c.parse(e.content).Some?
    ensures Judge(c, e).Refused? <==> !Judge(c, e).Kept?
    ensures Judge(c, e).Kept? ==> Judge(c, e).device == Device(e, c.parse(e.content).value.filters, true)
  {
    var d := master + "_" + id;
    DIsFirst(e.tags, d);
    IndexIs(master, id);
    assert d[..|master|] == master && d[|master| + 1..] == id;
    hide GetD, HasD, IndexOf, Subscribes, MasterKey, GetTag;
  }

  /** A registration for a device of this relay or of an unknown one: kept when its first `relay` tag names this relay
      and its subscribers are recorded, and otherwise, if well formed, only an end to the former one. */
  lemma LocalRegistration(c: Config, e: Event, owner: string, d: string, relay: string)
    requires '_' !in d && HasD(e.tags, d) && OwnedBy(e, owner)
    requires if exists i :: 0 <= i < |e.tags| && IsFirst(e.tags, i, "relay") && |e.tags[i]| > 1
             then exists i :: 0 <= i < |e.tags| && IsFirst(e.tags, i, "relay") && |e.tags[i]| > 1 && e.tags[i][1] == relay
             else relay == ""
    ensures NotificationTarget(e) == (owner, d, false)
    ensures Judge(c, e).Refused? <==> owner == "" || d == "" || c.parse(e.content).None?
    ensures Judge(c, e).Kept? <==>
              && owner != "" && d != "" && c.parse(e.content).Some? && c.isOwnRelay(relay)
              && forall x :: x in c.parse(e.content).value.data && x.kind == 5176 ==> c.subscribe(d, x)
    ensures Judge(c, e).Kept? ==> Judge(c, e).device == Device(e, c.parse(e.content).value.filters, false)
  {
    DIsFirst(e.tags, d);
    OwnerIsMaster(e, owner);
    NoUnderscore(d);
    var first := GetTagIsFirst(e.tags, "relay");
    RelayIs(e, first, relay);
    if d != "" && c.parse(e.content).Some? {
      SubscribesMeans(c, e, d, c.parse(e.content).value.data);
    }
    hide GetD, HasD, IndexOf, MasterKey, OwnedBy, GetTag, IsFirst, Subscribes;
  }

  lemma RelayIs(e: Event, first: int, relay: string)
    requires first < 0 ==> GetTag(e.tags, "relay") == [] && forall k :: 0 <= k < |e.tags| ==> !IsFirst(e.tags, k, "relay")
    requires first >= 0 ==> IsFirst(e.tags, first, "relay") && GetTag(e.tags, "relay") == e.tags[first]
    requires if exists i :: 0 <= i < |e.tags| && IsFirst(e.tags, i, "relay") && |e.tags[i]| > 1
             then exists i :: 0 <= i < |e.tags| && IsFirst(e.tags, i, "relay") && |e.tags[i]| > 1 && e.tags[i][1] == relay
             else relay == ""
    ensures Value(GetTag(e.tags, "relay")) == relay
  {
    forall i | 0 <= i < |e.tags| && IsFirst(e.tags, i, "relay")
      ensures i == first
    {
      OneFirst(e.tags, i, first, "relay");
    }
    hide GetTag;
  }

  lemma SubscribesMeans(c: Config, e: Event, d: string, data: seq<Event>)
    requires GetD(e.tags) == d != ""
    ensures Subscribes(c, e, data) <==> forall x :: x in data && x.kind == 5176 ==> c.subscribe(d, x)
  {
    hide GetD;
    if Subscribes(c, e, data) {
      forall x | x in data && x.kind == 5176
        ensures c.subscribe(d, x)
      {
        var i :| 0 <= i < |data| && data[i] == x;
      }
    }
  }

  // ---- What a batch deletes and registers

  lemma {:induction false} NamedIdsExactly(tags: seq<Tag>, id: string)
    ensures id in NamedIds(tags) <==> exists t :: t in tags && t != [] && t[0] == "e" && Value(t) == id
  {
    if tags != [] {
      NamedIdsExactly(tags[..|tags| - 1], id);
      assert tags == tags[..|tags| - 1] + [tags[|tags| - 1]];
    }
  }

  predicate HasK(e: Event) {
    exists t :: t in e.tags && t != [] && t[0] == "k"
  }

  predicate NamesKind(e: Event, k: string) {
    exists t :: t in e.tags && |t| > 1 && t[0] == "k" && t[1] == k
  }

  /** A deletion names the device registrations' kind or none at all. */
  lemma DeletionExactly(e: Event)
    ensures DeletesDevices(e) <==> e.kind == 5 && (!HasK(e) || NamesKind(e, "31751"))
  {
    assert Itoa(31751) == "31751";
    hide Itoa;
    if i :| 0 <= i < |e.tags| && Key(e.tags[i]) == "k" && Value(e.tags[i]) == "31751" {
      assert e.tags[i] in e.tags;
    }
    if t :| t in e.tags && |t| > 1 && t[0] == "k" && t[1] == "31751" {
      var i :| 0 <= i < |e.tags| && e.tags[i] == t;
      assert Key(e.tags[i]) == "k";
    }
    if t :| t in e.tags && t != [] && t[0] == "k" {
      var i :| 0 <= i < |e.tags| && e.tags[i] == t;
      assert Key(e.tags[i]) == "k";
    }
  }

  /** The IDs a batch deletes are those in the `e` tags of such deletions. */
  lemma {:induction false} DeletedIdsExactly(events: seq<Event>, id: string)
    ensures id in DeletedIds(events) <==>
              exists e, t :: e in events && e.kind == 5 && (!HasK(e) || NamesKind(e, "31751")) &&
                             t in e.tags && t != [] && t[0] == "e" && Value(t) == id
  {
    hide DeletesDevices, HasK, NamesKind;
    if events != [] {
      var init, last := events[..|events| - 1], events[|events| - 1];
      assert events == init + [last];
      DeletedIdsExactly(init, id);
      DeletionExactly(last);
      NamedIdsExactly(last.tags, id);
    }
  }

  lemma {:induction false} RegistersExactly(events: seq<Event>, e: Event)
    ensures Register(e) in Registers(events) <==> e in events && e.kind == 31751
  {
    if events != [] {
      RegistersExactly(events[..|events| - 1], e);
      assert events == events[..|events| - 1] + [events[|events| - 1]];
    }
  }

  /** What an invalid token and a deletion end: the device, whoever registered it since, and the very registration. */
  lemma EndsExactly(c: Config, m: Registry, e: Event, id: string, f: Event)
    requires ByKey(m)
    ensures Holds(Next(c, m, Invalidate(e)), f) <==> Holds(m, f) && !SameDevice(e, f)
    ensures Holds(Next(c, m, Delete(id)), f) <==> Holds(m, f) && f.id != id
  {
    hide DeviceKey, SameDevice, Judge;
    SameKeyIsSameDevice(e, f);
    if k :| k in m && m[k].event == f {
      if !SameDevice(e, f) {
        assert k in Next(c, m, Invalidate(e)) && Next(c, m, Invalidate(e))[k].event == f;
      }
      if f.id != id {
        assert k in Next(c, m, Delete(id)) && Next(c, m, Delete(id))[k].event == f;
      }
    }
  }

  /** A user's devices are those whose registrations they signed or own. */
  lemma AddressedExactly(d: Device, pubKey: string, remote: bool)
    ensures Addressed(d, pubKey, remote) <==>
              d.remote == remote && (pubKey == "" || d.event.pubkey == pubKey || OwnedBy(d.event, pubKey))
  {
    OwnerIsMaster(d.event, pubKey);
    hide OwnedBy, MasterKey;
  }
}
