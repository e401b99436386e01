/** What an event's address tells apart (`model/event.go`), said of its tags. */
module Addresses {
  import opened Optional
  import opened Nostr
  import opened Strconv
  import opened Text
  import opened AttestationString
  import opened FilterMatch
  import opened LatestBuffer

  // ---- The owner and the `d` value, on the tags

  /** The first tag of a key. */
  predicate IsFirst(tags: seq<Tag>, i: int, key: string) {
    && 0 <= i < |tags| && tags[i] != [] && tags[i][0] == key
    && forall j :: 0 <= j < i ==> !(tags[j] != [] && tags[j][0] == key)
  }

  /** An event is of the key in its first `b` tag, and of its signer when that tag is missing or empty. */
  predicate OwnedBy(e: Event, m: string) {
    if exists i :: 0 <= i < |e.tags| && IsFirst(e.tags, i, "b") && |e.tags[i]| > 1 && e.tags[i][1] != ""
    then exists i :: 0 <= i < |e.tags| && IsFirst(e.tags, i, "b") && |e.tags[i]| > 1 && e.tags[i][1] == m
    else m == e.pubkey
  }

  predicate IsD(t: Tag) {
    |t| > 1 && t[0] == "d"
  }

  predicate IsFirstD(tags: seq<Tag>, i: int) {
    0 <= i < |tags| && IsD(tags[i]) && forall k :: 0 <= k < i ==> !IsD(tags[k])
  }

  /** The value of the first `d` tag that has one; empty without. */
  predicate HasD(tags: seq<Tag>, d: string) {
    || (exists i :: 0 <= i < |tags| && IsFirstD(tags, i) && tags[i][1] == d)
    || (d == "" && forall i :: 0 <= i < |tags| ==> !IsD(tags[i]))
  }

  lemma {:induction false} GetTagIsFirst(tags: seq<Tag>, key: string) returns (i: int)
    requires key != ""
    ensures i < 0 ==> GetTag(tags, key) == [] && forall k :: 0 <= k < |tags| ==> !IsFirst(tags, k, key)
    ensures i >= 0 ==> IsFirst(tags, i, key) && GetTag(tags, key) == tags[i]
  {
    if tags == [] {
      i := -1;
    } else if Key(tags[0]) == key {
      i := 0;
    } else {
      var rest := GetTagIsFirst(tags[1..], key);
      i := if rest < 0 then -1 else rest + 1;
      assert forall k :: 0 < k < |tags| ==> tags[k] == tags[1..][k - 1];
      forall k | 0 <= k < |tags| && IsFirst(tags, k, key)
        ensures IsFirst(tags[1..], k - 1, key)
      {
      }
    }
  }

  lemma OneFirst(tags: seq<Tag>, i: int, j: int, key: string)
    requires IsFirst(tags, i, key) && IsFirst(tags, j, key)
    ensures i == j
  {
  }

  /** The value of the first `d` tag that has one is what `GetD` finds. */
  lemma {:induction false} GetDIsFirst(tags: seq<Tag>) returns (i: int)
    ensures i < 0 ==> GetD(tags) == "" && forall k :: 0 <= k < |tags| ==> !IsD(tags[k])
    ensures i >= 0 ==> IsFirstD(tags, i) && GetD(tags) == tags[i][1]
  {
    if tags == [] {
      i := -1;
    } else if IsD(tags[0]) {
      i := 0;
    } else {
      var rest := GetDIsFirst(tags[1..]);
      i := if rest < 0 then -1 else rest + 1;
      assert forall k :: 0 < k < |tags| ==> tags[k] == tags[1..][k - 1];
    }
  }

  lemma OwnerIsMaster(e: Event, m: string)
    ensures OwnedBy(e, m) <==> MasterKey(e) == m
  {
    var first := GetTagIsFirst(e.tags, "b");
    forall i | 0 <= i < |e.tags| && IsFirst(e.tags, i, "b")
      ensures i == first
    {
      OneFirst(e.tags, i, first, "b");
    }
    hide GetTag;
  }

  lemma DIsFirst(tags: seq<Tag>, d: string)
    ensures HasD(tags, d) <==> GetD(tags) == d
  {
    var first := GetDIsFirst(tags);
    hide GetD;
  }

  // ---- What an address tells apart

  ghost predicate SameOwner(e: Event, f: Event) {
    exists m :: OwnedBy(e, m) && OwnedBy(f, m)
  }

  ghost predicate SameD(e: Event, f: Event) {
    exists d :: HasD(e.tags, d) && HasD(f.tags, d)
  }

  /** One is a version of the other: of an addressable event by kind, owner and `d`, of a replaceable one by kind and owner,
      of any other only the event itself. */
  ghost predicate SameSubject(e: Event, f: Event) {
    if 30000 <= e.kind < 40000 then f.kind == e.kind && SameOwner(e, f) && SameD(e, f)
    else if e.kind in {0, 3} || 10000 <= e.kind < 20000 then f.kind == e.kind && SameOwner(e, f)
    else f.id == e.id && !(30000 <= f.kind < 40000) && !(f.kind in {0, 3} || 10000 <= f.kind < 20000)
  }

  /** Keys and IDs contain no colon. */
  ghost predicate PlainKeys(e: Event) {
    ':' !in e.id && forall m :: OwnedBy(e, m) ==> ':' !in m
  }

  lemma Parts(a: string, b: string, c: string, d: string)
    requires ':' !in a && ':' !in c
    ensures a + ":" + b == c + ":" + d <==> a == c && b == d
  {
    if a + ":" + b == c + ":" + d {
      var s := a + ":" + b;
      assert s[|a|] == ':' && s[|c|] == ':';
      assert forall i :: 0 <= i < |a| ==> s[i] == a[i];
      assert forall i :: 0 <= i < |c| ==> s[i] == c[i];
      assert |a| == |c|;
      assert a == s[..|a|] && c == s[..|c|] && b == s[|a| + 1..] && d == s[|c| + 1..];
    }
  }

  lemma KindText(k: int)
    ensures ':' !in Itoa(k)
  {
    NumbersHaveNoSeparators(k);
    assert forall i :: 0 <= i < |Itoa(k)| ==> Itoa(k)[i] != ':';
  }

  lemma KindTexts(k: nat, l: nat)
    ensures Itoa(k) == Itoa(l) <==> k == l
  {
    if Itoa(k) == Itoa(l) {
      DigitsInjective(k, l);
    }
  }

  /** Kind, owner and the rest, apart. */
  lemma TextParts(k: nat, m: string, d: string, l: nat, n: string, c: string)
    requires ':' !in m && ':' !in n
    ensures Itoa(k) + ":" + m + ":" + d == Itoa(l) + ":" + n + ":" + c <==> k == l && m == n && d == c
  {
    hide Itoa;
    KindText(k);
    KindText(l);
    KindTexts(k, l);
    Parts(Itoa(k), m + ":" + d, Itoa(l), n + ":" + c);
    Parts(m, d, n, c);
    assert Itoa(k) + ":" + m + ":" + d == Itoa(k) + ":" + (m + ":" + d);
    assert Itoa(l) + ":" + n + ":" + c == Itoa(l) + ":" + (n + ":" + c);
  }

  /** The address as a text: a number, an owner and a `d` value, or an ID. */
  lemma AddressText(e: Event, m: string, d: string)
    requires OwnedBy(e, m) && HasD(e.tags, d)
    ensures 30000 <= e.kind < 40000 ==> Address(e) == Itoa(e.kind) + ":" + m + ":" + d
    ensures e.kind in {0, 3} || 10000 <= e.kind < 20000 ==> Address(e) == Itoa(e.kind) + ":" + m + ":" + ""
    ensures !(30000 <= e.kind < 40000) && !(e.kind in {0, 3} || 10000 <= e.kind < 20000) ==> Address(e) == e.id
  {
    OwnerIsMaster(e, m);
    DIsFirst(e.tags, d);
    hide MasterKey, GetD, Itoa;
  }

  lemma OwnerAndD(e: Event) returns (m: string, d: string)
    ensures OwnedBy(e, m) && HasD(e.tags, d)
    ensures forall n :: OwnedBy(e, n) ==> n == m
    ensures forall c :: HasD(e.tags, c) ==> c == d
  {
    m, d := MasterKey(e), GetD(e.tags);
    forall n
      ensures OwnedBy(e, n) <==> n == m
    {
      OwnerIsMaster(e, n);
    }
    forall c
      ensures HasD(e.tags, c) <==> c == d
    {
      DIsFirst(e.tags, c);
    }
  }

  lemma ColonInText(k: int, m: string, d: string)
    ensures ':' in Itoa(k) + ":" + m + ":" + d
  {
    hide Itoa;
    assert (Itoa(k) + ":" + m + ":" + d)[|Itoa(k)|] == ':';
  }

  /** The texts of two addresses, whatever their classes, are the same when their parts are. */
  lemma TextsApart(e: Event, f: Event, m: string, d: string, n: string, c: string)
    requires ':' !in m && ':' !in n && e.kind >= 0 && f.kind >= 0
    ensures Itoa(e.kind) + ":" + m + ":" + d == Itoa(f.kind) + ":" + n + ":" + c <==> e.kind == f.kind && m == n && d == c
    ensures ':' in Itoa(e.kind) + ":" + m + ":" + d && ':' in Itoa(f.kind) + ":" + n + ":" + c
  {
    hide Itoa;
    TextParts(e.kind, m, d, f.kind, n, c);
    ColonInText(e.kind, m, d);
    ColonInText(f.kind, n, c);
  }

  lemma SubjectParts(e: Event, f: Event, m: string, d: string, n: string, c: string)
    requires OwnedBy(e, m) && OwnedBy(f, n) && HasD(e.tags, d) && HasD(f.tags, c)
    ensures SameOwner(e, f) <==> m == n
    ensures SameD(e, f) <==> d == c
  {
    var m', d' := OwnerAndD(e);
    var n', c' := OwnerAndD(f);
    hide OwnedBy, HasD;
  }

  /** Exactly which events share an address. */
  lemma SameAddressExactly(e: Event, f: Event)
    requires PlainKeys(e) && PlainKeys(f)
    ensures Address(e) == Address(f) <==> SameSubject(e, f)
  {
    var m, d := OwnerAndD(e);
    var n, c := OwnerAndD(f);
    SubjectParts(e, f, m, d, n, c);
    AddressText(e, m, d);
    AddressText(f, n, c);
    assert ':' !in m && ':' !in n && ':' !in e.id && ':' !in f.id;
    hide Address, Itoa, OwnedBy, HasD, SameOwner, SameD, PlainKeys;
    if e.kind >= 0 && f.kind >= 0 {
      var d', c' := if 30000 <= e.kind < 40000 then d else "", if 30000 <= f.kind < 40000 then c else "";
      TextsApart(e, f, m, d', n, c');
    } else if e.kind >= 0 {
      ColonInText(e.kind, m, if 30000 <= e.kind < 40000 then d else "");
    } else if f.kind >= 0 {
      ColonInText(f.kind, n, if 30000 <= f.kind < 40000 then c else "");
    }
  }

  /** A filter that names an addressable event by kind, owner and `d` matches its versions and nothing else. */
  lemma AddressFilterExactly(k: int, m: string, d: string, e: Event, user: User)
    requires 30000 <= k < 40000 && ':' !in m && PlainKeys(e)
    ensures FilterMatches(EMPTY_FILTER.(addresses := Some([Itoa(k) + ":" + m + ":" + d])), e, user) <==>
              e.kind == k && OwnedBy(e, m) && HasD(e.tags, d)
  {
    var n, c := OwnerAndD(e);
    AddressText(e, n, c);
    var l := if e.kind < 0 then 0 else e.kind;
    TextParts(k, m, d, l, n, c);
    TextParts(k, m, d, l, n, "");
    ColonInText(k, m, d);
    hide Address, Itoa, OwnedBy, HasD;
  }

  // ---- The buffer, by subjects

  lemma {:induction false} LastAtMeans(events: seq<Event>, a: string) returns (j: int)
    ensures LastAt(Address, events, a) == if j < 0 then None else if j < |events| then Some(events[j]) else None
    ensures j < |events| && (j >= 0 ==> Address(events[j]) == a)
    ensures forall k :: 0 <= k < |events| && k > j ==> Address(events[k]) != a
  {
    hide Address;
    if events == [] {
      j := -1;
    } else if Address(events[|events| - 1]) == a {
      j := |events| - 1;
    } else {
      j := LastAtMeans(events[..|events| - 1], a);
    }
  }

  /** The buffer holds exactly the events that no later one is a version of. */
  lemma BufferExactly(events: seq<Event>, e: Event)
    requires forall f :: f in events ==> PlainKeys(f)
    ensures e in BufferAll(Address, events) <==>
              exists i :: 0 <= i < |events| && events[i] == e && forall j :: i < j < |events| ==> !SameSubject(events[j], e)
  {
    hide Address, SameSubject, PlainKeys;
    BufferHoldsLatest(Address, events);
    var buffer := BufferAll(Address, events);
    if e in buffer {
      var b :| 0 <= b < |buffer| && buffer[b] == e;
      var i := LastAtMeans(events, Address(e));
      forall j | i < j < |events|
        ensures !SameSubject(events[j], e)
      {
        SameAddressExactly(events[j], e);
      }
    }
    if i :| 0 <= i < |events| && events[i] == e && forall j :: i < j < |events| ==> !SameSubject(events[j], e) {
      forall j | i < j < |events|
        ensures Address(events[j]) != Address(events[i])
      {
        SameAddressExactly(events[j], e);
      }
      LastAtIndex(Address, events, i);
      KeyHasPlace(Address, events, i);
      var k :| 0 <= k < |FirstKeys(Address, events)| && FirstKeys(Address, events)[k] == Address(e);
      assert buffer[k] == e;
    }
  }

  /** Two articles of one author under different `d` values are two entries. */
  lemma TwoArticlesStay(e: Event, f: Event, d: string, c: string)
    requires PlainKeys(e) && PlainKeys(f) && e.kind == f.kind == KIND_ARTICLE
    requires HasD(e.tags, d) && HasD(f.tags, c) && d != c
    ensures BufferAll(Address, [e, f]) == [e, f]
  {
    SameAddressExactly(e, f);
    var m, d' := OwnerAndD(e);
    var n, c' := OwnerAndD(f);
    assert d == d' && c == c';
    SubjectParts(e, f, m, d, n, c);
    hide Address, OwnedBy, HasD, BufferAll;
    BothStay(e, f);
  }

  lemma BothStay(e: Event, f: Event)
    requires Address(e) != Address(f)
    ensures BufferAll(Address, [e, f]) == [e, f]
  {
    hide Address;
    assert [e, f][..1] == [e] && [e][..0] == [];
    assert BufferAll(Address, [e]) == [e];
    assert Buffered(Address, [e], f) == [e, f];
  }

  /** One push, by subjects. */
  lemma PushBySubject(pending: seq<Event>, places: map<string, nat>, e: Event)
    requires Corresponds(Address, pending, places) && PlainKeys(e) && forall f :: f in pending ==> PlainKeys(f)
    ensures forall f :: f in Buffered(Address, pending, e) <==> f == e || (f in pending && !SameSubject(e, f))
  {
    hide Address, SameSubject, PlainKeys;
    PushCorresponds(Address, pending, places, e);
    forall f | f in pending
      ensures Address(f) == Address(e) <==> SameSubject(e, f)
    {
      SameAddressExactly(e, f);
    }
    if Address(e) in places {
      var at := places[Address(e)];
      forall f
        ensures f in pending[at := e] <==> f == e || (f in pending && !SameSubject(e, f))
      {
        if f in pending && f != e && !SameSubject(e, f) {
          var i :| 0 <= i < |pending| && pending[i] == f;
          assert pending[at := e][i] == f;
        }
        assert pending[at := e][at] == e;
      }
    }
  }
}
