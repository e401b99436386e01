/** A list that keeps, for every key, only the latest element pushed, in the place of the first. */
module LatestBuffer {
  import opened Optional

  /** Pushing replaces the buffered event of the same key in its place, or appends. */
  function Buffered<E>(key: E -> string, pending: seq<E>, e: E): seq<E> {
    if pending == [] then [e]
    else if key(pending[0]) == key(e) then [e] + pending[1..]
    else [pending[0]] + Buffered(key, pending[1..], e)
  }

  function BufferAll<E>(key: E -> string, events: seq<E>): seq<E> {
    if events == [] then [] else Buffered(key, BufferAll(key, events[..|events| - 1]), events[|events| - 1])
  }

  /** The keys of a list of events, each once, in order of first appearance. */
  function FirstKeys<E>(key: E -> string, events: seq<E>): seq<string> {
    if events == [] then []
    else
      var before, a := FirstKeys(key, events[..|events| - 1]), key(events[|events| - 1]);
      if a in before then before else before + [a]
  }

  /** The last event of a key, if there is one. */
  function LastAt<E>(key: E -> string, events: seq<E>, a: string): (e: Option<E>)
    ensures e.Some? ==> key(e.value) == a && e.value in events
  {
    if events == [] then None
    else if key(events[|events| - 1]) == a then Some(events[|events| - 1])
    else LastAt(key, events[..|events| - 1], a)
  }

  lemma {:induction false} BufferedFresh<E>(key: E -> string, pending: seq<E>, e: E)
    requires forall i :: 0 <= i < |pending| ==> key(pending[i]) != key(e)
    ensures Buffered(key, pending, e) == pending + [e]
  {
    if pending != [] {
      BufferedFresh(key, pending[1..], e);
    }
  }

  lemma {:induction false} BufferedInPlace<E>(key: E -> string, pending: seq<E>, e: E, i: nat)
    requires i < |pending| && key(pending[i]) == key(e)
    requires forall j :: 0 <= j < i ==> key(pending[j]) != key(e)
    ensures Buffered(key, pending, e) == pending[i := e]
  {
    if i > 0 {
      BufferedInPlace(key, pending[1..], e, i - 1);
    }
  }

  lemma {:induction false} FirstKeysDistinct<E>(key: E -> string, events: seq<E>)
    ensures forall i, j :: 0 <= i < j < |FirstKeys(key, events)| ==>
              FirstKeys(key, events)[i] != FirstKeys(key, events)[j]
  {
    if events != [] {
      FirstKeysDistinct(key, events[..|events| - 1]);
    }
  }

  /** An event sits in the buffer at its key's place and is the last one pushed at that key. */
  ghost predicate Latest<E>(key: E -> string, events: seq<E>, buffer: seq<E>) {
    && |buffer| == |FirstKeys(key, events)|
    && forall i :: 0 <= i < |buffer| ==>
         key(buffer[i]) == FirstKeys(key, events)[i] && LastAt(key, events, key(buffer[i])) == Some(buffer[i])
  }

  lemma PushKeepsLatest<E>(key: E -> string, init: seq<E>, buffer: seq<E>, e: E)
    requires Latest(key, init, buffer)
    ensures Latest(key, init + [e], Buffered(key, buffer, e))
  {
    var events, places := init + [e], FirstKeys(key, init);
    assert events[..|events| - 1] == init;
    FirstKeysDistinct(key, init);
    if key(e) in places {
      var i :| 0 <= i < |places| && places[i] == key(e);
      BufferedInPlace(key, buffer, e, i);
    } else {
      BufferedFresh(key, buffer, e);
    }
  }

  /** What the buffer holds after any pushes: one event per key, in order of first push, and for
      each key the last one pushed. */
  lemma {:induction false} BufferHoldsLatest<E>(key: E -> string, events: seq<E>)
    ensures Latest(key, events, BufferAll(key, events))
  {
    if events != [] {
      BufferHoldsLatest(key, events[..|events| - 1]);
      PushKeepsLatest(key, events[..|events| - 1], BufferAll(key, events[..|events| - 1]), events[|events| - 1]);
      assert events[..|events| - 1] + [events[|events| - 1]] == events;
    }
  }

  /** Every pushed event is in the buffer or has been replaced by a later one of the same key that
      is. */
  lemma PushedOrReplaced<E>(key: E -> string, events: seq<E>, i: nat)
    requires i < |events|
    ensures exists j :: i <= j < |events| && key(events[j]) == key(events[i]) && events[j] in BufferAll(key, events)
  {
    var j := LastIndex(key, events, i);
    LastAtIndex(key, events, j);
    KeyHasPlace(key, events, j);
    BufferHoldsLatest(key, events);
    var k :| 0 <= k < |FirstKeys(key, events)| && FirstKeys(key, events)[k] == key(events[j]);
    assert BufferAll(key, events)[k] == events[j];
  }

  lemma {:induction false} LastIndex<E>(key: E -> string, events: seq<E>, i: nat) returns (j: nat)
    requires i < |events|
    ensures i <= j < |events| && key(events[j]) == key(events[i])
    ensures forall k :: j < k < |events| ==> key(events[k]) != key(events[i])
    decreases |events| - i
  {
    j := i;
    if k :| i < k < |events| && key(events[k]) == key(events[i]) {
      j := LastIndex(key, events, k);
    }
  }

  lemma {:induction false} LastAtIndex<E>(key: E -> string, events: seq<E>, j: nat)
    requires j < |events| && forall k :: j < k < |events| ==> key(events[k]) != key(events[j])
    ensures LastAt(key, events, key(events[j])) == Some(events[j])
  {
    if j < |events| - 1 {
      LastAtIndex(key, events[..|events| - 1], j);
    }
  }

  lemma {:induction false} KeyHasPlace<E>(key: E -> string, events: seq<E>, j: nat)
    requires j < |events|
    ensures key(events[j]) in FirstKeys(key, events)
  {
    if j < |events| - 1 {
      KeyHasPlace(key, events[..|events| - 1], j);
    }
  }

  /** A map from keys to places in one-to-one correspondence with the list. */
  ghost predicate Corresponds<E>(key: E -> string, pending: seq<E>, places: map<string, nat>) {
    && (forall i :: 0 <= i < |pending| ==> key(pending[i]) in places && places[key(pending[i])] == i)
    && (forall a :: a in places ==> places[a] < |pending| && key(pending[places[a]]) == a)
  }

  /** Replacing at the key's place, or appending and recording a new place, is what a push means and
      keeps the correspondence. */
  lemma PushCorresponds<E>(key: E -> string, pending: seq<E>, places: map<string, nat>, e: E)
    requires Corresponds(key, pending, places)
    ensures var a := key(e);
            if a in places then
              Buffered(key, pending, e) == pending[places[a] := e] && Corresponds(key, pending[places[a] := e], places)
            else
              Buffered(key, pending, e) == pending + [e] && Corresponds(key, pending + [e], places[a := |pending|])
  {
    if key(e) in places {
      BufferedInPlace(key, pending, e, places[key(e)]);
    } else {
      BufferedFresh(key, pending, e);
    }
  }

  /** The push itself, on the list and its map. */
  method Push<E>(key: E -> string, pending: seq<E>, places: map<string, nat>, e: E)
    returns (pending': seq<E>, places': map<string, nat>)
    requires Corresponds(key, pending, places)
    ensures Corresponds(key, pending', places')
    ensures pending' == Buffered(key, pending, e)
  {
    PushCorresponds(key, pending, places, e);
    var a := key(e);
    if a in places {
      return pending[places[a] := e], places;
    }
    pending' := pending + [e];
    places' := places[a := |pending'| - 1];
  }
}
