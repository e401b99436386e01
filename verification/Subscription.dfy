/** The buffer of a subscription that is not live yet (`model/subscription.go`). */
module Subscription {
  import opened Optional
  import opened Nostr
  import opened FilterMatch
  import opened LatestBuffer
  import opened Addresses

  class Subscription {
    const id: string
    const filters: seq<Filter>
    const oneShot: bool
    var reduce: Option<Event -> bool>
    var pending: seq<Event>
    var addresses: map<string, nat>
    var live: bool

    /** The address map and the pending list are in one-to-one correspondence. */
    ghost predicate Valid()
      reads this
    {
      Corresponds(Address, pending, addresses)
    }

    constructor (id: string, filters: seq<Filter>)
      requires id != ""
      ensures Valid() && this.id == id && this.filters == filters
      ensures pending == [] && !live && reduce == None
    {
      this.id, this.filters, oneShot := id, filters, false;
      reduce, pending, addresses, live := None, [], map[], false;
    }

    function Reduces(e: Event): bool
      reads this
    {
      reduce.Some? && reduce.value(e)
    }

    method Push(e: Event)
      requires Valid()
      modifies this`pending, this`addresses
      ensures Valid()
      ensures pending == if old(reduce.Some? && reduce.value(e)) then old(pending) else Buffered(Address, old(pending), e)
      ensures !old(Reduces(e)) && PlainKeys(e) && (forall f :: f in old(pending) ==> PlainKeys(f)) ==>
                forall f :: f in pending <==> f == e || (f in old(pending) && !SameSubject(e, f))
    {
      hide Address, Corresponds, PlainKeys, SameSubject;
      if Reduces(e) {
        return;
      }
      if PlainKeys(e) && forall f :: f in pending ==> PlainKeys(f) {
        PushBySubject(pending, addresses, e);
      }
      pending, addresses := LatestBuffer.Push(Address, pending, addresses, e);
    }

    method SetLive()
      modifies this`live
      ensures live
    {
      live := true;
    }

    method GetPending() returns (events: seq<Event>)
      requires Valid()
      modifies this`pending, this`addresses
      ensures Valid() && pending == [] && events == old(pending)
    {
      events := pending;
      pending := [];
      addresses := map[];
    }
  }
}
