/** Linked subscriptions (`server/ws/subscriptions.go`): what the connections remember, what the index holds, and
    whom a new event is broadcast to. */
module Links {
  import opened Optional
  import opened Nostr
  import opened FilterMatch
  import opened Routing
  import opened RoutingComplete
  import opened HashOrder
  import opened Matcher
  import opened Storage
  import opened Addresses

  /** A subscription of one connection, named by the connection's remote address and the subscription's ID. */
  type Name = (string, string)

  datatype Link = Link(name: Name, filters: seq<Filter>)

  /** Hashing a pair; the keys of the user a connection has authenticated and the kinds it is restricted to; the stored
      definition of a community, and who belongs to it or is banned from it: all given from outside. */
  datatype Config = Config(
    hashName: Name -> Hash, userOf: string -> User, kindsOf: string -> set<int>, definitionOf: string -> Option<Event>,
    belongs: (Event, string) -> bool, banned: (string, string) -> bool)

  const KIND_GIFT_WRAP := 1059
  const COMMUNITY_PROTECTED := {1, KIND_ARTICLE, 30024, KIND_EDITABLE_TEXT_NOTE, 6, KIND_GENERIC_REPOST}

  function HashOf(hashName: Name -> Hash): Link -> Hash {
    (l: Link) => hashName(l.name)
  }

  ghost predicate CollisionFree(hashName: Name -> Hash) {
    forall m, n :: hashName(m) == hashName(n) ==> m == n
  }

  ghost predicate HasHash(links: map<Name, Link>, hashName: Name -> Hash, h: Hash) {
    exists n :: n in links && hashName(n) == h
  }

  /** The index holds exactly the remembered subscriptions, each under its own hash and filters. */
  ghost predicate View(links: map<Name, Link>, store: map<Hash, Stored<Link>>, hashName: Name -> Hash) {
    && (forall n :: n in links ==>
          links[n].name == n && hashName(n) in store && store[hashName(n)] == Stored(links[n], links[n].filters))
    && (forall h :: h in store ==> HasHash(links, hashName, h))
  }

  lemma ViewWith(links: map<Name, Link>, store: map<Hash, Stored<Link>>, hashName: Name -> Hash, l: Link)
    requires View(links, store, hashName) && CollisionFree(hashName)
    ensures View(links[l.name := l], store[hashName(l.name) := Stored(l, l.filters)], hashName)
  {
    var more, held := links[l.name := l], store[hashName(l.name) := Stored(l, l.filters)];
    forall h | h in held
      ensures HasHash(more, hashName, h)
    {
      if h == hashName(l.name) {
        assert l.name in more;
      } else {
        var n :| n in links && hashName(n) == h;
        assert n in more;
      }
    }
  }

  lemma ViewWithout(links: map<Name, Link>, store: map<Hash, Stored<Link>>, hashName: Name -> Hash, name: Name)
    requires View(links, store, hashName) && CollisionFree(hashName)
    ensures View(links - {name}, store - {hashName(name)}, hashName)
    ensures hashName(name) in store <==> name in links
  {
    forall h | h in store && h != hashName(name)
      ensures HasHash(links - {name}, hashName, h)
    {
      var n :| n in links && hashName(n) == h;
      assert n in links - {name};
    }
    if hashName(name) in store {
      assert HasHash(links, hashName, hashName(name));
    }
  }

  /** A tag that encrypts for the user's device: its key alone, or after the master key. */
  predicate EncryptsFor(t: Tag, user: User) {
    Key(t) == "p" && ((|t| == 2 && t[1] == user.device) || (|t| == 4 && t[1] == user.master && t[3] == user.device))
  }

  /** The kinds a connection is restricted to, and gift wraps for its own device only. */
  predicate MayForward(e: Event, kinds: set<int>, user: User) {
    && (kinds == {} || e.kind in kinds)
    && (e.kind == KIND_GIFT_WRAP ==> exists t :: t in e.tags && EncryptsFor(t, user))
  }

  /** Posts of a private community go to its members only. */
  predicate MayForwardCommunity(c: Config, e: Event, master: string) {
    var h := Value(GetTag(e.tags, "h"));
    h != "" && e.kind in COMMUNITY_PROTECTED ==>
      && c.definitionOf(h).Some?
      && (GetTag(c.definitionOf(h).value.tags, "private") != [] ==>
            c.belongs(c.definitionOf(h).value, master) && !c.banned(master, h))
  }

  /** A subscription wants an event when its filters match it for the user of its own connection, and the event may be
      forwarded to that user. */
  predicate Wants(c: Config, l: Link, e: Event) {
    var user := c.userOf(l.name.0);
    FiltersMatch(l.filters, e, user) && MayForward(e, c.kindsOf(l.name.0), user) && MayForwardCommunity(c, e, user.master)
  }

  /** Whom an event reaches: a connection of unrestricted kinds or of its kind, and a gift wrap only the device that a `p`
      tag names alone or after its master key. */
  lemma ForwardExactly(e: Event, kinds: set<int>, user: User)
    ensures MayForward(e, kinds, user) <==>
              && (kinds == {} || e.kind in kinds)
              && (e.kind == 1059 ==>
                    || ["p", user.device] in e.tags
                    || exists between :: ["p", user.master, between, user.device] in e.tags)
  {
    if t :| t in e.tags && EncryptsFor(t, user) {
      assert t == ["p", user.device] || t == ["p", user.master, t[2], user.device];
    }
    if ["p", user.device] in e.tags {
      assert EncryptsFor(["p", user.device], user);
    }
    if between :| ["p", user.master, between, user.device] in e.tags {
      assert EncryptsFor(["p", user.master, between, user.device], user);
    }
  }

  /** A gift wrap for a master key and a device reaches the connections of that very device. */
  lemma GiftWrapReaches(e: Event, master: string, device: string, user: User)
    requires e.kind == 1059 && e.tags == [["p", master, "", device]]
    ensures MayForward(e, {}, user) <==> user == User(master, device)
  {
    ForwardExactly(e, {}, user);
    assert e.tags[0] == ["p", master, "", device];
    forall between
      ensures ["p", user.master, between, user.device] in e.tags <==> between == "" && user == User(master, device)
    {
      var t, s := ["p", user.master, between, user.device], ["p", master, "", device];
      assert t[1] == user.master && t[2] == between && t[3] == user.device && s[1] == master && s[2] == "" && s[3] == device;
    }
    assert |["p", user.device]| == 2;
  }

  /** A community's post: it is in the community that its first `h` tag names, and a private one's post goes to members
      that are not banned. */
  lemma CommunityPostReaches(c: Config, e: Event, master: string, h: string, i: nat)
    requires i < |e.tags| && IsFirst(e.tags, i, "h") && |e.tags[i]| > 1 && e.tags[i][1] == h && h != ""
    requires e.kind in {1, 6, 16, 30023, 30024, 30175}
    ensures MayForwardCommunity(c, e, master) <==>
              && c.definitionOf(h).Some?
              && ((exists t :: t in c.definitionOf(h).value.tags && t != [] && t[0] == "private") ==>
                    c.belongs(c.definitionOf(h).value, master) && !c.banned(master, h))
  {
    var first := GetTagIsFirst(e.tags, "h");
    OneFirst(e.tags, i, first, "h");
    if c.definitionOf(h).Some? {
      SomePrivate(c.definitionOf(h).value.tags);
    }
    hide GetTag, IsFirst;
  }

  lemma SomePrivate(tags: seq<Tag>)
    ensures GetTag(tags, "private") != [] <==> exists t :: t in tags && t != [] && t[0] == "private"
  {
    var first := GetTagIsFirst(tags, "private");
    if t :| t in tags && t != [] && t[0] == "private" {
      FirstThere(tags, t);
    }
  }

  lemma {:induction false} FirstThere(tags: seq<Tag>, t: Tag)
    requires t in tags && t != [] && t[0] != ""
    ensures GetTag(tags, t[0]) != []
  {
    if Key(tags[0]) != t[0] {
      FirstThere(tags[1..], t);
    }
  }

  /** All other events are nobody's private matter. */
  lemma OtherPostsReach(c: Config, e: Event, master: string)
    requires e.kind !in {1, 6, 16, 30023, 30024, 30175} || forall t :: t in e.tags && t != [] && t[0] == "h" ==> Value(t) == ""
    ensures MayForwardCommunity(c, e, master)
  {
    var first := GetTagIsFirst(e.tags, "h");
    assert first >= 0 ==> e.tags[first] in e.tags;
  }

  method CanForwardEvent(e: Event, kinds: set<int>, user: User) returns (ok: bool)
    ensures ok <==> MayForward(e, kinds, user)
  {
    if kinds != {} && e.kind !in kinds {
      return false;
    }
    if e.kind != KIND_GIFT_WRAP {
      return true;
    }
    for i := 0 to |e.tags|
      invariant forall j :: 0 <= j < i ==> !EncryptsFor(e.tags[j], user)
    {
      var tag := e.tags[i];
      if Key(tag) == "p" {
        if |tag| == 2 && tag[1] == user.device {
          assert EncryptsFor(e.tags[i], user);
          return true;
        } else if |tag| == 4 && tag[1] == user.master && tag[3] == user.device {
          assert EncryptsFor(e.tags[i], user);
          return true;
        }
      }
    }
    return false;
  }

  method CanForwardCommunityEvent(c: Config, e: Event, master: string) returns (ok: bool)
    ensures ok <==> MayForwardCommunity(c, e, master)
  {
    var hTag := Value(GetTag(e.tags, "h"));
    if hTag == "" || e.kind !in COMMUNITY_PROTECTED {
      return true;
    }
    var definition := c.definitionOf(hTag);
    if definition.None? {
      return false;
    }
    if GetTag(definition.value.tags, "private") != [] {
      if !c.belongs(definition.value, master) || c.banned(master, hTag) {
        return false;
      }
    }
    return true;
  }

  /** A subscription to the authors of a connection's user wants the posts of the user's other device too. */
  lemma OwnPostsAreWanted(c: Config, l: Link, e: Event)
    requires l.filters == [EMPTY_FILTER.(authors := Some([c.userOf(l.name.0).master]))] && c.kindsOf(l.name.0) == {}
    requires e.pubkey == c.userOf(l.name.0).device && e.kind != 1059 && e.tags == []
    ensures Wants(c, l, e)
  {
    var user, f := c.userOf(l.name.0), l.filters[0];
    assert AuthorAccepts(f.authors.value[0], e, user);
    assert FilterMatches(l.filters[0], e, user);
    OtherPostsReach(c, e, user.master);
  }

  method CanForwardLiveEvent(c: Config, l: Link, e: Event) returns (ok: bool)
    ensures ok <==> Wants(c, l, e)
  {
    hide FiltersMatch, MayForward, MayForwardCommunity;
    var user := c.userOf(l.name.0);
    ok := FiltersMatchLoop(l.filters, e, user);
    if ok {
      ok := CanForwardEvent(e, c.kindsOf(l.name.0), user);
    }
    if ok {
      ok := CanForwardCommunityEvent(c, e, user.master);
    }
  }

  /** Nothing about the subscription escapes the index. */
  predicate Reachable(c: Config, l: Link) {
    AllCovered(l.filters, c.userOf(l.name.0))
  }

  lemma OfferedMeans(links: map<Name, Link>, store: map<Hash, Stored<Link>>, hashName: Name -> Hash, e: Event, n: nat)
    requires View(links, store, hashName) && n > 0
    ensures forall l :: l in Offered(store, e, n, 0) <==> l.name in links && links[l.name] == l && Hits(l.filters, e)
    ensures forall m :: m in links ==> links[m].name == m
  {
    var order := ShardOrder(Candidates(store, e), n, 0);
    ShardOrderMembers(Candidates(store, e), n, 0);
    forall l
      ensures l in Offered(store, e, n, 0) <==> l.name in links && links[l.name] == l && Hits(l.filters, e)
    {
      ValuesOfMembers(store, order, l);
      if l in Offered(store, e, n, 0) {
        var h :| h in order && h in store && store[h].value == l;
        assert HasHash(links, hashName, h);
        var m :| m in links && hashName(m) == h;
      }
      if l.name in links && links[l.name] == l && Hits(l.filters, e) {
        assert hashName(l.name) in order;
      }
    }
  }

  predicate NoRepeats(q: seq<Link>) {
    forall i, j :: 0 <= i < j < |q| ==> q[i] != q[j]
  }

  /** Distinct hashes hold distinct subscriptions. */
  lemma {:induction false} OfferedOnce(store: map<Hash, Stored<Link>>, hashName: Name -> Hash, hashes: seq<Hash>)
    requires Distinct(hashes) && forall h :: h in store ==> hashName(store[h].value.name) == h
    ensures NoRepeats(ValuesOf(store, hashes))
  {
    if hashes != [] {
      var rest := hashes[1..];
      assert forall i :: 0 <= i < |rest| ==> rest[i] == hashes[i + 1];
      OfferedOnce(store, hashName, rest);
      if hashes[0] in store {
        var l := store[hashes[0]].value;
        ValuesOfMembers(store, rest, l);
        assert hashes[0] !in rest;
        assert l !in ValuesOf(store, rest);
      }
    }
  }

  /** The subscriptions of the other connections. */
  function Others(links: map<Name, Link>, addr: string): map<Name, Link> {
    map n | n in links && n.0 != addr :: links[n]
  }

  lemma OthersRemain(links: map<Name, Link>, mine: set<Name>, addr: string)
    requires forall n :: n in mine <==> n in links && n.0 == addr
    ensures links - mine == Others(links, addr)
  {
    assert (links - mine).Keys == Others(links, addr).Keys;
  }

  class Handler {
    const config: Config
    const index: MatcherStorage<Link>
    /** The metadata of all connections: every subscription a connection holds. */
    var links: map<Name, Link>
    ghost var Repr: set<object>

    ghost predicate Valid()
      reads this, Repr, index.Repr, index
    {
      && this in Repr && index in Repr && index.Repr <= Repr && this !in index.Repr
      && index.Valid() && index.hashOf == HashOf(config.hashName) && CollisionFree(config.hashName)
      && View(links, index.store, config.hashName)
    }

    constructor (config: Config, numShards: nat, cpus: nat)
      requires cpus > 0 && CollisionFree(config.hashName)
      ensures Valid() && fresh(Repr) && links == map[] && this.config == config
    {
      this.config := config;
      index := new MatcherStorage<Link>(HashOf(config.hashName), numShards, cpus);
      links := map[];
      new;
      Repr := {this} + index.Repr;
    }

    /** A subscription that is not one-shot replaces the connection's former one of the same ID. */
    method LinkSubscription(name: Name, filters: seq<Filter>, oneShot: bool)
      requires Valid()
      modifies Repr
      ensures Valid() && fresh(Repr - old(Repr))
      ensures links == if oneShot then old(links) else old(links)[name := Link(name, filters)]
    {
      hide View, CollisionFree;
      if oneShot {
        return;
      }
      var l := Link(name, filters);
      ViewWith(links, index.store, config.hashName, l);
      index.Index(filters, l);
      links := links[name := l];
      Repr := Repr + index.Repr;
    }

    /** Ends one subscription; answers whether there was one. */
    method UnlinkSubscription(name: Name) returns (ok: bool)
      requires Valid()
      modifies Repr
      ensures Valid() && fresh(Repr - old(Repr))
      ensures links == old(links) - {name} && (ok <==> name in old(links))
    {
      hide View, CollisionFree;
      ViewWithout(links, index.store, config.hashName, name);
      ok := index.Remove(Link(name, []));
      Repr := Repr + index.Repr;
      if ok {
        links := links - {name};
      } else {
        assert links - {name} == links;
      }
    }

    /** A closing connection ends all its subscriptions and nobody else's. */
    method UnlinkConnection(addr: string)
      requires Valid()
      modifies Repr
      ensures Valid() && fresh(Repr - old(Repr))
      ensures links == Others(old(links), addr)
    {
      hide View, CollisionFree, Others;
      var mine := set n | n in links && n.0 == addr;
      var left := mine;
      while left != {}
        invariant Valid() && fresh(Repr - old(Repr)) && left <= mine
        invariant links == old(links) - (mine - left)
        decreases |left|
      {
        var n :| n in left;
        var gone := UnlinkSubscription(n);
        left := left - {n};
      }
      assert mine - left == mine;
      OthersRemain(old(links), mine, addr);
    }

    /** The subscriptions a new event is sent or buffered for. */
    method Targets(e: Event) returns (targets: seq<Link>)
      requires Valid()
      modifies Repr
      ensures Valid() && fresh(Repr - old(Repr)) && links == old(links)
      ensures NoRepeats(targets)
      ensures forall l :: l in targets ==> l.name in links && links[l.name] == l && Wants(config, l, e)
      ensures PlainKind(e.kind) ==>
                forall n :: n in links && Reachable(config, links[n]) && Wants(config, links[n], e) ==> links[n] in targets
    {
      hide View, CollisionFree, FiltersMatch, AllCovered, Hits, Offered, NoRepeats;
      ghost var offered := Offered(index.store, e, |index.shards|, 0);
      var consumer := (s: seq<Link>) => true;
      AlwaysWilling(consumer, [], offered);
      TakenIsPrefix(consumer, [], offered);
      OfferedMeans(links, index.store, config.hashName, e, |index.shards|);
      OfferedDistinct(links, index.store, config.hashName, e, |index.shards|);
      var all := index.Lookup(e, consumer);
      Repr := Repr + index.Repr;
      targets := PickWanting(config, all, e);
      if PlainKind(e.kind) {
        forall n | n in links && Reachable(config, links[n]) && Wants(config, links[n], e)
          ensures links[n] in all
        {
          RoutingLosesNothing(links[n].filters, e, config.userOf(n.0));
        }
      }
    }

    static method PickWanting(config: Config, all: seq<Link>, e: Event) returns (targets: seq<Link>)
      requires NoRepeats(all)
      ensures NoRepeats(targets) && forall l :: l in targets <==> l in all && Wants(config, l, e)
    {
      hide Wants;
      targets := [];
      for i := 0 to |all|
        invariant NoRepeats(targets) && forall l :: l in targets <==> l in all[..i] && Wants(config, l, e)
      {
        assert all[..i + 1] == all[..i] + [all[i]];
        var wanted := CanForwardLiveEvent(config, all[i], e);
        if wanted {
          assert all[i] !in targets;
          targets := targets + [all[i]];
        }
      }
      assert all[..|all|] == all;
    }
  }

  lemma OfferedDistinct(links: map<Name, Link>, store: map<Hash, Stored<Link>>, hashName: Name -> Hash, e: Event, n: nat)
    requires View(links, store, hashName) && n > 0
    ensures NoRepeats(Offered(store, e, n, 0))
  {
    hide NoRepeats;
    ShardOrderDistinct(Candidates(store, e), n, 0);
    forall h | h in store
      ensures hashName(store[h].value.name) == h
    {
      assert HasHash(links, hashName, h);
      var m :| m in links && hashName(m) == h;
    }
    OfferedOnce(store, hashName, ShardOrder(Candidates(store, e), n, 0));
  }
}
