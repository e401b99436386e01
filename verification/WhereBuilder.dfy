/** The WHERE generator (`database/query/query_where_builder.go`): every method appends to one buffer and one
    parameter map. What a method adds is stated as a narrowing of the rows the written clauses accept. */
module WhereBuilder {
  import opened Optional
  import opened Strconv
  import opened Nostr
  import opened FilterMatch
  import opened FilterSql
  import opened BooleanSyntax
  import opened Conditions
  import opened Dedup
  import opened WhereClauses

  method Slice(q: seq<Value>) returns (a: array<Value>)
    ensures fresh(a) && a[..] == q
  {
    a := new Value[|q|](i requires 0 <= i < |q| => q[i]);
  }

  class QueryBuilder {
    var buf: seq<Token<Atom>>
    var params: Params
    /** The buffer is always this prefix followed by the clauses, ANDed. */
    ghost var prefix: seq<Token<Atom>>
    ghost var clauses: seq<Literal<Atom>>

    ghost function Now(): State
      reads this
    {
      State(prefix, clauses, params)
    }

    ghost predicate Valid()
      reads this
    {
      Sound(Now()) && buf == prefix + WriteAll(clauses)
    }

    constructor ()
      ensures Valid() && buf == [] && params == map[] && prefix == [] && clauses == []
    {
      buf, params, prefix, clauses := [], map[], [], [];
    }

    method PushValue(key: Key, value: Value)
      modifies this`params
      ensures params == old(params)[key := value]
    {
      params := params[key := value];
    }

    method IsOnBegin() returns (begin: bool)
      requires buf != []
      ensures begin <==> OnBegin(buf)
    {
      begin := buf[|buf| - 1] == LP;
    }

    method MaybeOP(op: Op)
      modifies this`buf
      ensures buf == Joined(old(buf), op)
    {
      if op.OpNone? || |buf| == 0 {
        return;
      }
      var begin := IsOnBegin();
      if !begin {
        buf := buf + [if op.OpAnd? then AND else OR];
      }
    }

    method MaybeAND()
      modifies this`buf
      ensures buf == Joined(old(buf), OpAnd)
    {
      MaybeOP(OpAnd);
    }

    method WriteString(tokens: seq<Token<Atom>>)
      modifies this`buf
      ensures buf == old(buf) + tokens
    {
      buf := buf + tokens;
    }

    /** What has been written and bound since `s` is one more clause. */
    ghost method Close(s: State, clause: Literal<Atom>, test: Row -> bool)
      requires Sound(s) && prefix == s.prefix && clauses == s.clauses && Extends(s.params, params)
      requires buf == Joined(s.prefix + WriteAll(s.clauses), OpAnd) + Write(clause)
      requires WellFormed(clause) && Every(clause, Bound(params))
      requires forall row :: Holds(clause, Verdict(params, row)) == test(row)
      modifies this`clauses
      ensures Valid() && Narrows(s, Now(), test) && clauses == s.clauses + [clause]
    {
      hide Narrows, Extends, WellFormed, Every, Holds, WriteAll;
      AddClause(s, params, clause, test);
      Begins(s.prefix, s.clauses);
      clauses := clauses + [clause];
      if s.clauses == [] {
        assert buf == prefix + WriteAll(clauses);
      } else {
        assert s.prefix + WriteAll(s.clauses) + [AND] + Write(clause) ==
               s.prefix + (WriteAll(s.clauses) + [AND] + Write(clause));
      }
    }

    // ---- Slices

    /** Binds a slice, deduplicated in place; tells whether it takes ANY or ALL. */
    method BindSlice(a: array<Value>, key: Key) returns (many: bool)
      requires a.Length > 0
      modifies this`params, a
      ensures a[..] == Compacted(old(a[..])) && params == BoundTo(old(params), key, old(a[..]))
      ensures many == (|DedupBy(old(a[..]), Same)| != 1)
    {
      var j := DeduplicateSlice(a, Same);
      assert a[..] == a[..j] + a[j..] && old(a[..])[j..] == old(a[j..]);
      many := j != 1;
      if many {
        PushValue(key, List(a[..j]));
      } else {
        PushValue(key, a[0]);
      }
    }

    method BuildFromSlice(op: Op, a: array<Value>, column: Column, negative: bool, key: Key)
      modifies this`buf, this`params, a
      ensures a.Length == 0 ==> buf == old(buf)
      ensures a[..] == Compacted(old(a[..])) && params == BoundTo(old(params), key, old(a[..]))
      ensures a.Length > 0 ==> buf == Joined(old(buf), op) + [Condition(CompareOf(column, negative, old(a[..]), key))]
    {
      if a.Length == 0 {
        return;
      }
      MaybeOP(op);
      var many := BindSlice(a, key);
      WriteString([Condition(Compare(column, negative, many, key))]);
    }

    ghost method CloseBasic(s: State, atom: Atom, test: Row -> bool)
      requires Sound(s) && prefix == s.prefix && clauses == s.clauses && Extends(s.params, params)
      requires buf == Joined(s.prefix + WriteAll(s.clauses), OpAnd) + [Condition(atom)]
      requires Uses(atom) <= params.Keys
      requires forall row :: States(atom, params, row) == test(row)
      modifies this`clauses
      ensures Valid() && Narrows(s, Now(), test) && clauses == s.clauses + [Basic(atom)]
    {
      hide Narrows, Sound, Extends, WriteAll, States, Uses;
      Close(s, Basic(atom), test);
    }

    /** One slice comparison as a whole clause. */
    method ApplySlice(op: Op, a: array<Value>, column: Column, negative: bool, key: Key, ghost test: Row -> bool)
      requires Valid() && key !in params && (op.OpAnd? || (op.OpNone? && clauses == []))
      requires forall row :: test(row) <==> a.Length == 0 || (ColumnValue(row, column) in a[..]) != negative
      modifies this`buf, this`params, this`clauses, a
      ensures Valid() && Narrows(old(Now()), Now(), test)
      ensures params.Keys <= old(params).Keys + (if a.Length > 0 then {key} else {}) && (a.Length > 0 ==> clauses != [])
    {
      hide States, Narrows, WriteAll, CompareOf, Listed, DedupBy;
      ghost var s, q := Now(), a[..];
      Begins(prefix, clauses);
      if a.Length == 0 {
        NarrowsNot(s, test);
        return;
      }
      BuildFromSlice(op, a, column, negative, key);
      forall row
        ensures States(CompareOf(column, negative, q, key), params, row) == test(row)
      {
        CompareMeans(column, negative, q, key, params, row);
      }
      CompareUses(column, negative, q, key);
      CloseBasic(s, CompareOf(column, negative, q, key), test);
    }

    method ApplyFilterIds(f: Search, filter: nat, ids: array<Value>, ghost now: int)
      requires Valid() && clauses == [] && UpTo(params, filter, 0) && ids[..] == Texts(f.ids)
      modifies this`buf, this`params, this`clauses, ids
      ensures Valid() && Narrows(old(Now()), Now(), Asks(IDS, f, now)) && UpTo(params, filter, 1)
      ensures f.ids != [] ==> clauses != []
    {
      hide Narrows;
      ApplySlice(OpNone, ids, ID, false, Key(filter, NameIds), Asks(IDS, f, now));
    }

    // ---- Addresses

    /** The conditions for full addresses and for event IDs, ORed in parentheses. */
    method ApplyFilterAddresses(f: Search, filter: nat, ghost now: int)
      requires Valid() && UpTo(params, filter, 1)
      modifies this`buf, this`params, this`clauses
      ensures Valid() && Narrows(old(Now()), Now(), Asks(ADDRESSES, f, now)) && UpTo(params, filter, 2)
    {
      hide Narrows;
      ghost var s := Now();
      if |f.addresses| == 0 {
        NarrowsNot(s, Asks(ADDRESSES, f, now));
        return;
      }
      var addresses: seq<string>, ids: seq<string> := [], [];
      for i := 0 to |f.addresses|
        modifies {}
        invariant forall x :: x in addresses <==> x in f.addresses[..i] && ':' in x
        invariant forall x :: x in ids <==> x in f.addresses[..i] && ':' !in x
      {
        var addr := f.addresses[i];
        if ':' in addr {
          addresses := addresses + [addr];
        } else {
          ids := ids + [addr];
        }
      }
      assert f.addresses[..|f.addresses|] == f.addresses;
      ApplySplitAddresses(f, filter, addresses, ids, now);
    }

    method ApplySplitAddresses(f: Search, filter: nat, addresses: seq<string>, ids: seq<string>, ghost now: int)
      requires Valid() && UpTo(params, filter, 1) && f.addresses != []
      requires forall x :: x in addresses <==> x in f.addresses && ':' in x
      requires forall x :: x in ids <==> x in f.addresses && ':' !in x
      modifies this`buf, this`params, this`clauses
      ensures Valid() && Narrows(old(Now()), Now(), Asks(ADDRESSES, f, now)) && UpTo(params, filter, 2)
    {
      hide Narrows, WriteAll, Write, Holds, Every, WellFormed, Sound, AddressChoice, Texts, UpTo;
      ghost var s := Now();
      var full, id := Key(filter, NameAddressFull), Key(filter, NameAddressId);
      AddressesBind(params, filter, addresses, ids);
      assert f.addresses[0] in addresses || f.addresses[0] in ids;
      MaybeAND();
      WriteAddressChoice(addresses, ids, full, id);
      ghost var clause := AddressChoice(addresses, ids, full, id);
      AddressChoiceIs(addresses, ids, full, id, params);
      forall row
        ensures Holds(clause, Verdict(params, row)) == Asks(ADDRESSES, f, now)(row)
      {
        AddressChoiceMeans(addresses, ids, full, id, params, row);
        hide Verdict;
      }
      Close(s, clause, Asks(ADDRESSES, f, now));
    }

    method WriteAddressChoice(addresses: seq<string>, ids: seq<string>, full: Key, id: Key)
      requires addresses != [] || ids != []
      modifies this`buf, this`params
      ensures buf == old(buf) + Write(AddressChoice(addresses, ids, full, id))
      ensures params == BoundTo(BoundTo(old(params), full, Texts(addresses)), id, Texts(ids))
    {
      hide Write, AddressChoice, Texts, CompareOf, BoundTo, Compacted, DedupBy;
      var a := Slice(Texts(addresses));
      var b := Slice(Texts(ids));
      WriteString([LP]);
      assert OnBegin(buf);
      BuildFromSlice(OpNone, a, ADDRESS, false, full);
      BuildFromSlice(OpOr, b, ID, false, id);
      WriteString([RP]);
      WriteAddressChoiceIs(addresses, ids, full, id);
    }

    // ---- Kinds

    /** Writes the condition on reposts and returns the kinds left for the kind column. */
    method ApplySpecialKinds(f: Search, filter: nat, ghost now: int) returns (kinds: seq<int>)
      requires Valid() && UpTo(params, filter, 2)
      modifies this`buf, this`params, this`clauses
      ensures Valid() && Narrows(old(Now()), Now(), Asks(REPOSTS, f, now)) && UpTo(params, filter, 3)
      ensures forall k :: k in kinds <==> Lists(f.kinds, k)
    {
      hide Narrows, Sound, WriteAll, Itoa;
      ghost var s := Now();
      var repostKinds: seq<string> := [];
      kinds := [];
      for i := 0 to |f.kinds|
        modifies {}
        invariant KIND_GENERIC_REPOST !in f.kinds[..i]
        invariant forall k :: k in kinds <==> k in f.kinds[..i] && k !in REPOST_ORIGINALS
        invariant forall x :: x in repostKinds <==> NamesRepost(f.kinds[..i], x)
      {
        var kind := f.kinds[i];
        if kind == KIND_GENERIC_REPOST {
          NarrowsNot(s, Asks(REPOSTS, f, now));
          return f.kinds;
        }
        NamesRepostSnoc(f.kinds[..i], kind);
        assert f.kinds[..i + 1] == f.kinds[..i] + [kind];
        if kind in REPOST_ORIGINALS {
          repostKinds := repostKinds + [Itoa(REPOST_ORIGINALS[kind])];
        } else {
          kinds := kinds + [kind];
        }
      }
      assert f.kinds[..|f.kinds|] == f.kinds;
      AsksRepostsNamed(f.kinds, repostKinds);
      if |repostKinds| > 0 {
        kinds := kinds + [KIND_GENERIC_REPOST];
        ApplyReposts(f, filter, repostKinds, now);
      } else {
        NarrowsNot(s, Asks(REPOSTS, f, now));
      }
    }

    method ApplyReposts(f: Search, filter: nat, repostKinds: seq<string>, ghost now: int)
      requires Valid() && UpTo(params, filter, 2) && repostKinds != [] && KIND_GENERIC_REPOST !in f.kinds
      requires forall x :: x in repostKinds <==> NamesRepost(f.kinds, x)
      modifies this`buf, this`params, this`clauses
      ensures Valid() && Narrows(old(Now()), Now(), Asks(REPOSTS, f, now)) && UpTo(params, filter, 3)
    {
      hide Narrows, Sound, WriteAll, Itoa, Texts, DedupBy, NamesRepost, States;
      ghost var s := Now();
      var key := Key(filter, NameRepostKind);
      MaybeAND();
      var a := Slice(Texts(repostKinds));
      var many := BindSlice(a, key);
      WriteString([Condition(RepostCase(many, key))]);
      forall row
        ensures States(RepostCase(many, key), params, row) == Asks(REPOSTS, f, now)(row)
      {
        RepostCaseMeans(f.kinds, repostKinds, many, key, params, row);
      }
      CloseBasic(s, RepostCase(many, key), Asks(REPOSTS, f, now));
    }

    method ApplyFilterKinds(f: Search, filter: nat, kinds: seq<int>, ghost now: int)
      requires Valid() && UpTo(params, filter, 3)
      requires forall k :: k in kinds <==> Lists(f.kinds, k)
      modifies this`buf, this`params, this`clauses
      ensures Valid() && Narrows(old(Now()), Now(), Asks(KINDS, f, now)) && UpTo(params, filter, 4)
    {
      hide Narrows, Sound, WriteAll, Lists, PlainKindsAllow;
      if |kinds| == 0 {
        forall row
          ensures Asks(KINDS, f, now)(row)
        {
          SignedKindsMean(f.kinds, kinds, [], [], row);
        }
        NarrowsNot(Now(), Asks(KINDS, f, now));
        return;
      }
      var negative: seq<int>, positive: seq<int> := [], [];
      for i := 0 to |kinds|
        modifies {}
        invariant forall k :: k in positive <==> k >= 0 && k in kinds[..i]
        invariant forall k :: k in negative <==> k > 0 && -k in kinds[..i]
      {
        var kind := kinds[i];
        if kind < 0 {
          negative := negative + [-kind];
        } else {
          positive := positive + [kind];
        }
      }
      assert kinds[..|kinds|] == kinds;
      ApplySignedKinds(f, filter, kinds, positive, negative, now);
    }

    method ApplySignedKinds(f: Search, filter: nat, ghost kinds: seq<int>, positive: seq<int>, negative: seq<int>,
                            ghost now: int)
      requires Valid() && UpTo(params, filter, 3) && kinds != []
      requires forall k :: k in kinds <==> Lists(f.kinds, k)
      requires forall k :: k in positive <==> k >= 0 && k in kinds
      requires forall k :: k in negative <==> k > 0 && -k in kinds
      modifies this`buf, this`params, this`clauses
      ensures Valid() && Narrows(old(Now()), Now(), Asks(KINDS, f, now)) && UpTo(params, filter, 4)
    {
      hide Narrows, Sound, WriteAll, Numbers, Lists, PlainKindsAllow, UpTo;
      ghost var s := Now();
      Binds(params, filter, 3, NameKindPositive, Null, 4);
      ghost var test := Asks(KINDS, f, now);
      forall row
        ensures test(row) <==> if positive != [] then row.kind in positive else row.kind !in negative
      {
        SignedKindsMean(f.kinds, kinds, positive, negative, row);
      }
      assert kinds[0] in positive || -kinds[0] in negative;
      var a := Slice(Numbers(positive));
      var b := Slice(Numbers(negative));
      ghost var first := if positive != [] then test else Anything();
      ApplySlice(OpAnd, a, KIND, false, Key(filter, NameKindPositive), first);
      ghost var t := Now();
      KindsBind(s.params, t.params, filter, |positive|);
      if |positive| == 0 {
        ApplySlice(OpAnd, b, KIND, true, Key(filter, NameKindNegative), test);
        NarrowsTwice(s, t, Now(), first, test, test);
        BindsWithin(s.params, params, filter, 3, NameKindNegative, 4);
      }
    }

    // ---- Extensions

    method ApplyFlag(value: Option<bool>, flag: FlagColumn, key: Key, ghost test: Row -> bool)
      requires Valid() && key !in params
      requires forall row :: test(row) <==> (value.Some? ==> FlagValue(row, flag) == value.value)
      modifies this`buf, this`params, this`clauses
      ensures Valid() && Narrows(old(Now()), Now(), test) && params.Keys <= old(params).Keys + {key}
    {
      hide Narrows, Sound, WriteAll, FlagValue;
      ghost var s := Now();
      if value.None? {
        NarrowsNot(s, test);
        return;
      }
      MaybeAND();
      PushValue(key, Flag(value.value));
      WriteString([Condition(FlagIs(flag, key))]);
      CloseBasic(s, FlagIs(flag, key), test);
    }

    method ApplyMedia(f: Search, filter: nat, ghost now: int)
      requires Valid() && UpTo(params, filter, 4)
      modifies this`buf, this`params, this`clauses
      ensures Valid() && Narrows(old(Now()), Now(), Asks(MEDIA, f, now)) && UpTo(params, filter, 7)
    {
      hide Narrows, Sound, WriteAll, UpTo;
      ghost var s, test := Now(), Asks(MEDIA, f, now);
      if f.media.Some? {
        Binds(params, filter, 4, NameMedia, Flag(f.media.value), 7);
        ApplyAnyMedia(f.media.value, Key(filter, NameMedia), test);
      } else {
        ghost var videos, images := FlagTest(HAS_VIDEOS, f.videos), FlagTest(HAS_IMAGES, f.images);
        Binds(params, filter, 4, NameVideos, Null, 6);
        ApplyFlag(f.videos, HAS_VIDEOS, Key(filter, NameVideos), videos);
        ghost var t := Now();
        BindsWithin(s.params, params, filter, 4, NameVideos, 6);
        Binds(params, filter, 6, NameImages, Null, 7);
        ApplyFlag(f.images, HAS_IMAGES, Key(filter, NameImages), images);
        BindsWithin(t.params, params, filter, 6, NameImages, 7);
        NarrowsTwice(s, t, Now(), videos, images, test);
      }
    }

    /** Either kind of media when it is wanted, neither when it is not. */
    method ApplyAnyMedia(want: bool, key: Key, ghost test: Row -> bool)
      requires Valid() && key !in params
      requires forall row :: test(row) <==> if want then row.hasVideos || row.hasImages else !row.hasVideos && !row.hasImages
      modifies this`buf, this`params, this`clauses
      ensures Valid() && Narrows(old(Now()), Now(), test) && params == old(params)[key := Flag(want)]
    {
      hide Narrows, Sound, WriteAll, Write, Holds, Every, WellFormed, Both, Either;
      ghost var s := Now();
      MaybeAND();
      PushValue(key, Flag(want));
      WriteString([LP, Condition(FlagIs(HAS_VIDEOS, key)), if want then OR else AND, Condition(FlagIs(HAS_IMAGES, key)), RP]);
      ghost var videos: Atom, images: Atom := FlagIs(HAS_VIDEOS, key), FlagIs(HAS_IMAGES, key);
      ghost var clause := if want then Either(Basic(videos), Basic(images)) else Both(Basic(videos), Basic(images));
      AtomGroups(videos, images, params);
      AtomGroupsText(videos, images);
      forall row
        ensures Holds(clause, Verdict(params, row)) == test(row)
      {
        AtomGroupsHold(videos, images, Verdict(params, row));
      }
      Close(s, clause, test);
    }

    method ApplyExpiration(f: Search, filter: nat, now: int)
      requires Valid() && UpTo(params, filter, 8)
      modifies this`buf, this`params, this`clauses
      ensures Valid() && Narrows(old(Now()), Now(), Asks(EXPIRATION, f, now)) && UpTo(params, filter, 9)
    {
      hide Narrows, Sound, WriteAll, Write, Holds, Every, WellFormed, Only, UpTo;
      ghost var s, test := Now(), Asks(EXPIRATION, f, now);
      Binds(params, filter, 8, NameExpirationAfter, Number(now), 9);
      if f.expiration.None? {
        NarrowsNot(s, test);
        return;
      }
      var key := Key(filter, NameExpirationAfter);
      MaybeAND();
      var atom: Atom := if f.expiration.value then ExpiresAfter(key) else NeverExpires;
      if f.expiration.value {
        PushValue(key, Number(now));
      }
      CloseOnly(s, atom, test);
    }

    /** Writes one condition in parentheses and closes it as a clause. */
    method CloseOnly(ghost s: State, atom: Atom, ghost test: Row -> bool)
      requires Sound(s) && prefix == s.prefix && clauses == s.clauses && Extends(s.params, params)
      requires buf == Joined(s.prefix + WriteAll(s.clauses), OpAnd)
      requires Uses(atom) <= params.Keys && forall row :: States(atom, params, row) == test(row)
      modifies this`buf, this`clauses
      ensures Valid() && Narrows(s, Now(), test)
    {
      hide Narrows, Sound, Extends, WriteAll, States, Write, Holds, Every, WellFormed, Only, Uses;
      WriteString([LP, Condition(atom), RP]);
      AtomGroups(atom, atom, params);
      AtomGroupsText(atom, atom);
      forall row
        ensures Holds(Only(Basic(atom)), Verdict(params, row)) == test(row)
      {
        AtomGroupsHold(atom, atom, Verdict(params, row));
      }
      Close(s, Only(Basic(atom)), test);
    }

    method ApplyReferences(f: Search, filter: nat, ghost now: int)
      requires Valid() && UpTo(params, filter, 9)
      modifies this`buf, this`params, this`clauses
      ensures Valid() && Narrows(old(Now()), Now(), Asks(REFERENCES, f, now)) && UpTo(params, filter, 10)
    {
      hide Narrows, Sound, WriteAll, UpTo, Extends;
      ghost var s, test := Now(), Asks(REFERENCES, f, now);
      Further(params, filter, 9, 10);
      if f.references.None? {
        NarrowsNot(s, test);
        return;
      }
      var key := Key(filter, NameReferences);
      Binds(params, filter, 9, NameReferences, Flag(f.references.value), 10);
      MaybeAND();
      PushValue(key, Flag(f.references.value));
      WriteString([Condition(ReferenceCase(key))]);
      CloseBasic(s, ReferenceCase(key), test);
    }

    method ApplyFilterForExtensions(f: Search, filter: nat, now: int)
      requires Valid() && UpTo(params, filter, 4)
      modifies this`buf, this`params, this`clauses
      ensures Valid() && UpTo(params, filter, 10)
      ensures Narrows(old(Now()), Now(), AsksAll({MEDIA, QUOTES, EXPIRATION, REFERENCES}, f, now))
    {
      hide Narrows, Sound, WriteAll, AsksAll;
      ghost var s := Now();
      NarrowsNone(s, f, now);
      ApplyMedia(f, filter, now);
      ghost var t := Now();
      NarrowsMore(s, s, t, {}, MEDIA, f, now);
      ApplyFlag(f.quotes, IS_QUOTE, Key(filter, NameQuote), Asks(QUOTES, f, now));
      ghost var u := Now();
      NarrowsMore(s, t, u, {} + {MEDIA}, QUOTES, f, now);
      ApplyExpiration(f, filter, now);
      ghost var v := Now();
      NarrowsMore(s, u, v, {} + {MEDIA} + {QUOTES}, EXPIRATION, f, now);
      ApplyReferences(f, filter, now);
      NarrowsMore(s, v, Now(), {} + {MEDIA} + {QUOTES} + {EXPIRATION}, REFERENCES, f, now);
      assert {} + {MEDIA} + {QUOTES} + {EXPIRATION} + {REFERENCES} == {MEDIA, QUOTES, EXPIRATION, REFERENCES};
    }

    // ---- Topics, languages, authors, time

    method ApplyFilterTtags(f: Search, filter: nat, ghost now: int)
      requires Valid() && UpTo(params, filter, 10)
      modifies this`buf, this`params, this`clauses
      ensures Valid() && UpTo(params, filter, 12)
      ensures Narrows(old(Now()), Now(), AsksAll({TOPICS_OUT, TOPICS_IN}, f, now))
    {
      hide Narrows, Sound, WriteAll, AsksAll;
      ghost var s := Now();
      NarrowsNone(s, f, now);
      ApplyTopicsOut(f, filter, now);
      ghost var t := Now();
      NarrowsMore(s, s, t, {}, TOPICS_OUT, f, now);
      ApplyTopicsIn(f, filter, now);
      NarrowsMore(s, t, Now(), {} + {TOPICS_OUT}, TOPICS_IN, f, now);
      assert {} + {TOPICS_OUT} + {TOPICS_IN} == {TOPICS_OUT, TOPICS_IN};
    }

    method ApplyTopicsOut(f: Search, filter: nat, ghost now: int)
      requires Valid() && UpTo(params, filter, 10)
      modifies this`buf, this`params, this`clauses
      ensures Valid() && Narrows(old(Now()), Now(), Asks(TOPICS_OUT, f, now)) && UpTo(params, filter, 11)
    {
      hide Narrows, Sound, WriteAll, Write, Holds, Every, WellFormed, Without, ValuesOf, States, Texts, TopicsOf;
      hide UpTo, Extends;
      ghost var s, test := Now(), Asks(TOPICS_OUT, f, now);
      var values := ValuesOf(f.tags, "!t");
      Binds(params, filter, 10, NameTtagsExclude, List(Texts(values)), 11);
      TopicsAreValues(f, "!t");
      if |values| == 0 {
        NarrowsNot(s, test);
        return;
      }
      var key := Key(filter, NameTtagsExclude);
      MaybeAND();
      PushValue(key, List(Texts(values)));
      WriteString([LP, NOT, LP, Condition(TopicsOverlap(key)), RP, RP]);
      WithoutIs(TopicsOverlap(key), params);
      forall row
        ensures Holds(Without(TopicsOverlap(key)), Verdict(params, row)) == test(row)
      {
        WithoutHolds(TopicsOverlap(key), Verdict(params, row));
        OverlapMeans(values, TopicsOf(f, "!t"), key, params, row);
      }
      Close(s, Without(TopicsOverlap(key)), test);
    }

    method ApplyTopicsIn(f: Search, filter: nat, ghost now: int)
      requires Valid() && UpTo(params, filter, 11)
      modifies this`buf, this`params, this`clauses
      ensures Valid() && Narrows(old(Now()), Now(), Asks(TOPICS_IN, f, now)) && UpTo(params, filter, 12)
    {
      hide Narrows, Sound, WriteAll, ValuesOf, States, Texts, TopicsOf, UpTo, Extends;
      ghost var s, test := Now(), Asks(TOPICS_IN, f, now);
      var values := ValuesOf(f.tags, "t");
      Binds(params, filter, 11, NameTtags, List(Texts(values)), 12);
      TopicsAreValues(f, "t");
      if |values| == 0 {
        NarrowsNot(s, test);
        return;
      }
      var key := Key(filter, NameTtags);
      MaybeAND();
      PushValue(key, List(Texts(values)));
      forall row
        ensures States(TopicsOverlap(key), params, row) == test(row)
      {
        OverlapMeans(values, TopicsOf(f, "t"), key, params, row);
      }
      CloseOnly(s, TopicsOverlap(key), test);
    }

    method ApplyFilterLang(f: Search, filter: nat, ghost now: int)
      requires Valid() && UpTo(params, filter, 12)
      modifies this`buf, this`params, this`clauses
      ensures Valid() && Narrows(old(Now()), Now(), Asks(LANGUAGES, f, now)) && UpTo(params, filter, 13)
    {
      hide Narrows, Sound, WriteAll, IsLanguage;
      ghost var test := Asks(LANGUAGES, f, now);
      if "l" !in f.tags {
        NarrowsNot(Now(), test);
        return;
      }
      var values, langs: seq<string> := f.tags["l"], [];
      for i := 0 to |values|
        modifies {}
        invariant forall x :: x in langs <==> ListsLanguage(values[..i], x)
      {
        LanguageHasValue(values[i]);
        ListsLanguageSnoc(values[..i], values[i]);
        assert values[..i + 1] == values[..i] + [values[i]];
        if IsLanguage(values[i]) {
          langs := langs + [values[i][0].value];
        }
      }
      assert values[..|values|] == values;
      LanguagesListed(f, langs);
      ApplyLangs(f, filter, langs, now);
    }

    method ApplyLangs(f: Search, filter: nat, langs: seq<string>, ghost now: int)
      requires Valid() && UpTo(params, filter, 12)
      requires (forall x :: x in langs <==> x in Languages(f)) && (langs == [] <==> Languages(f) == {})
      modifies this`buf, this`params, this`clauses
      ensures Valid() && Narrows(old(Now()), Now(), Asks(LANGUAGES, f, now)) && UpTo(params, filter, 13)
    {
      hide Narrows, Sound, WriteAll, Languages;
      ghost var test := Asks(LANGUAGES, f, now);
      if |langs| == 0 {
        NarrowsNot(Now(), test);
        return;
      }
      var a := Slice(Texts(langs));
      ApplySlice(OpAnd, a, LANG, false, Key(filter, NameLangs), test);
    }

    /** The author list is deduplicated in place and used again for the second comparison. */
    method ApplyAuthors(f: Search, filter: nat, authors: array<Value>, ghost now: int)
      requires Valid() && UpTo(params, filter, 13) && authors[..] == Texts(f.authors)
      modifies this`buf, this`params, this`clauses, authors
      ensures Valid() && Narrows(old(Now()), Now(), Asks(AUTHORS, f, now)) && UpTo(params, filter, 14)
      ensures f.authors != [] ==> clauses != []
    {
      hide Narrows, Sound, WriteAll, Write, Holds, Every, WellFormed, AuthorChoice, CompareOf, DedupBy, Listed, Compacted;
      hide UpTo, Extends, Texts;
      ghost var s, test := Now(), Asks(AUTHORS, f, now);
      Further(params, filter, 13, 14);
      if |f.authors| == 0 {
        NarrowsNot(s, test);
        return;
      }
      ghost var q := Texts(f.authors);
      var key := Key(filter, NameAuthors);
      Binds(params, filter, 13, NameAuthors, Listed(DedupBy(q, Same)), 14);
      MaybeAND();
      WriteAuthors(authors, key);
      AuthorChoiceIs(q, key, params);
      forall row
        ensures Holds(AuthorChoice(q, key), Verdict(params, row)) == test(row)
      {
        AuthorChoiceMeans(q, key, params, row);
      }
      Close(s, AuthorChoice(q, key), test);
    }

    method WriteAuthors(authors: array<Value>, key: Key)
      requires authors.Length > 0
      modifies this`buf, this`params, authors
      ensures params == BoundTo(old(params), key, old(authors[..]))
      ensures key in params ==> buf == old(buf) + Write(AuthorChoice(old(authors[..]), key))
    {
      hide Write, AuthorChoice, CompareOf, DedupBy, Listed, Compacted;
      ghost var q := authors[..];
      CompactedTwice(q, key, params, MASTER_PUBKEY);
      WriteString([LP]);
      assert OnBegin(buf);
      BuildFromSlice(OpNone, authors, PUBKEY, false, key);
      WriteString([AND, Condition(NotHidden), OR]);
      BuildFromSlice(OpNone, authors, MASTER_PUBKEY, false, key);
      WriteString([AND, Condition(NotHidden), RP]);
      AuthorChoiceIs(q, key, params);
    }

    method ApplyTimeRange(f: Search, filter: nat, ghost now: int) returns (ok: bool)
      requires Valid() && UpTo(params, filter, 14)
      modifies this`buf, this`params, this`clauses
      ensures ok <==> TimeRangeValid(f)
      ensures ok ==> Valid() && Narrows(old(Now()), Now(), Asks(TIME, f, now)) && UpTo(params, filter, 16)
    {
      hide Narrows, Sound, WriteAll, UpTo;
      ghost var s, test := Now(), Asks(TIME, f, now);
      if f.since.Some? && f.until.Some? {
        if f.since.value == f.until.value {
          Binds(params, filter, 14, NameTimestamp, Null, 16);
          ApplyInstant(f.since.value, Key(filter, NameTimestamp), test);
          BindsWithin(s.params, params, filter, 14, NameTimestamp, 16);
          return true;
        } else if f.since.value > f.until.value {
          return false;
        }
      }
      ApplyRange(f, filter, test);
      return true;
    }

    method ApplyRange(f: Search, filter: nat, ghost test: Row -> bool)
      requires Valid() && UpTo(params, filter, 14)
      requires forall row :: test(row) <==> Since(f)(row) && Until(f)(row)
      modifies this`buf, this`params, this`clauses
      ensures Valid() && Narrows(old(Now()), Now(), test) && UpTo(params, filter, 16)
    {
      hide Narrows, Sound, WriteAll, UpTo;
      ghost var s := Now();
      ghost var from, to := Since(f), Until(f);
      Binds(params, filter, 14, NameSince, Null, 15);
      ApplyBound(f.since, Key(filter, NameSince), true, from);
      ghost var t := Now();
      BindsWithin(s.params, params, filter, 14, NameSince, 15);
      Binds(params, filter, 15, NameUntil, Null, 16);
      ApplyBound(f.until, Key(filter, NameUntil), false, to);
      BindsWithin(t.params, params, filter, 15, NameUntil, 16);
      NarrowsTwice(s, t, Now(), from, to, test);
    }

    method ApplyInstant(time: int, key: Key, ghost test: Row -> bool)
      requires Valid() && key !in params && forall row :: test(row) <==> row.createdAt == time
      modifies this`buf, this`params, this`clauses
      ensures Valid() && Narrows(old(Now()), Now(), test) && params.Keys <= old(params).Keys + {key}
    {
      hide Narrows, Sound, WriteAll;
      ghost var s := Now();
      MaybeAND();
      PushValue(key, Number(time));
      WriteString([Condition(CreatedIs(key))]);
      CloseBasic(s, CreatedIs(key), test);
    }

    method ApplyBound(bound: Option<int>, key: Key, lower: bool, ghost test: Row -> bool)
      requires Valid() && key !in params
      requires forall row :: test(row) <==>
                 (bound.Some? && bound.value > 0 ==>
                    if lower then bound.value <= row.createdAt else row.createdAt <= bound.value)
      modifies this`buf, this`params, this`clauses
      ensures Valid() && Narrows(old(Now()), Now(), test) && params.Keys <= old(params).Keys + {key}
    {
      hide Narrows, Sound, WriteAll;
      ghost var s := Now();
      if bound.Some? && bound.value > 0 {
        MaybeAND();
        PushValue(key, Number(bound.value));
        var atom: Atom := if lower then CreatedFrom(key) else CreatedTo(key);
        WriteString([Condition(atom)]);
        CloseBasic(s, atom, test);
      } else {
        NarrowsNot(s, test);
      }
    }

    // ---- Tags

    /** Binds one alternative's values; `next` is the counter of values afterwards. */
    method BindValues(values: TagValues, filter: nat, ghost tagID: nat, tagValue: nat)
      returns (binds: seq<Bind>, next: nat)
      requires TagNamesBelow(params, filter, tagID, tagValue)
      modifies this`params
      ensures Extends(old(params), params) && BindsAlt(binds, values, params)
      ensures TagNamesBelow(params, filter, tagID, next)
    {
      hide BindsAlt;
      binds, next := [], tagValue;
      BindsNothing(params);
      for j := 0 to |values|
        invariant Extends(old(params), params) && BindsAlt(binds, values[..j], params)
        invariant TagNamesBelow(params, filter, tagID, next)
      {
        assert values[..j + 1] == values[..j] + [values[j]];
        if values[j].None? {
          BindsAltSkip(binds, values[..j], params);
        } else {
          var key := Key(filter, NameTagValue(next));
          BindsAltSnoc(binds, values[..j], params, values[j].value, key);
          PushValue(key, Text(values[j].value));
          binds := binds + [Bind(j + 1, key)];
          next := next + 1;
        }
      }
      assert values[..|values|] == values;
    }

    /** One alternative's condition as one more choice of an open list of choices. */
    method WriteAlternative(name: string, alt: TagValues, key: Key, filter: nat, ghost tagID: nat, tagValue: nat,
                            ghost base: seq<Token<Atom>>, ghost choices: seq<Conjunction<Atom>>)
      returns (next: nat, ghost more: seq<Conjunction<Atom>>)
      requires TagNamesBelow(params, filter, tagID, tagValue) && Counts(name, alt)
      requires key in params && params[key] == Text(TagName(name))
      requires SoundChoices(choices, params) && buf == base + [LP] + WriteAny(choices)
      modifies this`buf, this`params
      ensures TagNamesBelow(params, filter, tagID, next) && Extends(old(params), params)
      ensures SoundChoices(more, params) && buf == base + [LP] + WriteAny(more) && |more| == |choices| + 1
      ensures forall row :: Offers(more, params, row) <==>
                Offers(choices, old(params), row) || HasTag(row.tags, TagName(name), Cut(alt)) != Excludes(name)
    {
      hide BindsAlt, TagNamesBelow, Extends, SoundChoices, Offers, Write, WriteAny, WellFormed, Every, Holds;
      hide HasTag, TagName, Uses, Signed, States, Excludes, Cut, Counts;
      ghost var before := params;
      var exclude := Excludes(name);
      MaybeOP(OpOr);
      var binds;
      binds, next := BindValues(Cut(alt), filter, tagID, tagValue);
      var atom: Atom := TagExists(key, binds);
      WriteString(if exclude then [NOT, Condition(atom)] else [Condition(atom)]);
      more := choices + [Conjunction([Signed(exclude, atom)])];
      BoundStays(before, params, key);
      BindsUsed(key, binds, Cut(alt), params);
      SignedIs(exclude, atom, params);
      SoundParts(choices, before);
      WriteChoice(base, choices, Signed(exclude, atom));
      forall row
        ensures Offers(more, params, row) <==>
                  Offers(choices, before, row) || HasTag(row.tags, TagName(name), Cut(alt)) != exclude
      {
        AddChoice(choices, before, params, Signed(exclude, atom), row);
        SignedHolds(exclude, atom, Verdict(params, row));
        TagExistsMeans(key, TagName(name), binds, Cut(alt), params, row);
      }
      AddChoiceSound(choices, before, params, Signed(exclude, atom));
    }

    /** The alternatives of one tag, ORed up to the closing parenthesis; a condition that always holds when none
        counts. */
    method WriteAlternatives(name: string, alts: seq<TagValues>, key: Key, filter: nat, ghost tagID: nat,
                             tagValue: nat, ghost base: seq<Token<Atom>>)
      returns (next: nat, ghost choices: seq<Conjunction<Atom>>)
      requires TagNamesBelow(params, filter, tagID, tagValue) && HasValues(alts)
      requires key in params && params[key] == Text(TagName(name)) && buf == base + [LP]
      modifies this`buf, this`params
      ensures TagNamesBelow(params, filter, tagID, next) && Extends(old(params), params)
      ensures SoundChoices(choices, params) && choices != [] && buf == base + [LP] + WriteAny(choices) + [RP]
      ensures forall row :: Offers(choices, params, row) <==> TagAllows(name, alts, row)
    {
      hide TagNamesBelow, SoundChoices, Offers, WriteAny, Counts, HasValues, TagAllows, TagOffers, HasTag, TagName;
      hide Excludes, Cut, Extends;
      next, choices := tagValue, [];
      var beforeTagLoopBufLen := |buf|;
      ghost var before := params;
      NoChoices(params, base, name);
      for i := 0 to |alts|
        invariant TagNamesBelow(params, filter, tagID, next) && Extends(before, params)
        invariant key in params && params[key] == Text(TagName(name))
        invariant SoundChoices(choices, params) && buf == base + [LP] + WriteAny(choices)
        invariant choices == [] <==> forall j :: 0 <= j < i ==> !Counts(name, alts[j])
        invariant forall row :: Offers(choices, params, row) <==> TagOffers(name, alts[..i], row)
      {
        ghost var mid := params;
        assert alts[..i + 1] == alts[..i] + [alts[i]];
        forall row
          ensures TagOffers(name, alts[..i + 1], row) <==>
                    TagOffers(name, alts[..i], row) ||
                    (Counts(name, alts[i]) && HasTag(row.tags, TagName(name), Cut(alts[i])) != Excludes(name))
        {
          TagOffersSnoc(name, alts[..i], alts[i], row);
        }
        if Counts(name, alts[i]) {
          next, choices := WriteAlternative(name, alts[i], key, filter, tagID, next, base, choices);
          BoundStays(mid, params, key);
          ExtendsTwice(before, mid, params);
        }
      }
      assert alts[..|alts|] == alts;
      WriteNothing(base, choices, params);
      if |buf| == beforeTagLoopBufLen {
        WriteString([Condition(Always)]);
        choices := [Conjunction([Basic(Always)])];
        AlwaysOffers(params);
      }
      forall row
        ensures Offers(choices, params, row) <==> TagAllows(name, alts, row)
      {
        TagAllowsOffers(name, alts, row);
      }
      WriteString([RP]);
    }

    /** One tag entry of the filter as one clause. */
    method ApplyTag(name: string, alts: seq<TagValues>, filter: nat, tagID: nat, tagValue: nat) returns (next: nat)
      requires Valid() && TagNamesBelow(params, filter, tagID, tagValue)
      modifies this`buf, this`params, this`clauses
      ensures Valid() && Narrows(old(Now()), Now(), TagTest(name, alts))
      ensures TagNamesBelow(params, filter, tagID + 1, next)
    {
      hide Narrows, Sound, WriteAll, TagNamesBelow, HasValues, HasTag, TagName, Excludes;
      hide Write, WriteAny, Holds, Every, WellFormed, SoundChoices, Offers, TagAllows, Extends;
      ghost var s := Now();
      var key := Key(filter, NameTag(tagID + 1));
      var queryTagName, exclude := TagName(name), Excludes(name);
      TagNameBinds(params, filter, tagID, tagValue, Text(queryTagName));
      MaybeAND();
      ghost var base := buf;
      PushValue(key, Text(queryTagName));
      ghost var mid := params;
      if !HasValues(alts) {
        next := tagValue;
        ApplyTagName(s, name, alts, key);
      } else {
        WriteString([LP]);
        ghost var choices;
        next, choices := WriteAlternatives(name, alts, key, filter, tagID + 1, tagValue, base);
        ExtendsTwice(s.params, mid, params);
        ghost var clause := Group(Disjunction(choices));
        ChoicesIs(choices, params);
        assert buf == base + Write(clause);
        forall row
          ensures Holds(clause, Verdict(params, row)) == TagTest(name, alts)(row)
        {
          ChoicesHold(choices, params, row);
        }
        Close(s, clause, TagTest(name, alts));
      }
    }

    method ApplyTagName(ghost s: State, name: string, ghost alts: seq<TagValues>, key: Key)
      requires Sound(s) && prefix == s.prefix && clauses == s.clauses && Extends(s.params, params)
      requires buf == Joined(s.prefix + WriteAll(s.clauses), OpAnd) && !HasValues(alts)
      requires key in params && params[key] == Text(TagName(name))
      modifies this`buf, this`clauses
      ensures Valid() && Narrows(s, Now(), TagTest(name, alts))
    {
      hide Narrows, Sound, WriteAll, HasValues, HasTag, TagName, Excludes, States;
      hide Write, Holds, Every, WellFormed, Extends, BindsAlt, Signed;
      var exclude := Excludes(name);
      var atom: Atom := TagExists(key, []);
      WriteString(if exclude then [NOT, Condition(atom)] else [Condition(atom)]);
      BindsNothing(params);
      BindsUsed(key, [], [], params);
      SignedIs(exclude, atom, params);
      forall row
        ensures Holds(Signed(exclude, atom), Verdict(params, row)) == TagTest(name, alts)(row)
      {
        SignedHolds(exclude, atom, Verdict(params, row));
        TagExistsMeans(key, TagName(name), [], [], params, row);
      }
      Close(s, Signed(exclude, atom), TagTest(name, alts));
    }

    /** All tag entries, in whatever order the map yields its names. */
    method ApplyFilterTags(f: Search, filter: nat, order: seq<string>, ghost now: int)
      requires Valid() && UpTo(params, filter, 16)
      requires forall name :: name in order <==> name in f.tags
      modifies this`buf, this`params, this`clauses
      ensures Valid() && Narrows(old(Now()), Now(), Asks(TAGS, f, now)) && UpTo(params, filter, 17)
    {
      hide Narrows, Sound, WriteAll, UpTo, TagNamesBelow, Extends, TagAllows;
      ghost var s, test := Now(), Asks(TAGS, f, now);
      Further(params, filter, 16, 17);
      if |f.tags| == 0 {
        NarrowsNot(s, test);
        return;
      }
      if IsDOnly(f.tags) {
        ApplyDTag(f.tags["d"][0][0].value, filter, test);
        return;
      }
      var tagID: nat, tagValue: nat := 0, 0;
      TagNamesSteps(params, filter, 0, 0);
      NarrowsNot(s, TagsTest(f.tags, []));
      for i := 0 to |order|
        invariant Valid() && TagNamesBelow(params, filter, tagID, tagValue)
        invariant Narrows(s, Now(), TagsTest(f.tags, order[..i]))
      {
        ghost var t := Now();
        var tagName := order[i];
        assert order[..i + 1] == order[..i] + [tagName];
        if IsTopic(tagName) {
          TagNamesSteps(params, filter, tagID, tagValue);
          assert forall row :: TagsTest(f.tags, order[..i + 1])(row) == TagsTest(f.tags, order[..i])(row);
          NarrowsSame(s, t, TagsTest(f.tags, order[..i]), TagsTest(f.tags, order[..i + 1]));
        } else {
          tagValue := ApplyTag(tagName, f.tags[tagName], filter, tagID, tagValue);
          NarrowsTwice(s, t, Now(), TagsTest(f.tags, order[..i]), TagTest(tagName, f.tags[tagName]),
                       TagsTest(f.tags, order[..i + 1]));
        }
        tagID := tagID + 1;
      }
      assert order[..|order|] == order;
      TagNamesSteps(params, filter, tagID, tagValue);
      NarrowsSame(s, Now(), TagsTest(f.tags, order), test);
    }

    method ApplyDTag(d: string, filter: nat, ghost test: Row -> bool)
      requires Valid() && UpTo(params, filter, 16) && forall row :: test(row) <==> row.dTag == d
      modifies this`buf, this`params, this`clauses
      ensures Valid() && Narrows(old(Now()), Now(), test) && UpTo(params, filter, 17)
    {
      hide Narrows, Sound, WriteAll, UpTo, Extends;
      ghost var s := Now();
      var key := Key(filter, NameDtag);
      Binds(params, filter, 16, NameDtag, Text(d), 17);
      MaybeAND();
      PushValue(key, Text(d));
      WriteString([Condition(DTagIs(key))]);
      CloseBasic(s, DTagIs(key), test);
    }

    // ---- Markers, soft deletion, text search

    method ApplyFilterTagMarkers(f: Search, filter: nat, ghost now: int)
      requires Valid() && UpTo(params, filter, 17)
      modifies this`buf, this`params, this`clauses
      ensures Valid() && Narrows(old(Now()), Now(), Asks(MARKERS, f, now)) && UpTo(params, filter, 18)
    {
      hide Narrows, Sound, WriteAll, UpTo, MarkerNamesBelow, MarkerAllows;
      ghost var s := Now();
      MarkerNamesSteps(params, filter, 0);
      NarrowsNot(s, MarkersTest([]));
      for id := 0 to |f.markers|
        invariant Valid() && MarkerNamesBelow(params, filter, id)
        invariant Narrows(s, Now(), MarkersTest(f.markers[..id]))
      {
        ghost var t := Now();
        assert f.markers[..id + 1] == f.markers[..id] + [f.markers[id]];
        ApplyMarker(f.markers[id], filter, id);
        MarkersTestSnoc(f.markers[..id], f.markers[id]);
        NarrowsTwice(s, t, Now(), MarkersTest(f.markers[..id]), MarkerTest(f.markers[id]), MarkersTest(f.markers[..id + 1]));
      }
      assert f.markers[..|f.markers|] == f.markers;
      MarkerNamesSteps(params, filter, |f.markers|);
      NarrowsSame(s, Now(), MarkersTest(f.markers), Asks(MARKERS, f, now));
    }

    method ApplyMarker(m: Marker, filter: nat, id: nat)
      requires Valid() && MarkerNamesBelow(params, filter, id)
      modifies this`buf, this`params, this`clauses
      ensures Valid() && Narrows(old(Now()), Now(), MarkerTest(m)) && MarkerNamesBelow(params, filter, id + 1)
    {
      hide Narrows, Sound, WriteAll, MarkerNamesBelow, Extends, HasMarker, States;
      hide Write, Holds, Every, WellFormed, Signed;
      ghost var s, test := Now(), MarkerTest(m);
      var key, other := Key(filter, NameMarkerTag(id)), Key(filter, NameMarker(id));
      MaybeAND();
      if AsksReply(m) {
        MarkerNameBinds(params, filter, id, Null, Flag(!m.exclude));
        PushValue(other, Flag(!m.exclude));
        WriteString([Condition(FlagIs(IS_REPLY, other))]);
        forall row
          ensures States(FlagIs(IS_REPLY, other), params, row) == test(row)
        {
          ReplyMeans(other, params, row);
        }
        CloseBasic(s, FlagIs(IS_REPLY, other), test);
      } else {
        MarkerNameBinds(params, filter, id, Text(m.tag), Text(m.marker));
        PushValue(key, Text(m.tag));
        PushValue(other, Text(m.marker));
        var atom: Atom := MarkerExists(key, other);
        WriteString(if m.exclude then [NOT, Condition(atom)] else [Condition(atom)]);
        SignedIs(m.exclude, atom, params);
        forall row
          ensures Holds(Signed(m.exclude, atom), Verdict(params, row)) == test(row)
        {
          SignedHolds(m.exclude, atom, Verdict(params, row));
          MarkerExistsMeans(m, key, other, params, row);
        }
        Close(s, Signed(m.exclude, atom), test);
      }
    }

    method ApplyConstant(atom: Atom, ghost test: Row -> bool)
      requires Valid() && Uses(atom) == {} && forall row :: States(atom, params, row) == test(row)
      modifies this`buf, this`clauses
      ensures Valid() && Narrows(old(Now()), Now(), test) && clauses != []
    {
      hide Narrows, Sound, WriteAll, Uses, States;
      ghost var s := Now();
      ExtendsItself(params);
      MaybeAND();
      WriteString([Condition(atom)]);
      hide Extends;
      CloseBasic(s, atom, test);
    }

    method ApplyFilterSoftDeleted(f: Search, ghost now: int)
      requires Valid()
      modifies this`buf, this`clauses
      ensures Valid() && Narrows(old(Now()), Now(), Asks(DELETED, f, now))
      ensures f.ids == [] && f.authors == [] ==> clauses != []
    {
      hide Narrows, Sound, WriteAll, HasValues;
      ghost var test := Asks(DELETED, f, now);
      if |f.kinds| > 0 && |f.authors| > 0 && "d" in f.tags && HasValues(f.tags["d"]) {
        NarrowsNot(Now(), test);
        return;
      }
      if |f.ids| == 0 {
        ApplyConstant(NotDeleted, test);
      } else {
        NarrowsNot(Now(), test);
      }
    }

    method MaybeApplyTextSearch(f: Search, filter: nat, ghost now: int)
      requires Valid() && UpTo(params, filter, 18)
      modifies this`buf, this`params, this`clauses
      ensures Valid() && Narrows(old(Now()), Now(), Asks(SEARCH, f, now)) && UpTo(params, filter, 19)
    {
      hide Narrows, Sound, WriteAll, UpTo;
      ghost var test := Asks(SEARCH, f, now);
      Further(params, filter, 18, 19);
      if |f.kinds| == 1 && f.kinds[0] == KIND_FOLLOW_LIST {
        for i := 0 to |f.dependencies|
          modifies {}
          invariant forall j :: 0 <= j < i ==> !FollowsProfiles(f.dependencies[j])
        {
          if FollowsProfiles(f.dependencies[i]) {
            NarrowsNot(Now(), test);
            return;
          }
        }
      }
      ApplyTextSearch(f, filter, test);
    }

    method ApplyTextSearch(f: Search, filter: nat, ghost test: Row -> bool)
      requires Valid() && UpTo(params, filter, 18)
      requires forall row :: test(row) <==> (f.search.Some? ==> f.search.value in row.likes)
      modifies this`buf, this`params, this`clauses
      ensures Valid() && Narrows(old(Now()), Now(), test) && UpTo(params, filter, 19)
    {
      hide Narrows, Sound, WriteAll, UpTo, Extends;
      ghost var s := Now();
      Further(params, filter, 18, 19);
      if f.search.None? {
        NarrowsNot(s, test);
        return;
      }
      var key := Key(filter, NameFts);
      Binds(params, filter, 18, NameFts, Text(f.search.value), 19);
      MaybeAND();
      PushValue(key, Text(f.search.value));
      CloseOnly(s, LookupLike(key), test);
    }

    method ApplyCommunity(f: Search, ghost now: int)
      requires Valid()
      modifies this`buf, this`clauses
      ensures Valid() && Narrows(old(Now()), Now(), Asks(COMMUNITY, f, now))
    {
      hide Narrows, Sound, WriteAll;
      if TAG_COMMUNITY !in f.tags {
        ApplyConstant(CommunityCase, Asks(COMMUNITY, f, now));
      } else {
        NarrowsNot(Now(), Asks(COMMUNITY, f, now));
      }
    }

    // ---- Whole filters

    /** The clauses about what the event is: IDs to references. */
    method ApplyContent(f: Search, filter: nat, ids: array<Value>, now: int)
      requires Valid() && clauses == [] && UpTo(params, filter, 0) && ids[..] == Texts(f.ids)
      modifies this`buf, this`params, this`clauses, ids
      ensures Valid() && UpTo(params, filter, 10) && (f.ids != [] ==> clauses != [])
      ensures Narrows(old(Now()), Now(),
                      AsksAll({IDS, ADDRESSES, REPOSTS, KINDS, MEDIA, QUOTES, EXPIRATION, REFERENCES}, f, now))
    {
      hide Narrows, Sound, WriteAll, UpTo, AsksAll, Lists, Texts;
      ghost var s := Now();
      NarrowsNone(s, f, now);
      ApplyFilterIds(f, filter, ids, now);
      ghost var t := Now();
      NarrowsMore(s, s, t, {}, IDS, f, now);
      ApplyFilterAddresses(f, filter, now);
      ghost var u := Now();
      NarrowsMore(s, t, u, {} + {IDS}, ADDRESSES, f, now);
      var kinds := ApplySpecialKinds(f, filter, now);
      ghost var v := Now();
      NarrowsMore(s, u, v, {} + {IDS} + {ADDRESSES}, REPOSTS, f, now);
      ApplyFilterKinds(f, filter, kinds, now);
      ghost var w := Now();
      NarrowsMore(s, v, w, {} + {IDS} + {ADDRESSES} + {REPOSTS}, KINDS, f, now);
      ApplyFilterForExtensions(f, filter, now);
      NarrowsUnion(s, w, Now(), {} + {IDS} + {ADDRESSES} + {REPOSTS} + {KINDS}, {MEDIA, QUOTES, EXPIRATION, REFERENCES}, f, now);
      assert {} + {IDS} + {ADDRESSES} + {REPOSTS} + {KINDS} + {MEDIA, QUOTES, EXPIRATION, REFERENCES} ==
             {IDS, ADDRESSES, REPOSTS, KINDS, MEDIA, QUOTES, EXPIRATION, REFERENCES};
      NarrowsKeeps(t, u, Asks(ADDRESSES, f, now));
      NarrowsKeeps(u, v, Asks(REPOSTS, f, now));
      NarrowsKeeps(v, w, Asks(KINDS, f, now));
      NarrowsKeeps(w, Now(), AsksAll({MEDIA, QUOTES, EXPIRATION, REFERENCES}, f, now));
    }

    /** The clauses about topics, languages, authors and time. */
    method ApplyOrigin(f: Search, filter: nat, authors: array<Value>, ghost now: int) returns (ok: bool)
      requires Valid() && UpTo(params, filter, 10) && authors[..] == Texts(f.authors)
      modifies this`buf, this`params, this`clauses, authors
      ensures ok <==> TimeRangeValid(f)
      ensures ok ==> Valid() && UpTo(params, filter, 16) && (f.authors != [] ==> clauses != [])
      ensures ok ==> Narrows(old(Now()), Now(), AsksAll({TOPICS_OUT, TOPICS_IN, LANGUAGES, AUTHORS, TIME}, f, now))
    {
      hide Narrows, Sound, WriteAll, UpTo, AsksAll, Texts, TimeRangeValid;
      ghost var s := Now();
      ApplyFilterTtags(f, filter, now);
      ghost var t := Now();
      ApplyFilterLang(f, filter, now);
      ghost var u := Now();
      NarrowsMore(s, t, u, {TOPICS_OUT, TOPICS_IN}, LANGUAGES, f, now);
      ApplyAuthors(f, filter, authors, now);
      ghost var v := Now();
      NarrowsMore(s, u, v, {TOPICS_OUT, TOPICS_IN} + {LANGUAGES}, AUTHORS, f, now);
      ok := ApplyTimeRange(f, filter, now);
      if ok {
        NarrowsMore(s, v, Now(), {TOPICS_OUT, TOPICS_IN} + {LANGUAGES} + {AUTHORS}, TIME, f, now);
        assert {TOPICS_OUT, TOPICS_IN} + {LANGUAGES} + {AUTHORS} + {TIME} == {TOPICS_OUT, TOPICS_IN, LANGUAGES, AUTHORS, TIME};
        NarrowsKeeps(v, Now(), Asks(TIME, f, now));
      }
    }

    /** The clauses about tags, and the defaults. */
    method ApplyRest(f: Search, filter: nat, order: seq<string>, ghost now: int)
      requires Valid() && UpTo(params, filter, 16) && forall name :: name in order <==> name in f.tags
      modifies this`buf, this`params, this`clauses
      ensures Valid() && UpTo(params, filter, 19)
      ensures |old(clauses)| <= |clauses| && (f.ids == [] && f.authors == [] ==> clauses != [])
      ensures Narrows(old(Now()), Now(), AsksAll({TAGS, MARKERS, DELETED, SEARCH, COMMUNITY}, f, now))
    {
      hide Narrows, Sound, WriteAll, UpTo, AsksAll;
      ghost var s := Now();
      NarrowsNone(s, f, now);
      ApplyFilterTags(f, filter, order, now);
      ghost var t := Now();
      NarrowsMore(s, s, t, {}, TAGS, f, now);
      ApplyFilterTagMarkers(f, filter, now);
      ghost var u := Now();
      NarrowsMore(s, t, u, {} + {TAGS}, MARKERS, f, now);
      ApplyFilterSoftDeleted(f, now);
      ghost var v := Now();
      NarrowsMore(s, u, v, {} + {TAGS} + {MARKERS}, DELETED, f, now);
      MaybeApplyTextSearch(f, filter, now);
      ghost var w := Now();
      NarrowsMore(s, v, w, {} + {TAGS} + {MARKERS} + {DELETED}, SEARCH, f, now);
      ApplyCommunity(f, now);
      NarrowsMore(s, w, Now(), {} + {TAGS} + {MARKERS} + {DELETED} + {SEARCH}, COMMUNITY, f, now);
      assert {} + {TAGS} + {MARKERS} + {DELETED} + {SEARCH} + {COMMUNITY} == {TAGS, MARKERS, DELETED, SEARCH, COMMUNITY};
      NarrowsKeeps(s, t, Asks(TAGS, f, now));
      NarrowsKeeps(t, u, Asks(MARKERS, f, now));
      NarrowsKeeps(u, v, Asks(DELETED, f, now));
      NarrowsKeeps(v, w, Asks(SEARCH, f, now));
      NarrowsKeeps(w, Now(), Asks(COMMUNITY, f, now));
    }

    /** All clauses of a non-empty filter. There is always at least one, so the section is never `()`. */
    method ApplySection(f: Search, filter: nat, ids: array<Value>, authors: array<Value>, order: seq<string>, now: int)
      returns (ok: bool)
      requires Valid() && clauses == [] && UpTo(params, filter, 0)
      requires ids != authors && ids[..] == Texts(f.ids) && authors[..] == Texts(f.authors)
      requires forall name :: name in order <==> name in f.tags
      modifies this`buf, this`params, this`clauses, ids, authors
      ensures ok <==> TimeRangeValid(f)
      ensures ok ==> Valid() && UpTo(params, filter, 19) && clauses != []
      ensures ok ==> Narrows(old(Now()), Now(), AsksAll(ALL_PARTS, f, now))
    {
      hide Narrows, Sound, WriteAll, UpTo, AsksAll, Texts, TimeRangeValid;
      ghost var s := Now();
      ghost var first := {IDS, ADDRESSES, REPOSTS, KINDS, MEDIA, QUOTES, EXPIRATION, REFERENCES};
      ghost var second := {TOPICS_OUT, TOPICS_IN, LANGUAGES, AUTHORS, TIME};
      ghost var third := {TAGS, MARKERS, DELETED, SEARCH, COMMUNITY};
      ApplyContent(f, filter, ids, now);
      ghost var t := Now();
      ok := ApplyOrigin(f, filter, authors, now);
      if !ok {
        return;
      }
      ghost var u := Now();
      NarrowsKeeps(t, u, AsksAll(second, f, now));
      NarrowsUnion(s, t, u, first, second, f, now);
      ApplyRest(f, filter, order, now);
      NarrowsUnion(s, u, Now(), first + second, third, f, now);
      assert first + second + third == ALL_PARTS;
    }

    method ApplyFilter(f: Search, filter: nat, ids: array<Value>, authors: array<Value>, order: seq<string>, now: int)
      returns (ok: bool)
      requires Valid() && clauses == [] && UpTo(params, filter, 0)
      requires ids != authors && ids[..] == Texts(f.ids) && authors[..] == Texts(f.authors)
      requires forall name :: name in order <==> name in f.tags
      modifies this, ids, authors
      ensures ok <==> IsEmpty(f) || TimeRangeValid(f)
      ensures ok ==> Valid() && UpTo(params, filter, 19) && Narrows(old(Now()), Now(), SectionTest(f, now))
    {
      hide Narrows, WriteAll, UpTo, AsksAll, Texts, TimeRangeValid, Allows;
      hide Write, Holds, WellFormed, Every, Accepts, Section, Extends;
      ghost var s := Now();
      if IsEmpty(f) {
        Further(params, filter, 0, 19);
        NarrowsNot(s, SectionTest(f, now));
        return true;
      }
      Begins(prefix, clauses);
      WriteString([LP]);
      prefix := buf;
      ghost var inner := Now();
      Begins(prefix, clauses);
      ok := ApplySection(f, filter, ids, authors, order, now);
      if !ok {
        return;
      }
      WriteString([RP]);
      ghost var done := Now();
      NarrowsKeeps(inner, done, AsksAll(ALL_PARTS, f, now));
      prefix, clauses := s.prefix, [];
      SectionIs(done);
      forall row
        ensures Holds(Section(done.clauses), Verdict(params, row)) == SectionTest(f, now)(row)
      {
        SectionHolds(done, row);
        NarrowedFromNothing(inner, done, AsksAll(ALL_PARTS, f, now), row);
        AllPartsAsk(f, now, row);
      }
      assert buf == Joined(s.prefix + WriteAll(s.clauses), OpAnd) + Write(Section(done.clauses));
      Close(s, Section(done.clauses), SectionTest(f, now));
    }

    method ApplyFilterGiftWrap(f: Search, filter: nat)
      requires Valid() && UpTo(params, filter, 19)
      modifies this`buf, this`params, this`clauses
      ensures Valid() && Narrows(old(Now()), Now(), GiftTest(f)) && UpTo(params, filter, 20) && clauses != []
    {
      hide Narrows, Sound, WriteAll, UpTo, Extends, Write, Holds, WellFormed, Every, Only, Either;
      ghost var s := Now();
      var key := Key(filter, NameGiftReceiver);
      var receiver := if f.user.Some? then Text(f.user.value) else Null;
      Binds(params, filter, 19, NameGiftReceiver, receiver, 20);
      ExtendsItself(params);
      MaybeAND();
      WriteString([LP, Condition(NoReceiver)]);
      if f.user.Some? {
        WriteString([OR, Condition(ReceiverIs(key))]);
        PushValue(key, receiver);
      }
      WriteString([RP]);
      ghost var clause := GiftClause(f, key);
      GiftClauseIs(f, key, params);
      forall row
        ensures Holds(clause, Verdict(params, row)) == GiftTest(f)(row)
      {
        GiftClauseMeans(f, key, params, row);
      }
      hide GiftClause;
      Close(s, clause, GiftTest(f));
    }

    /** One filter's text: its section, the clauses added for an empty request, and the two that always apply. */
    method BuildWhere(f: Search, filter: nat, ids: array<Value>, authors: array<Value>, order: seq<string>, now: int)
      returns (ok: bool)
      requires Valid() && clauses == [] && UpTo(params, filter, 0)
      requires ids != authors && ids[..] == Texts(f.ids) && authors[..] == Texts(f.authors)
      requires forall name :: name in order <==> name in f.tags
      modifies this, ids, authors
      ensures ok <==> IsEmpty(f) || TimeRangeValid(f)
      ensures ok ==> Valid() && UpTo(params, filter, 20) && Narrows(old(Now()), Now(), SelectsTest(f, now)) && clauses != []
    {
      hide Narrows, Sound, WriteAll, UpTo, Texts, TimeRangeValid, IsEmpty;
      ghost var s := Now();
      ok := ApplyFilter(f, filter, ids, authors, order, now);
      if !ok {
        return;
      }
      ghost var t := Now();
      ghost var one, two, three := SectionTest(f, now), PlainTest(f), ShownTest();
      ApplyExtra(f);
      ghost var u := Now();
      ApplyConstant(NotHidden, three);
      ghost var v := Now();
      ApplyFilterGiftWrap(f, filter);
      SelectsInSteps(s, t, u, v, Now(), f, now);
    }

    method ApplyExtra(f: Search)
      requires Valid()
      modifies this`buf, this`clauses
      ensures Valid() && Narrows(old(Now()), Now(), PlainTest(f))
    {
      hide Narrows, Sound, WriteAll;
      ghost var s := Now();
      if f.plain {
        ApplyConstant(CommunityCase, OwnTest());
        ghost var t := Now();
        ApplyConstant(NotDeleted, KeptTest());
        NarrowsTwice(s, t, Now(), OwnTest(), KeptTest(), PlainTest(f));
      } else {
        NarrowsNot(s, PlainTest(f));
      }
    }

    /** One filter of a request, in parentheses, after the choices written before it. */
    method BuildNext(input: Input, i: nat, ghost choices: seq<Conjunction<Atom>>, now: int)
      returns (ok: bool, ghost more: seq<Conjunction<Atom>>)
      requires buf == WriteAny(choices) && SoundChoices(choices, params) && |choices| == i
      requires UpTo(params, i, 0) && Ready(input)
      modifies this, input.ids, input.authors
      ensures ok <==> IsEmpty(input.search) || TimeRangeValid(input.search)
      ensures ok ==> buf == WriteAny(more) && SoundChoices(more, params) && |more| == i + 1 && UpTo(params, i + 1, 0)
      ensures ok ==> forall row :: Offers(more, params, row) <==>
                       Offers(choices, old(params), row) || Selects(input.search, row, now)
    {
      hide Narrows, WriteAll, WriteAny, UpTo, Texts, TimeRangeValid, IsEmpty, Offers, SoundChoices, Selects;
      more := choices;
      NoChoicesYet(map[]);
      if i > 0 {
        WriteString([OR]);
      }
      ghost var before := buf;
      WriteString([LP]);
      prefix, clauses := buf, [];
      Begins(prefix, clauses);
      ghost var s := Now();
      ok := BuildWhere(input.search, i, input.ids, input.authors, input.order, now);
      if !ok {
        return;
      }
      NarrowsKeeps(s, Now(), SelectsTest(input.search, now));
      WriteString([RP]);
      assert buf == before + ([LP] + WriteAll(clauses) + [RP]);
      SectionChoice(choices, s, Now(), SelectsTest(input.search, now));
      more := choices + [Conjunction([Section(clauses)])];
      NextFilter(params, i, 20);
    }

    /** The whole WHERE text of a request: one parenthesised part per filter, ORed. */
    method BuildSingleWhere(inputs: seq<Input>, now: int) returns (ok: bool)
      requires buf == [] && params == map[] && inputs != []
      requires forall i :: 0 <= i < |inputs| ==> Ready(inputs[i])
      requires forall i, j :: 0 <= i < j < |inputs| ==> Apart(inputs[i], inputs[j])
      modifies this, set i | 0 <= i < |inputs| :: inputs[i].ids, set i | 0 <= i < |inputs| :: inputs[i].authors
      ensures ok <==> forall i :: 0 <= i < |inputs| ==> IsEmpty(inputs[i].search) || TimeRangeValid(inputs[i].search)
      ensures ok ==> Parse(buf).Some? && EveryAny(Parse(buf).value, Bound(params))
      ensures ok ==> forall row :: SomeHolds(Parse(buf).value, Verdict(params, row)) <==>
                       exists i :: 0 <= i < |inputs| && Selects(inputs[i].search, row, now)
    {
      hide Narrows, WriteAll, WriteAny, UpTo, Texts, TimeRangeValid, IsEmpty, Offers, SoundChoices, Selects;
      ghost var choices: seq<Conjunction<Atom>> := [];
      NoChoicesYet(params);
      for i := 0 to |inputs|
        invariant buf == WriteAny(choices) && SoundChoices(choices, params) && |choices| == i
        invariant UpTo(params, i, 0)
        invariant forall j :: i <= j < |inputs| ==> Ready(inputs[j])
        invariant forall j :: 0 <= j < i ==> IsEmpty(inputs[j].search) || TimeRangeValid(inputs[j].search)
        invariant forall row :: Offers(choices, params, row) <==> exists j :: 0 <= j < i && Selects(inputs[j].search, row, now)
      {
        ok, choices := BuildNext(inputs[i], i, choices, now);
        if !ok {
          return;
        }
      }
      ChoicesParse(choices, params);
      ok := true;
    }
  }

  /** One filter of a request, with the slices the generator compacts in place and the order in which its tag map
      happens to be iterated. */
  datatype Input = Input(search: Search, ids: array<Value>, authors: array<Value>, order: seq<string>)

  ghost predicate Ready(input: Input)
    reads input.ids, input.authors
  {
    && input.ids != input.authors
    && input.ids[..] == Texts(input.search.ids) && input.authors[..] == Texts(input.search.authors)
    && forall name :: name in input.order <==> name in input.search.tags
  }

  predicate Apart(one: Input, other: Input) {
    {one.ids, one.authors} !! {other.ids, other.authors}
  }
}
