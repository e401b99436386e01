/** What single clauses of a WHERE text mean: the part of the generator that is about values. */
module WhereClauses {
  import opened Optional
  import opened Strconv
  import opened Nostr
  import opened FilterMatch
  import opened FilterSql
  import opened BooleanSyntax
  import opened Conditions
  import opened Dedup

  datatype Op = OpNone | OpAnd | OpOr

  /** What the buffer is followed by before a new clause. */
  function Joined(buf: seq<Token<Atom>>, op: Op): seq<Token<Atom>> {
    if op.OpNone? || OnBegin(buf) then buf else buf + [if op.OpAnd? then AND else OR]
  }

  function Same(v: Value): Value {
    v
  }

  /** How a deduplicated slice is bound: alone, or as a list. */
  function Listed(d: seq<Value>): Value {
    if |d| == 1 then d[0] else List(d)
  }

  function Texts(q: seq<string>): (v: seq<Value>)
    ensures |v| == |q|
    ensures forall s :: Text(s) in v <==> s in q
  {
    var v := seq(|q|, i requires 0 <= i < |q| => Text(q[i]));
    assert forall i :: 0 <= i < |q| ==> v[i] == Text(q[i]);
    v
  }

  function Numbers(q: seq<int>): (v: seq<Value>)
    ensures |v| == |q|
    ensures forall n :: Number(n) in v <==> n in q
  {
    var v := seq(|q|, i requires 0 <= i < |q| => Number(q[i]));
    assert forall i :: 0 <= i < |q| ==> v[i] == Number(q[i]);
    v
  }

  /** What an in-place deduplication leaves in the whole slice. */
  function Compacted(q: seq<Value>): seq<Value> {
    var d := DedupBy(q, Same);
    d + q[|d|..]
  }

  /** The parameters once a slice is bound; an empty slice binds nothing. */
  function BoundTo(params: Params, key: Key, q: seq<Value>): Params {
    if q == [] then params else params[key := Listed(DedupBy(q, Same))]
  }

  function CompareOf(column: Column, negative: bool, q: seq<Value>, key: Key): Atom {
    Compare(column, negative, |DedupBy(q, Same)| != 1, key)
  }

  /** A slice comparison selects by membership in the slice, repeated values or not. */
  lemma CompareMeans(column: Column, negative: bool, q: seq<Value>, key: Key, params: Params, row: Row)
    requires q != [] && key in params && params[key] == Listed(DedupBy(q, Same))
    ensures States(CompareOf(column, negative, q, key), params, row) <==> (ColumnValue(row, column) in q) != negative
  {
    hide DedupBy;
    AmongListed(ColumnValue(row, column), q);
  }

  lemma CompareUses(column: Column, negative: bool, q: seq<Value>, key: Key)
    ensures Uses(CompareOf(column, negative, q, key)) == {key}
  {
  }

  lemma AmongListed(x: Value, q: seq<Value>)
    requires q != []
    ensures var d := DedupBy(q, Same); d != [] && (Among(x, Listed(d), |d| != 1) <==> x in q)
  {
    DedupDistinct(q, Same);
    assert q[0] in q;
    if x in q {
      assert Occurs(DedupBy(q, Same), Same, x);
    }
  }

  lemma Begins(prefix: seq<Token<Atom>>, clauses: seq<Literal<Atom>>)
    requires OnBegin(prefix)
    ensures OnBegin(prefix + WriteAll(clauses)) <==> clauses == []
    ensures clauses == [] ==> prefix + WriteAll(clauses) == prefix
  {
    assert clauses == [] ==> prefix + WriteAll(clauses) == prefix;
  }

  function Anything(): Row -> bool {
    (row: Row) => true
  }

  lemma SignedKindsMean(listed: seq<int>, kinds: seq<int>, positive: seq<int>, negative: seq<int>, row: Row)
    requires forall k :: k in kinds <==> Lists(listed, k)
    requires forall k :: k in positive <==> k >= 0 && k in kinds
    requires forall k :: k in negative <==> k > 0 && -k in kinds
    ensures PlainKindsAllow(listed, row) <==> if positive != [] then row.kind in positive else row.kind !in negative
  {
    if positive != [] {
      assert positive[0] in positive && Lists(listed, positive[0]);
    }
    assert (exists k :: k >= 0 && Lists(listed, k)) <==> positive != [];
    if row.kind > 0 {
      assert -row.kind !in REPOST_ORIGINALS;
      assert Lists(listed, -row.kind) <==> -row.kind in listed;
    }
  }

  /** Some listed pseudo-kind is a repost of the kind with this decimal name. */
  predicate NamesRepost(kinds: seq<int>, x: string) {
    exists k :: k in kinds && k in REPOST_ORIGINALS && Itoa(REPOST_ORIGINALS[k]) == x
  }

  lemma NamesRepostSnoc(kinds: seq<int>, kind: int)
    ensures forall x :: NamesRepost(kinds + [kind], x) <==>
                          NamesRepost(kinds, x) || (kind in REPOST_ORIGINALS && Itoa(REPOST_ORIGINALS[kind]) == x)
  {
    hide Itoa;
    forall x
      ensures NamesRepost(kinds + [kind], x) <==>
                NamesRepost(kinds, x) || (kind in REPOST_ORIGINALS && Itoa(REPOST_ORIGINALS[kind]) == x)
    {
      if NamesRepost(kinds, x) {
        var k :| k in kinds && k in REPOST_ORIGINALS && Itoa(REPOST_ORIGINALS[k]) == x;
        assert k in kinds + [kind];
      }
      assert kind in kinds + [kind];
    }
  }

  lemma AsksRepostsNamed(kinds: seq<int>, names: seq<string>)
    requires KIND_GENERIC_REPOST !in kinds && forall x :: x in names <==> NamesRepost(kinds, x)
    ensures AsksReposts(kinds) <==> names != []
  {
    hide Itoa;
    if AsksReposts(kinds) {
      var k :| k in kinds && k in REPOST_ORIGINALS;
      assert NamesRepost(kinds, Itoa(REPOST_ORIGINALS[k]));
    }
    if names != [] {
      assert names[0] in names;
    }
  }

  lemma RepostCaseMeans(kinds: seq<int>, names: seq<string>, many: bool, key: Key, params: Params,
                                           row: Row)
    requires KIND_GENERIC_REPOST !in kinds && names != [] && forall x :: x in names <==> NamesRepost(kinds, x)
    requires key in params && params[key] == Listed(DedupBy(Texts(names), Same))
    requires many == (|DedupBy(Texts(names), Same)| != 1)
    ensures States(RepostCase(many, key), params, row) <==> RepostsAllow(kinds, row)
  {
    hide Itoa, DedupBy, Texts, Listed, Among;
    AsksRepostsNamed(kinds, names);
    forall t | t in row.tags && |t| > 1
      ensures Among(Text(t[1]), Get(params, key), many) <==> NamesRepost(kinds, t[1])
    {
      AmongListed(Text(t[1]), Texts(names));
    }
  }

  ghost function AsksAll(parts: set<Part>, f: Search, now: int): Row -> bool {
    (row: Row) => forall part :: part in parts ==> Allows(part, f, now, row)
  }

  lemma NarrowsNone(s: State, f: Search, now: int)
    ensures Narrows(s, s, AsksAll({}, f, now))
  {
  }

  lemma NarrowsMore(s: State, t: State, u: State, parts: set<Part>, part: Part, f: Search, now: int)
    requires Narrows(s, t, AsksAll(parts, f, now)) && Narrows(t, u, Asks(part, f, now))
    ensures Narrows(s, u, AsksAll(parts + {part}, f, now))
  {
    hide Narrows, Allows;
    NarrowsTwice(s, t, u, AsksAll(parts, f, now), Asks(part, f, now), AsksAll(parts + {part}, f, now));
  }

  function FlagTest(flag: FlagColumn, value: Option<bool>): Row -> bool {
    (row: Row) => value.Some? ==> FlagValue(row, flag) == value.value
  }

  /** The parenthesised choice between the comparisons that are needed. */
  function AddressChoice(addresses: seq<string>, ids: seq<string>, full: Key, id: Key): Literal<Atom> {
    var one, two := Basic(CompareOf(ADDRESS, false, Texts(addresses), full)), Basic(CompareOf(ID, false, Texts(ids), id));
    if ids == [] then Only(one) else if addresses == [] then Only(two) else Either(one, two)
  }

  lemma WriteAddressChoiceIs(addresses: seq<string>, ids: seq<string>, full: Key, id: Key)
    ensures var one, two := CompareOf(ADDRESS, false, Texts(addresses), full), CompareOf(ID, false, Texts(ids), id);
            Write(AddressChoice(addresses, ids, full, id)) ==
              if ids == [] then [LP, Condition(one), RP]
              else if addresses == [] then [LP, Condition(two), RP]
              else [LP, Condition(one), OR, Condition(two), RP]
  {
    hide Write, Only, Either, CompareOf;
    var one, two := CompareOf(ADDRESS, false, Texts(addresses), full), CompareOf(ID, false, Texts(ids), id);
    AtomGroupsText(one, two);
    AtomGroupsText(two, two);
  }

  lemma AddressChoiceIs(addresses: seq<string>, ids: seq<string>, full: Key, id: Key, params: Params)
    requires (addresses != [] ==> full in params) && (ids != [] ==> id in params) && (addresses != [] || ids != [])
    ensures var clause := AddressChoice(addresses, ids, full, id);
            WellFormed(clause) && Every(clause, Bound(params))
  {
    hide WellFormed, Every, Only, Either;
    var one, two := CompareOf(ADDRESS, false, Texts(addresses), full), CompareOf(ID, false, Texts(ids), id);
    if addresses != [] { AtomGroups(one, if ids != [] then two else one, params); }
    if ids != [] { AtomGroups(two, two, params); }
  }

  lemma AddressesBind(params: Params, filter: nat, addresses: seq<string>, ids: seq<string>)
    requires UpTo(params, filter, 1)
    ensures var full, id := Key(filter, NameAddressFull), Key(filter, NameAddressId);
            var after := BoundTo(BoundTo(params, full, Texts(addresses)), id, Texts(ids));
            full !in params && id !in params && Extends(params, after) && UpTo(after, filter, 2)
  {
    hide DedupBy, Listed;
  }

  lemma KindsBind(params: Params, after: Params, filter: nat, positive: nat)
    requires UpTo(params, filter, 3) && after.Keys <= params.Keys + (if positive > 0 then {Key(filter, NameKindPositive)} else {})
    ensures UpTo(after, filter, 4) && (positive == 0 ==> UpTo(after, filter, 3) && Key(filter, NameKindNegative) !in after)
  {
  }

  lemma AddressChoiceMeans(addresses: seq<string>, ids: seq<string>, full: Key, id: Key, params: Params, row: Row)
    requires addresses != [] || ids != []
    requires addresses != [] ==> full in params && params[full] == Listed(DedupBy(Texts(addresses), Same))
    requires ids != [] ==> id in params && params[id] == Listed(DedupBy(Texts(ids), Same))
    ensures Holds(AddressChoice(addresses, ids, full, id), Verdict(params, row)) <==>
              row.address in addresses || row.id in ids
  {
    hide Holds, Only, Either, States, CompareOf, DedupBy, Listed, Texts;
    var one, two := CompareOf(ADDRESS, false, Texts(addresses), full), CompareOf(ID, false, Texts(ids), id);
    if addresses != [] { CompareMeans(ADDRESS, false, Texts(addresses), full, params, row); }
    if ids != [] { CompareMeans(ID, false, Texts(ids), id, params, row); }
    AtomGroupsHold(one, two, Verdict(params, row));
  }

  // ---- Groups of conditions

  lemma BasicIs(a: Atom, params: Params)
    ensures WellFormed(Basic(a))
    ensures Uses(a) <= params.Keys ==> Every(Basic(a), Bound(params))
  {
  }

  lemma AtomGroups(a: Atom, b: Atom, params: Params)
    requires Uses(a) <= params.Keys && Uses(b) <= params.Keys
    ensures WellFormed(Only(Basic(a))) && Every(Only(Basic(a)), Bound(params))
    ensures WellFormed(Both(Basic(a), Basic(b))) && Every(Both(Basic(a), Basic(b)), Bound(params))
    ensures WellFormed(Either(Basic(a), Basic(b))) && Every(Either(Basic(a), Basic(b)), Bound(params))
  {
    hide Uses, Only, Both, Either, Every, WellFormed;
    var l, r: Literal<Atom> := Basic(a), Basic(b);
    BasicIs(a, params);
    BasicIs(b, params);
    GroupsWellFormed(l, r, l);
    GroupsEvery(l, r, l, Bound(params));
  }

  lemma AtomGroupsText(a: Atom, b: Atom)
    ensures Write(Only(Basic(a))) == [LP, Condition(a), RP]
    ensures Write(Both(Basic(a), Basic(b))) == [LP, Condition(a), AND, Condition(b), RP]
    ensures Write(Either(Basic(a), Basic(b))) == [LP, Condition(a), OR, Condition(b), RP]
  {
    hide Only, Both, Either, Write;
    WriteGroups(Basic(a), Basic(b), Basic(a));
    WriteBasic(a);
    WriteBasic(b);
  }

  lemma WriteBasic(a: Atom)
    ensures Write(Basic(a)) == [Condition(a)]
  {
  }

  lemma AtomGroupsHold(a: Atom, b: Atom, verdict: Atom -> bool)
    ensures Holds(Only(Basic(a)), verdict) <==> verdict(a)
    ensures Holds(Only(Basic(b)), verdict) <==> verdict(b)
    ensures Holds(Both(Basic(a), Basic(b)), verdict) <==> verdict(a) && verdict(b)
    ensures Holds(Either(Basic(a), Basic(b)), verdict) <==> verdict(a) || verdict(b)
  {
    hide Only, Both, Either;
    GroupsHold(Basic(a), Basic(b), Basic(a), verdict);
    GroupsHold(Basic(b), Basic(a), Basic(a), verdict);
  }

  // ---- Topics

  /** The non-nil values of every alternative, in order. */
  function AllValues(alts: seq<TagValues>): (q: seq<string>)
    ensures forall x :: x in q <==> x in Topics(alts)
  {
    if alts == [] then []
    else
      TopicsSnoc(alts);
      AllValues(alts[..|alts| - 1]) + Values(alts[|alts| - 1])
  }

  function Values(alt: TagValues): (q: seq<string>)
    ensures forall x :: x in q <==> Some(x) in alt
  {
    if alt == [] then []
    else
      var init, last := alt[..|alt| - 1], alt[|alt| - 1];
      assert alt == init + [last];
      if last.Some? then Values(init) + [last.value] else Values(init)
  }

  lemma TopicsSnoc(alts: seq<TagValues>)
    requires alts != []
    ensures forall x :: x in Topics(alts) <==> x in Topics(alts[..|alts| - 1]) || Some(x) in alts[|alts| - 1]
  {
    var init, last := alts[..|alts| - 1], alts[|alts| - 1];
    forall x
      ensures x in Topics(alts) <==> x in Topics(init) || Some(x) in last
    {
      if x in Topics(alts) {
        var i, j :| 0 <= i < |alts| && 0 <= j < |alts[i]| && alts[i][j].Some? && alts[i][j].value == x;
        if i < |init| {
          assert init[i][j].value == x;
        } else {
          assert last[j] == Some(x);
        }
      }
      if x in Topics(init) {
        var i, j :| 0 <= i < |init| && 0 <= j < |init[i]| && init[i][j].Some? && init[i][j].value == x;
        assert alts[i][j].value == x;
      }
      if Some(x) in last {
        var j :| 0 <= j < |last| && last[j] == Some(x);
        assert alts[|init|][j].value == x;
      }
    }
  }

  /** What the tag library's `All` returns for a tag entry that may be missing. */
  function ValuesOf(tags: TagMap, name: string): seq<string> {
    if name in tags then AllValues(tags[name]) else []
  }

  lemma TopicsAreValues(f: Search, name: string)
    ensures forall x :: x in ValuesOf(f.tags, name) <==> x in TopicsOf(f, name)
    ensures ValuesOf(f.tags, name) == [] <==> TopicsOf(f, name) == {}
  {
    var q := ValuesOf(f.tags, name);
    if q != [] {
      assert q[0] in TopicsOf(f, name);
    }
    if x :| x in TopicsOf(f, name) {
      assert x in q;
    }
  }

  lemma OverlapMeans(q: seq<string>, topics: set<string>, key: Key, params: Params, row: Row)
    requires key in params && params[key] == List(Texts(q)) && forall x :: x in q <==> x in topics
    ensures States(TopicsOverlap(key), params, row) <==> HasTopic(row, topics)
  {
    hide Texts;
  }

  /** `(NOT (condition))`. */
  function Without(a: Atom): Literal<Atom> {
    Only(Negated(Only(Basic(a))))
  }

  lemma WithoutIs(a: Atom, params: Params)
    requires Uses(a) <= params.Keys
    ensures WellFormed(Without(a)) && Every(Without(a), Bound(params))
    ensures Write(Without(a)) == [LP, NOT, LP, Condition(a), RP, RP]
  {
    hide Uses, Only, Write, WellFormed, Every;
    var l: Literal<Atom> := Negated(Only(Basic(a)));
    AtomGroups(a, a, params);
    AtomGroupsText(a, a);
    NegatedIs(Only(Basic(a)), params);
    GroupsWellFormed(l, l, l);
    GroupsEvery(l, l, l, Bound(params));
    WriteGroups(l, l, l);
  }

  lemma NegatedIs(l: Literal<Atom>, params: Params)
    requires WellFormed(l) && Every(l, Bound(params))
    ensures WellFormed(Negated(l)) && Every(Negated(l), Bound(params)) && Write(Negated(l)) == [NOT] + Write(l)
  {
  }

  lemma WithoutHolds(a: Atom, verdict: Atom -> bool)
    ensures Holds(Without(a), verdict) <==> !verdict(a)
  {
    hide Only;
    var l: Literal<Atom> := Negated(Only(Basic(a)));
    AtomGroupsHold(a, a, verdict);
    assert Holds(l, verdict) == !Holds(Only(Basic(a)), verdict);
    GroupsHold(l, l, l, verdict);
  }

  // ---- Languages

  lemma LanguagesListed(f: Search, langs: seq<string>)
    requires "l" in f.tags
    requires forall x :: x in langs <==> ListsLanguage(f.tags["l"], x)
    ensures forall x :: x in langs <==> x in Languages(f)
    ensures langs == [] <==> Languages(f) == {}
  {
    hide IsLanguage;
    assert forall x :: x in Languages(f) <==> ListsLanguage(f.tags["l"], x);
    if langs != [] {
      assert ListsLanguage(f.tags["l"], langs[0]);
    }
    if x :| x in Languages(f) {
      assert x in langs;
    }
  }

  predicate ListsLanguage(alts: seq<TagValues>, x: string) {
    exists i :: 0 <= i < |alts| && IsLanguage(alts[i]) && LanguageOf(alts[i]) == x
  }

  lemma ListsLanguageSnoc(alts: seq<TagValues>, alt: TagValues)
    ensures forall x :: ListsLanguage(alts + [alt], x) <==>
                          ListsLanguage(alts, x) || (IsLanguage(alt) && LanguageOf(alt) == x)
  {
    hide IsLanguage;
    forall x
      ensures ListsLanguage(alts + [alt], x) <==> ListsLanguage(alts, x) || (IsLanguage(alt) && LanguageOf(alt) == x)
    {
      LanguageHasValue(alt);
      if ListsLanguage(alts, x) {
        var i :| 0 <= i < |alts| && IsLanguage(alts[i]) && LanguageOf(alts[i]) == x;
        assert (alts + [alt])[i] == alts[i];
      }
      assert (alts + [alt])[|alts|] == alt;
    }
  }

  lemma LanguageHasValue(alt: TagValues)
    ensures IsLanguage(alt) ==> |alt| > 0 && alt[0].Some?
  {
  }

  // ---- Authors

  /** `(pubkey … and hidden=false OR master_pubkey … and hidden=false)`. */
  function AuthorChoice(q: seq<Value>, key: Key): Literal<Atom> {
    EitherWith(Basic(CompareOf(PUBKEY, false, q, key)), Basic(CompareOf(MASTER_PUBKEY, false, q, key)), Basic(NotHidden))
  }

  lemma AuthorChoiceIs(q: seq<Value>, key: Key, params: Params)
    requires key in params
    ensures WellFormed(AuthorChoice(q, key)) && Every(AuthorChoice(q, key), Bound(params))
    ensures Write(AuthorChoice(q, key)) ==
            [LP, Condition(CompareOf(PUBKEY, false, q, key)), AND, Condition(NotHidden), OR,
             Condition(CompareOf(MASTER_PUBKEY, false, q, key)), AND, Condition(NotHidden), RP]
  {
    var a, b := CompareOf(PUBKEY, false, q, key), CompareOf(MASTER_PUBKEY, false, q, key);
    CompareUses(PUBKEY, false, q, key);
    CompareUses(MASTER_PUBKEY, false, q, key);
    BasicIs(a, params);
    BasicIs(b, params);
    BasicIs(NotHidden, params);
    WriteBasic(a);
    WriteBasic(b);
    WriteBasic(NotHidden);
    hide Write, WellFormed, Every, CompareOf, EitherWith;
    GroupsWellFormed(Basic(a), Basic(b), Basic(NotHidden));
    GroupsEvery(Basic(a), Basic(b), Basic(NotHidden), Bound(params));
    WriteGroups(Basic(a), Basic(b), Basic(NotHidden));
  }

  lemma AuthorChoiceMeans(q: seq<Value>, key: Key, params: Params, row: Row)
    requires q != [] && key in params && params[key] == Listed(DedupBy(q, Same))
    ensures Holds(AuthorChoice(q, key), Verdict(params, row)) <==>
              !row.hidden && (Text(row.pubkey) in q || Text(row.masterPubkey) in q)
  {
    hide CompareOf, EitherWith, DedupBy, Listed;
    CompareMeans(PUBKEY, false, q, key, params, row);
    CompareMeans(MASTER_PUBKEY, false, q, key, params, row);
    GroupsHold(Basic(CompareOf(PUBKEY, false, q, key)), Basic(CompareOf(MASTER_PUBKEY, false, q, key)),
               Basic(NotHidden), Verdict(params, row));
  }

  /** Deduplicating the author list a second time, after the first has compacted it in place, binds and compares
      the same list. */
  lemma CompactedTwice(q: seq<Value>, key: Key, params: Params, column: Column)
    ensures BoundTo(BoundTo(params, key, q), key, Compacted(q)) == BoundTo(params, key, q)
    ensures CompareOf(column, false, Compacted(q), key) == CompareOf(column, false, q, key)
    ensures Compacted(q) == [] <==> q == []
  {
    DedupTwice(q, Same);
    if q != [] {
      AmongListed(q[0], q);
    }
  }

  function Since(f: Search): Row -> bool {
    (row: Row) => f.since.Some? && f.since.value > 0 ==> f.since.value <= row.createdAt
  }

  function Until(f: Search): Row -> bool {
    (row: Row) => f.until.Some? && f.until.value > 0 ==> row.createdAt <= f.until.value
  }

  // ---- Tags

  function Signed(exclude: bool, a: Atom): Literal<Atom> {
    if exclude then Negated(Basic(a)) else Basic(a)
  }

  lemma SignedIs(exclude: bool, a: Atom, params: Params)
    ensures WellFormed(Signed(exclude, a)) && (Uses(a) <= params.Keys ==> Every(Signed(exclude, a), Bound(params)))
    ensures Write(Signed(exclude, a)) == if exclude then [NOT, Condition(a)] else [Condition(a)]
  {
    assert Write(Negated(Basic(a))) == [NOT] + Write(Basic(a));
  }

  lemma SignedHolds(exclude: bool, a: Atom, verdict: Atom -> bool)
    ensures Holds(Signed(exclude, a), verdict) <==> verdict(a) != exclude
  {
  }

  function TagTest(name: string, alts: seq<TagValues>): Row -> bool {
    (row: Row) => TagAllows(name, alts, row)
  }

  predicate BindsPosition(b: Bind, alt: TagValues, params: Params) {
    && 1 <= b.position <= |alt| && alt[b.position - 1].Some?
    && b.key in params && params[b.key] == Text(alt[b.position - 1].value)
  }

  predicate BoundAt(binds: seq<Bind>, m: nat) {
    exists k :: 0 <= k < |binds| && binds[k].position == m + 1
  }

  /** The binds are the constrained positions of the alternative, each with its value. */
  predicate BindsAlt(binds: seq<Bind>, alt: TagValues, params: Params) {
    && (forall k :: 0 <= k < |binds| ==> BindsPosition(binds[k], alt, params))
    && (forall m {:trigger BoundAt(binds, m)} :: 0 <= m < |alt| && alt[m].Some? ==> BoundAt(binds, m))
  }

  lemma BindsNothing(params: Params)
    ensures BindsAlt([], [], params)
  {
  }

  lemma BindsAltSnoc(binds: seq<Bind>, alt: TagValues, params: Params, v: string, key: Key)
    requires BindsAlt(binds, alt, params) && key !in params
    ensures BindsAlt(binds + [Bind(|alt| + 1, key)], alt + [Some(v)], params[key := Text(v)])
  {
    var more := binds + [Bind(|alt| + 1, key)];
    forall m | 0 <= m < |alt| + 1 && (alt + [Some(v)])[m].Some?
      ensures BoundAt(more, m)
    {
      if m == |alt| {
        assert more[|binds|].position == m + 1;
      } else {
        assert BoundAt(binds, m);
        var k :| 0 <= k < |binds| && binds[k].position == m + 1;
        assert more[k].position == m + 1;
      }
    }
    forall k | 0 <= k < |more|
      ensures BindsPosition(more[k], alt + [Some(v)], params[key := Text(v)])
    {
      assert k < |binds| ==> BindsPosition(binds[k], alt, params);
    }
  }

  lemma BindsAltSkip(binds: seq<Bind>, alt: TagValues, params: Params)
    requires BindsAlt(binds, alt, params)
    ensures BindsAlt(binds, alt + [None], params)
  {
    hide BoundAt;
    forall k | 0 <= k < |binds|
      ensures BindsPosition(binds[k], alt + [None], params)
    {
      assert BindsPosition(binds[k], alt, params);
    }
  }

  lemma TagExistsMeans(key: Key, name: string, binds: seq<Bind>, alt: TagValues, params: Params, row: Row)
    requires key in params && params[key] == Text(name) && BindsAlt(binds, alt, params)
    ensures States(TagExists(key, binds), params, row) <==> HasTag(row.tags, name, alt)
  {
    forall t
      ensures TagFits(t, Get(params, key), params, binds) <==> t != [] && t[0] == name && AltMatches(alt, t)
    {
      TagFitsAlt(key, name, binds, alt, params, t);
    }
  }

  lemma TagFitsAlt(key: Key, name: string, binds: seq<Bind>, alt: TagValues, params: Params, t: Tag)
    requires key in params && params[key] == Text(name) && BindsAlt(binds, alt, params)
    ensures TagFits(t, Get(params, key), params, binds) <==> t != [] && t[0] == name && AltMatches(alt, t)
  {
    if TagFits(t, Get(params, key), params, binds) {
      forall m | 0 <= m < |alt| && alt[m].Some?
        ensures m + 1 < |t| && t[m + 1] == alt[m].value
      {
        assert BoundAt(binds, m);
        var k :| 0 <= k < |binds| && binds[k].position == m + 1;
        assert BindsPosition(binds[k], alt, params);
      }
    }
    if t != [] && t[0] == name && AltMatches(alt, t) {
      hide BoundAt;
      forall k | 0 <= k < |binds|
        ensures binds[k].position < |t| && Text(t[binds[k].position]) == Get(params, binds[k].key)
      {
        assert BindsPosition(binds[k], alt, params);
      }
    }
  }

  lemma BindsUsed(key: Key, binds: seq<Bind>, alt: TagValues, params: Params)
    requires key in params && BindsAlt(binds, alt, params)
    ensures Uses(TagExists(key, binds)) <= params.Keys
  {
    hide BoundAt;
    forall k | 0 <= k < |binds|
      ensures binds[k].key in params
    {
      assert BindsPosition(binds[k], alt, params);
    }
  }

  // ---- A parenthesised list of choices under construction

  ghost predicate SoundChoices(choices: seq<Conjunction<Atom>>, params: Params) {
    forall i :: 0 <= i < |choices| ==> WellFormedConjunction(choices[i]) && EveryAll(choices[i], Bound(params))
  }

  predicate Offers(choices: seq<Conjunction<Atom>>, params: Params, row: Row) {
    exists i :: 0 <= i < |choices| && AllHold(choices[i], Verdict(params, row))
  }

  lemma OffersWith(choices: seq<Conjunction<Atom>>, params: Params, more: Params, row: Row)
    requires SoundChoices(choices, params) && Extends(params, more)
    ensures SoundChoices(choices, more) && (Offers(choices, more, row) <==> Offers(choices, params, row))
  {
    hide Sound;
    forall i | 0 <= i < |choices|
      ensures EveryAll(choices[i], Bound(more))
      ensures AllHold(choices[i], Verdict(more, row)) == AllHold(choices[i], Verdict(params, row))
    {
      ConjunctionWith(choices[i], params, more, row);
    }
  }

  lemma ConjunctionWith(c: Conjunction<Atom>, params: Params, more: Params, row: Row)
    requires WellFormedConjunction(c) && EveryAll(c, Bound(params)) && Extends(params, more)
    ensures EveryAll(c, Bound(more)) && (AllHold(c, Verdict(more, row)) <==> AllHold(c, Verdict(params, row)))
  {
    hide Every, Holds, States, WellFormed, Extends;
    AcceptsWith(State([], c.parts, params), more, row);
  }

  lemma BoundStays(params: Params, more: Params, key: Key)
    ensures Extends(params, more) && key in params ==> key in more && more[key] == params[key]
  {
  }

  lemma SoundParts(choices: seq<Conjunction<Atom>>, params: Params)
    requires SoundChoices(choices, params)
    ensures forall i :: 0 <= i < |choices| ==> choices[i].parts != []
  {
    assert forall i :: 0 <= i < |choices| ==> WellFormedConjunction(choices[i]);
  }

  lemma AddChoiceSound(choices: seq<Conjunction<Atom>>, params: Params, more: Params, l: Literal<Atom>)
    requires SoundChoices(choices, params) && Extends(params, more) && WellFormed(l) && Every(l, Bound(more))
    ensures SoundChoices(choices + [Conjunction([l])], more)
  {
    hide Every, WellFormed, Extends;
    assert WellFormedConjunction(Conjunction([l])) && EveryAll(Conjunction([l]), Bound(more));
    forall i | 0 <= i < |choices|
      ensures WellFormedConjunction(choices[i]) && EveryAll(choices[i], Bound(more))
    {
      assert EveryAll(choices[i], Bound(params));
      EveryAllWith(choices[i], params, more);
    }
  }

  lemma EveryAllWith(c: Conjunction<Atom>, params: Params, more: Params)
    requires EveryAll(c, Bound(params)) && Extends(params, more)
    ensures EveryAll(c, Bound(more))
  {
    hide Every;
    forall i | 0 <= i < |c.parts|
      ensures Every(c.parts[i], Bound(more))
    {
      EveryWeaker(c.parts[i], Bound(params), Bound(more));
    }
  }

  lemma AddChoice(choices: seq<Conjunction<Atom>>, params: Params, more: Params, l: Literal<Atom>, row: Row)
    requires SoundChoices(choices, params) && Extends(params, more) && WellFormed(l) && Every(l, Bound(more))
    ensures Offers(choices + [Conjunction([l])], more, row) <==> Offers(choices, params, row) || Holds(l, Verdict(more, row))
  {
    hide Holds, Every, WellFormed, States, Extends;
    OffersWith(choices, params, more, row);
    var c := Conjunction([l]);
    assert AllHold(c, Verdict(more, row)) <==> Holds(c.parts[0], Verdict(more, row));
    assert (choices + [c])[|choices|] == c;
    assert forall i :: 0 <= i < |choices| ==> (choices + [c])[i] == choices[i];
  }

  lemma WriteChoice(prefix: seq<Token<Atom>>, choices: seq<Conjunction<Atom>>, l: Literal<Atom>)
    requires forall i :: 0 <= i < |choices| ==> choices[i].parts != []
    ensures Joined(prefix + [LP] + WriteAny(choices), OpOr) + Write(l) == prefix + [LP] + WriteAny(choices + [Conjunction([l])])
    ensures |prefix + [LP] + WriteAny(choices)| == |prefix + [LP]| <==> choices == []
  {
    var c := Conjunction([l]);
    assert (choices + [c])[..|choices|] == choices;
    assert WriteAll([l]) == Write(l);
    hide Write, WriteAll;
    if choices == [] {
      assert [] + [c] == [c] && prefix + [LP] + WriteAny(choices) == prefix + [LP];
      WriteTwo(c, c);
    } else {
      assert WriteAny(choices + [c]) == WriteAny(choices) + [OR] + WriteAll(c.parts);
      assert prefix + [LP] + WriteAny(choices) + [OR] + Write(l) == prefix + [LP] + (WriteAny(choices) + [OR] + Write(l));
    }
  }

  /** Some counted alternative among these is met, or its absence is. */
  predicate TagOffers(name: string, alts: seq<TagValues>, row: Row) {
    exists i :: 0 <= i < |alts| && Counts(name, alts[i]) && HasTag(row.tags, TagName(name), Cut(alts[i])) != Excludes(name)
  }

  lemma TagOffersSnoc(name: string, alts: seq<TagValues>, alt: TagValues, row: Row)
    ensures TagOffers(name, alts + [alt], row) <==>
              TagOffers(name, alts, row) ||
              (Counts(name, alt) && HasTag(row.tags, TagName(name), Cut(alt)) != Excludes(name))
  {
    hide Counts, HasTag, Cut, TagName, Excludes;
    assert (alts + [alt])[|alts|] == alt;
    assert forall i :: 0 <= i < |alts| ==> (alts + [alt])[i] == alts[i];
  }

  lemma NoChoices(params: Params, base: seq<Token<Atom>>, name: string)
    ensures Extends(params, params) && SoundChoices([], params) && base + [LP] + WriteAny<Atom>([]) == base + [LP]
    ensures forall row :: !Offers([], params, row) && !TagOffers(name, [], row)
  {
  }

  lemma ExtendsTwice(params: Params, more: Params, most: Params)
    ensures Extends(params, more) && Extends(more, most) ==> Extends(params, most)
  {
  }

  /** The buffer has grown exactly when a choice was written. */
  lemma WriteNothing(base: seq<Token<Atom>>, choices: seq<Conjunction<Atom>>, params: Params)
    requires SoundChoices(choices, params)
    ensures |base + [LP] + WriteAny(choices)| == |base + [LP]| <==> choices == []
  {
    SoundParts(choices, params);
  }

  lemma AlwaysOffers(params: Params)
    ensures var c := [Conjunction([Basic(Always)])];
            SoundChoices(c, params) && WriteAny(c) == [Condition(Always)] && forall row :: Offers(c, params, row)
  {
    var c := [Conjunction([Basic(Always)])];
    WriteTwo(c[0], c[0]);
    WritePair(Basic(Always), Basic(Always));
    forall row
      ensures Offers(c, params, row)
    {
      assert AllHold(c[0], Verdict(params, row));
    }
  }

  lemma TagAllowsOffers(name: string, alts: seq<TagValues>, row: Row)
    requires HasValues(alts)
    ensures (exists j :: 0 <= j < |alts| && Counts(name, alts[j])) ==> (TagAllows(name, alts, row) <==> TagOffers(name, alts, row))
    ensures (forall j :: 0 <= j < |alts| ==> !Counts(name, alts[j])) ==> TagAllows(name, alts, row)
  {
    hide Counts, HasTag, Cut, TagName, Excludes;
  }

  lemma ChoicesIs(choices: seq<Conjunction<Atom>>, params: Params)
    requires SoundChoices(choices, params) && choices != []
    ensures var clause := Group(Disjunction(choices));
            && WellFormed(clause) && Every(clause, Bound(params))
            && Write(clause) == [LP] + WriteAny(choices) + [RP]
  {
    hide Sound;
  }

  lemma ChoicesHold(choices: seq<Conjunction<Atom>>, params: Params, row: Row)
    ensures Holds(Group(Disjunction(choices)), Verdict(params, row)) <==> Offers(choices, params, row)
  {
    hide AllHold;
    assert Holds(Group(Disjunction(choices)), Verdict(params, row)) == SomeHolds(Disjunction(choices), Verdict(params, row));
  }

  /** The named tag entries, topics aside, all allow the row. */
  function TagsTest(tags: TagMap, names: seq<string>): Row -> bool {
    (row: Row) => forall name :: name in names && name in tags && !IsTopic(name) ==> TagAllows(name, tags[name], row)
  }

  // ---- Markers

  function MarkerTest(m: Marker): Row -> bool {
    (row: Row) => MarkerAllows(m, row)
  }

  function MarkersTest(markers: seq<Marker>): Row -> bool {
    (row: Row) => forall i :: 0 <= i < |markers| ==> MarkerAllows(markers[i], row)
  }

  lemma MarkersTestSnoc(markers: seq<Marker>, m: Marker)
    ensures forall row :: MarkersTest(markers + [m])(row) <==> MarkersTest(markers)(row) && MarkerTest(m)(row)
  {
    hide MarkerAllows;
    forall row
      ensures MarkersTest(markers + [m])(row) <==> MarkersTest(markers)(row) && MarkerTest(m)(row)
    {
      assert (markers + [m])[|markers|] == m;
      assert forall i :: 0 <= i < |markers| ==> (markers + [m])[i] == markers[i];
    }
  }

  lemma ReplyMeans(key: Key, params: Params, row: Row)
    requires key in params && params[key].Flag?
    ensures States(FlagIs(IS_REPLY, key), params, row) <==> row.isReply == params[key].flag
  {
  }

  lemma ExtendsItself(params: Params)
    ensures Extends(params, params)
  {
  }

  lemma MarkerExistsMeans(m: Marker, key: Key, other: Key, params: Params, row: Row)
    requires key in params && params[key] == Text(m.tag) && other in params && params[other] == Text(m.marker)
    ensures States(MarkerExists(key, other), params, row) <==> HasMarker(row, m.tag, m.marker)
  {
  }

  // ---- Gift wraps

  function GiftTest(f: Search): Row -> bool {
    (row: Row) => GiftAllows(f, row)
  }

  // ---- Whole filters

  const ALL_PARTS: set<Part> :=
    {IDS, ADDRESSES, REPOSTS, KINDS, MEDIA, QUOTES, EXPIRATION, REFERENCES, TOPICS_OUT, TOPICS_IN,
     LANGUAGES, AUTHORS, TIME, TAGS, MARKERS, DELETED, SEARCH, COMMUNITY}

  lemma AllParts(part: Part)
    ensures part in ALL_PARTS
  {
  }

  lemma NarrowsUnion(s: State, t: State, u: State, parts: set<Part>, others: set<Part>, f: Search, now: int)
    requires Narrows(s, t, AsksAll(parts, f, now)) && Narrows(t, u, AsksAll(others, f, now))
    ensures Narrows(s, u, AsksAll(parts + others, f, now))
  {
    hide Narrows, Allows;
    NarrowsTwice(s, t, u, AsksAll(parts, f, now), AsksAll(others, f, now), AsksAll(parts + others, f, now));
  }

  /** What the filter section asks for, all parts together; nothing for an empty filter. */
  ghost function SectionTest(f: Search, now: int): Row -> bool {
    (row: Row) => !IsEmpty(f) ==> forall part :: Allows(part, f, now, row)
  }

  ghost function SelectsTest(f: Search, now: int): Row -> bool {
    (row: Row) => Selects(f, row, now)
  }

  /** A parenthesised AND list of sound clauses. */
  function Section(clauses: seq<Literal<Atom>>): Literal<Atom> {
    Group(Disjunction([Conjunction(clauses)]))
  }

  lemma SectionIs(s: State)
    requires Sound(s) && s.clauses != []
    ensures WellFormed(Section(s.clauses)) && Every(Section(s.clauses), Bound(s.params))
    ensures Write(Section(s.clauses)) == [LP] + WriteAll(s.clauses) + [RP]
  {
    WriteTwo(Conjunction(s.clauses), Conjunction(s.clauses));
  }

  lemma SectionHolds(s: State, row: Row)
    ensures Holds(Section(s.clauses), Verdict(s.params, row)) <==> Accepts(s, row)
  {
    var c := Conjunction(s.clauses);
    ChoiceHolds(c, c, Verdict(s.params, row));
    assert Holds(Section(s.clauses), Verdict(s.params, row)) == SomeHolds(Disjunction([c]), Verdict(s.params, row));
  }

  /** A list narrowed from nothing accepts exactly what the narrowing asks for. */
  lemma NarrowedFromNothing(s: State, t: State, test: Row -> bool, row: Row)
    requires Narrows(s, t, test) && s.clauses == []
    ensures Accepts(t, row) <==> test(row)
    ensures Extends(s.params, t.params) && t.prefix == s.prefix
  {
    assert Accepts(s, row);
  }

  lemma NarrowsKeeps(s: State, t: State, test: Row -> bool)
    requires Narrows(s, t, test)
    ensures Extends(s.params, t.params) && t.prefix == s.prefix && s.clauses <= t.clauses
  {
  }

  lemma AllPartsAsk(f: Search, now: int, row: Row)
    ensures AsksAll(ALL_PARTS, f, now)(row) <==> forall part :: Allows(part, f, now, row)
  {
    hide Allows;
    forall part
      ensures part in ALL_PARTS
    {
      AllParts(part);
    }
  }

  function PlainTest(f: Search): Row -> bool {
    (row: Row) => f.plain ==> CommunityOwn(row) && !row.deleted
  }

  function OwnTest(): Row -> bool {
    (row: Row) => CommunityOwn(row)
  }

  function KeptTest(): Row -> bool {
    (row: Row) => !row.deleted
  }

  function ShownTest(): Row -> bool {
    (row: Row) => !row.hidden
  }

  lemma SelectsInSteps(s: State, t: State, u: State, v: State, w: State, f: Search, now: int)
    requires Narrows(s, t, SectionTest(f, now)) && Narrows(t, u, PlainTest(f))
    requires Narrows(u, v, ShownTest()) && Narrows(v, w, GiftTest(f))
    ensures Narrows(s, w, SelectsTest(f, now))
  {
    hide Narrows, Allows;
    var two := (row: Row) => SectionTest(f, now)(row) && PlainTest(f)(row);
    var three := (row: Row) => two(row) && ShownTest()(row);
    NarrowsTwice(s, t, u, SectionTest(f, now), PlainTest(f), two);
    NarrowsTwice(s, u, v, two, ShownTest(), three);
    NarrowsTwice(s, v, w, three, GiftTest(f), SelectsTest(f, now));
  }

  function GiftClause(f: Search, key: Key): Literal<Atom> {
    if f.user.Some? then Either(Basic(NoReceiver), Basic(ReceiverIs(key))) else Only(Basic(NoReceiver))
  }

  lemma GiftClauseIs(f: Search, key: Key, params: Params)
    requires f.user.Some? ==> key in params
    ensures WellFormed(GiftClause(f, key)) && Every(GiftClause(f, key), Bound(params))
    ensures Write(GiftClause(f, key)) ==
            if f.user.Some? then [LP, Condition(NoReceiver), OR, Condition(ReceiverIs(key)), RP]
            else [LP, Condition(NoReceiver), RP]
  {
    hide WellFormed, Every, Write, Only, Either;
    var other: Atom := if f.user.Some? then ReceiverIs(key) else NoReceiver;
    AtomGroups(NoReceiver, other, params);
    AtomGroupsText(NoReceiver, other);
  }

  lemma GiftClauseMeans(f: Search, key: Key, params: Params, row: Row)
    requires f.user.Some? ==> key in params && params[key] == Text(f.user.value)
    ensures Holds(GiftClause(f, key), Verdict(params, row)) <==> GiftAllows(f, row)
  {
    hide Holds, Only, Either;
    AtomGroupsHold(NoReceiver, ReceiverIs(key), Verdict(params, row));
  }

  // ---- Whole requests

  lemma NoChoicesYet(params: Params)
    requires params == map[]
    ensures WriteAny<Atom>([]) == [] && SoundChoices([], params) && UpTo(params, 0, 0)
    ensures forall row :: !Offers([], params, row)
  {
  }

  lemma WriteNext(choices: seq<Conjunction<Atom>>, l: Literal<Atom>)
    ensures WriteAny(choices + [Conjunction([l])]) == (if choices == [] then [] else WriteAny(choices) + [OR]) + Write(l)
  {
    hide Write;
    var c := Conjunction([l]);
    WritePair(l, l);
    assert (choices + [c])[..|choices|] == choices;
    if choices == [] {
      assert [] + [c] == [c];
    }
  }

  /** The text of the choices is one expression, with every parameter bound, and offers what they offer. */
  lemma ChoicesParse(choices: seq<Conjunction<Atom>>, params: Params)
    requires SoundChoices(choices, params) && choices != []
    ensures Parse(WriteAny(choices)) == Some(Disjunction(choices)) && EveryAny(Disjunction(choices), Bound(params))
    ensures forall row :: SomeHolds(Disjunction(choices), Verdict(params, row)) <==> Offers(choices, params, row)
  {
    hide AllHold, EveryAll, WriteAny, Parse;
    ParseWrite(choices);
  }

  lemma SectionChoice(choices: seq<Conjunction<Atom>>, s: State, t: State, test: Row -> bool)
    requires SoundChoices(choices, s.params) && Sound(t) && t.clauses != []
    requires Narrows(s, t, test) && s.clauses == []
    ensures var more := choices + [Conjunction([Section(t.clauses)])];
            && SoundChoices(more, t.params)
            && WriteAny(more) == (if choices == [] then [] else WriteAny(choices) + [OR]) + ([LP] + WriteAll(t.clauses) + [RP])
            && forall row :: Offers(more, t.params, row) <==> Offers(choices, s.params, row) || test(row)
  {
    hide SoundChoices, Sound, Narrows, Offers, Write, WriteAny, WriteAll, WellFormed, Every, Holds, Section, Accepts, Extends;
    var l := Section(t.clauses);
    SectionIs(t);
    WriteNext(choices, l);
    NarrowsKeeps(s, t, test);
    AddChoiceSound(choices, s.params, t.params, l);
    forall row
      ensures Offers(choices + [Conjunction([l])], t.params, row) <==> Offers(choices, s.params, row) || test(row)
    {
      AddChoice(choices, s.params, t.params, l, row);
      SectionHolds(t, row);
      NarrowedFromNothing(s, t, test, row);
    }
  }
}
