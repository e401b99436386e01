/** The conditions the WHERE generator writes, the named parameters they use, and what they state of a row. */
module Conditions {
  import opened Optional
  import opened Strconv
  import opened Nostr
  import opened FilterSql
  import opened BooleanSyntax

  datatype Name =
    | NameIds | NameAddressFull | NameAddressId | NameRepostKind | NameKindPositive | NameKindNegative
    | NameMedia | NameVideos | NameImages | NameQuote | NameExpirationAfter | NameReferences
    | NameTtagsExclude | NameTtags | NameLangs | NameAuthors | NameTimestamp | NameSince | NameUntil
    | NameDtag | NameTag(id: nat) | NameTagValue(id: nat) | NameMarkerTag(id: nat) | NameMarker(id: nat)
    | NameFts | NameGiftReceiver

  /** A parameter of one filter of the request; filters are numbered by position. */
  datatype Key = Key(filter: nat, name: Name)

  datatype Value = Null | Text(text: string) | Number(number: int) | Flag(flag: bool) | List(items: seq<Value>)

  type Params = map<Key, Value>

  function Get(params: Params, key: Key): Value {
    if key in params then params[key] else Null
  }

  /** The step of the generator that may bind a name. */
  function Stage(name: Name): nat {
    match name
    case NameIds => 1
    case NameAddressFull => 2
    case NameAddressId => 2
    case NameRepostKind => 3
    case NameKindPositive => 4
    case NameKindNegative => 4
    case NameMedia => 5
    case NameVideos => 6
    case NameImages => 7
    case NameQuote => 8
    case NameExpirationAfter => 9
    case NameReferences => 10
    case NameTtagsExclude => 11
    case NameTtags => 12
    case NameLangs => 13
    case NameAuthors => 14
    case NameTimestamp => 15
    case NameSince => 15
    case NameUntil => 16
    case NameDtag => 17
    case NameTag(_) => 17
    case NameTagValue(_) => 17
    case NameMarkerTag(_) => 18
    case NameMarker(_) => 18
    case NameFts => 19
    case NameGiftReceiver => 20
  }

  datatype Column = ID | ADDRESS | KIND | PUBKEY | MASTER_PUBKEY | LANG
  datatype FlagColumn = HAS_VIDEOS | HAS_IMAGES | IS_QUOTE | IS_REPLY
  datatype Bind = Bind(position: nat, key: Key)

  datatype Atom =
    | Compare(column: Column, negative: bool, many: bool, key: Key)
    | RepostCase(many: bool, key: Key)
    | FlagIs(flag: FlagColumn, key: Key)
    | ExpiresAfter(key: Key) | NeverExpires | ReferenceCase(key: Key)
    | TopicsOverlap(key: Key)
    | CreatedIs(key: Key) | CreatedFrom(key: Key) | CreatedTo(key: Key)
    | DTagIs(key: Key) | TagExists(key: Key, binds: seq<Bind>) | MarkerExists(key: Key, marker: Key) | Always
    | NotHidden | NotDeleted | LookupLike(key: Key) | CommunityCase | NoReceiver | ReceiverIs(key: Key)

  function Uses(a: Atom): set<Key> {
    match a
    case Compare(_, _, _, key) => {key}
    case RepostCase(_, key) => {key}
    case FlagIs(_, key) => {key}
    case ExpiresAfter(key) => {key}
    case ReferenceCase(key) => {key}
    case TopicsOverlap(key) => {key}
    case CreatedIs(key) => {key}
    case CreatedFrom(key) => {key}
    case CreatedTo(key) => {key}
    case DTagIs(key) => {key}
    case TagExists(key, binds) => {key} + set i | 0 <= i < |binds| :: binds[i].key
    case MarkerExists(key, marker) => {key, marker}
    case LookupLike(key) => {key}
    case ReceiverIs(key) => {key}
    case _ => {}
  }

  function ColumnValue(row: Row, column: Column): Value {
    match column
    case ID => Text(row.id)
    case ADDRESS => Text(row.address)
    case KIND => Number(row.kind)
    case PUBKEY => Text(row.pubkey)
    case MASTER_PUBKEY => Text(row.masterPubkey)
    case LANG => Text(row.lang)
  }

  function FlagValue(row: Row, flag: FlagColumn): bool {
    match flag
    case HAS_VIDEOS => row.hasVideos
    case HAS_IMAGES => row.hasImages
    case IS_QUOTE => row.isQuote
    case IS_REPLY => row.isReply
  }

  /** `x = :v`, or `x = ANY(:v)`. */
  predicate Among(x: Value, v: Value, many: bool) {
    if many then v.List? && x in v.items else x == v
  }

  predicate TagFits(t: Tag, key: Value, params: Params, binds: seq<Bind>) {
    && t != [] && Text(t[0]) == key
    && forall i :: 0 <= i < |binds| ==> binds[i].position < |t| && Text(t[binds[i].position]) == Get(params, binds[i].key)
  }

  /** What a condition says of a row, under the parameters. */
  predicate States(a: Atom, params: Params, row: Row) {
    match a
    case Compare(column, negative, many, key) => Among(ColumnValue(row, column), Get(params, key), many) != negative
    case RepostCase(many, key) =>
      row.kind == KIND_GENERIC_REPOST ==>
        exists t :: t in row.tags && |t| > 1 && t[0] == "k" && Among(Text(t[1]), Get(params, key), many)
    case FlagIs(flag, key) => Flag(FlagValue(row, flag)) == Get(params, key)
    case ExpiresAfter(key) =>
      row.expiration.Some? && Get(params, key).Number? && row.expiration.value > Get(params, key).number
    case NeverExpires => row.expiration.None?
    case ReferenceCase(key) => row.referenceId.Some? || Flag(row.hasReferences) == Get(params, key)
    case TopicsOverlap(key) => exists t :: t in row.tTags && Get(params, key).List? && Text(t) in Get(params, key).items
    case CreatedIs(key) => Number(row.createdAt) == Get(params, key)
    case CreatedFrom(key) => Get(params, key).Number? && row.createdAt >= Get(params, key).number
    case CreatedTo(key) => Get(params, key).Number? && row.createdAt <= Get(params, key).number
    case DTagIs(key) => Text(row.dTag) == Get(params, key)
    case TagExists(key, binds) => exists t :: t in row.tags && TagFits(t, Get(params, key), params, binds)
    case MarkerExists(key, marker) =>
      exists t :: t in row.tags + row.referenceTags && |t| > 3 && Text(t[0]) == Get(params, key) &&
                  Text(t[3]) == Get(params, marker)
    case Always => true
    case NotHidden => !row.hidden
    case NotDeleted => !row.deleted
    case LookupLike(key) => Get(params, key).Text? && Get(params, key).text in row.likes
    case CommunityCase => if row.kind == 1 || row.kind == 30023 || row.kind == 30175 then row.id == row.hTag else true
    case NoReceiver => row.giftReceiver.None?
    case ReceiverIs(key) => row.giftReceiver.Some? && Text(row.giftReceiver.value) == Get(params, key)
  }

  function Verdict(params: Params, row: Row): Atom -> bool {
    (a: Atom) => States(a, params, row)
  }

  /** Every parameter the condition names is bound. */
  function Bound(params: Params): Atom -> bool {
    (a: Atom) => Uses(a) <= params.Keys
  }

  predicate Extends(params: Params, more: Params) {
    forall key :: key in params ==> key in more && more[key] == params[key]
  }

  /** Further parameters do not change what a bound condition says. */
  lemma FurtherParams(a: Atom, params: Params, more: Params, row: Row)
    requires Uses(a) <= params.Keys && Extends(params, more)
    ensures States(a, params, row) == States(a, more, row)
  {
    assert forall key :: key in Uses(a) ==> Get(more, key) == Get(params, key) by {
      hide Uses;
    }
    if a.TagExists? {
      hide TagFits, Extends, Get;
      assert forall i :: 0 <= i < |a.binds| ==> a.binds[i].key in Uses(a);
      SameTags(row.tags, Get(params, a.key), a.binds, params, more);
    } else {
      SameStatement(a, params, more, row);
    }
  }

  lemma SameStatement(a: Atom, params: Params, more: Params, row: Row)
    requires !a.TagExists? && forall key :: key in Uses(a) ==> Get(more, key) == Get(params, key)
    ensures States(a, params, row) == States(a, more, row)
  {
    hide TagFits, Extends, Get, Among, ColumnValue, FlagValue, CommunityOwn;
  }

  lemma SameTags(tags: seq<Tag>, key: Value, binds: seq<Bind>, params: Params, more: Params)
    requires forall i :: 0 <= i < |binds| ==> Get(more, binds[i].key) == Get(params, binds[i].key)
    ensures (exists t :: t in tags && TagFits(t, key, params, binds)) <==>
            (exists t :: t in tags && TagFits(t, key, more, binds))
  {
    forall t
      ensures TagFits(t, key, params, binds) == TagFits(t, key, more, binds)
    {
    }
  }

  // ---- Lists of clauses under construction

  /** A generator in the middle of its work: what came before, the clauses of the open AND list, the parameters. */
  datatype State = State(prefix: seq<Token<Atom>>, clauses: seq<Literal<Atom>>, params: Params)

  predicate OnBegin(buf: seq<Token<Atom>>) {
    buf == [] || buf[|buf| - 1] == LP
  }

  predicate Sound(s: State) {
    && OnBegin(s.prefix)
    && forall i :: 0 <= i < |s.clauses| ==> WellFormed(s.clauses[i]) && Every(s.clauses[i], Bound(s.params))
  }

  predicate Accepts(s: State, row: Row) {
    forall i :: 0 <= i < |s.clauses| ==> Holds(s.clauses[i], Verdict(s.params, row))
  }

  /** The later state keeps what was written and adds clauses that together ask for `test`. */
  ghost predicate Narrows(s: State, t: State, test: Row -> bool) {
    && t.prefix == s.prefix && Extends(s.params, t.params)
    && s.clauses <= t.clauses
    && forall row :: Accepts(t, row) <==> Accepts(s, row) && test(row)
  }

  /** Only earlier filters and earlier steps of this filter have bound parameters. */
  ghost predicate UpTo(params: Params, filter: nat, stage: nat) {
    forall key :: key in params ==> key.filter < filter || (key.filter == filter && Stage(key.name) <= stage)
  }

  /** A name of a later stage is free, and binding it leaves the earlier ones alone. */
  lemma Binds(params: Params, filter: nat, stage: nat, name: Name, value: Value, next: nat)
    requires UpTo(params, filter, stage) && stage < Stage(name) <= next
    ensures var key := Key(filter, name);
            && key !in params && Extends(params, params[key := value])
            && UpTo(params[key := value], filter, next) && UpTo(params, filter, next)
  {
  }

  lemma NextFilter(params: Params, filter: nat, stage: nat)
    requires UpTo(params, filter, stage)
    ensures UpTo(params, filter + 1, 0)
  {
  }

  lemma BindsWithin(params: Params, more: Params, filter: nat, stage: nat, name: Name, next: nat)
    requires UpTo(params, filter, stage) && stage < Stage(name) <= next
    requires more.Keys <= params.Keys + {Key(filter, name)}
    ensures UpTo(more, filter, next)
  {
  }

  predicate TagNameBelow(name: Name, tags: nat, values: nat) {
    match name
    case NameTag(id) => id <= tags
    case NameTagValue(id) => id < values
    case _ => Stage(name) <= 16
  }

  /** The tag loop's parameters so far: tags up to `tags`, values below `values`. */
  ghost predicate TagNamesBelow(params: Params, filter: nat, tags: nat, values: nat) {
    forall key :: key in params ==> key.filter < filter || (key.filter == filter && TagNameBelow(key.name, tags, values))
  }

  lemma TagNamesSteps(params: Params, filter: nat, tags: nat, values: nat)
    ensures UpTo(params, filter, 16) ==> TagNamesBelow(params, filter, 0, 0)
    ensures TagNamesBelow(params, filter, tags, values) ==>
              TagNamesBelow(params, filter, tags + 1, values) && UpTo(params, filter, 17)
  {
  }

  lemma TagNameBinds(params: Params, filter: nat, tags: nat, values: nat, value: Value)
    requires TagNamesBelow(params, filter, tags, values)
    ensures var key := Key(filter, NameTag(tags + 1));
            && key !in params && Extends(params, params[key := value])
            && TagNamesBelow(params[key := value], filter, tags + 1, values)
  {
  }

  predicate MarkerNameBelow(name: Name, id: nat) {
    match name
    case NameMarkerTag(n) => n < id
    case NameMarker(n) => n < id
    case _ => Stage(name) <= 17
  }

  /** The marker loop's parameters so far. */
  ghost predicate MarkerNamesBelow(params: Params, filter: nat, id: nat) {
    forall key :: key in params ==> key.filter < filter || (key.filter == filter && MarkerNameBelow(key.name, id))
  }

  lemma MarkerNamesSteps(params: Params, filter: nat, id: nat)
    ensures UpTo(params, filter, 17) ==> MarkerNamesBelow(params, filter, 0)
    ensures MarkerNamesBelow(params, filter, id) ==> UpTo(params, filter, 18)
  {
  }

  lemma MarkerNameBinds(params: Params, filter: nat, id: nat, tag: Value, marker: Value)
    requires MarkerNamesBelow(params, filter, id)
    ensures var key, other := Key(filter, NameMarkerTag(id)), Key(filter, NameMarker(id));
            && key !in params && other !in params
            && Extends(params, params[key := tag][other := marker]) && Extends(params, params[other := marker])
            && MarkerNamesBelow(params[key := tag][other := marker], filter, id + 1)
            && MarkerNamesBelow(params[other := marker], filter, id + 1)
  {
  }

  lemma Further(params: Params, filter: nat, stage: nat, next: nat)
    requires UpTo(params, filter, stage) && stage <= next
    ensures UpTo(params, filter, next)
  {
  }

  lemma AcceptsWith(s: State, params: Params, row: Row)
    requires Sound(s) && Extends(s.params, params)
    ensures Sound(s.(params := params)) && Accepts(s.(params := params), row) == Accepts(s, row)
  {
    forall i | 0 <= i < |s.clauses|
      ensures Every(s.clauses[i], Bound(params))
      ensures Holds(s.clauses[i], Verdict(params, row)) == Holds(s.clauses[i], Verdict(s.params, row))
    {
      forall a | Bound(s.params)(a)
        ensures Verdict(params, row)(a) == Verdict(s.params, row)(a)
      {
        FurtherParams(a, s.params, params, row);
      }
      SameVerdicts(s.clauses[i], Bound(s.params), Verdict(params, row), Verdict(s.params, row));
      EveryWeaker(s.clauses[i], Bound(s.params), Bound(params));
    }
  }

  lemma AddSound(s: State, params: Params, clause: Literal<Atom>)
    requires Sound(s) && Extends(s.params, params) && WellFormed(clause) && Every(clause, Bound(params))
    ensures Sound(State(s.prefix, s.clauses + [clause], params))
  {
    hide Every, WellFormed;
    forall i | 0 <= i < |s.clauses|
      ensures Every(s.clauses[i], Bound(params))
    {
      EveryWeaker(s.clauses[i], Bound(s.params), Bound(params));
    }
  }

  /** One more clause narrows by what it says. */
  lemma AddClause(s: State, params: Params, clause: Literal<Atom>, test: Row -> bool)
    requires Sound(s) && Extends(s.params, params) && WellFormed(clause) && Every(clause, Bound(params))
    requires forall row :: Holds(clause, Verdict(params, row)) == test(row)
    ensures var t := State(s.prefix, s.clauses + [clause], params); Sound(t) && Narrows(s, t, test)
    ensures WriteAll(s.clauses + [clause]) ==
            if s.clauses == [] then Write(clause) else WriteAll(s.clauses) + [AND] + Write(clause)
  {
    hide Holds, Every, States, WellFormed;
    var t := State(s.prefix, s.clauses + [clause], params);
    assert (s.clauses + [clause])[..|s.clauses|] == s.clauses;
    AddSound(s, params, clause);
    forall row
      ensures Accepts(t, row) <==> Accepts(s, row) && test(row)
    {
      var u := s.(params := params);
      AcceptsWith(s, params, row);
      assert Holds(clause, Verdict(params, row)) == test(row);
      assert t.clauses[|s.clauses|] == clause;
      assert forall i :: 0 <= i < |s.clauses| ==> t.clauses[i] == u.clauses[i];
    }
  }

  /** Narrowing twice narrows by both tests. */
  lemma NarrowsTwice(s: State, t: State, u: State, one: Row -> bool, two: Row -> bool, both: Row -> bool)
    requires Narrows(s, t, one) && Narrows(t, u, two) && forall row :: both(row) <==> one(row) && two(row)
    ensures Narrows(s, u, both)
  {
    hide Accepts;
  }

  lemma NarrowsSame(s: State, t: State, one: Row -> bool, other: Row -> bool)
    requires Narrows(s, t, one) && forall row :: one(row) == other(row)
    ensures Narrows(s, t, other)
  {
    hide Accepts;
  }

  lemma NarrowsNot(s: State, test: Row -> bool)
    requires forall row :: test(row)
    ensures Narrows(s, s, test)
  {
  }
}
