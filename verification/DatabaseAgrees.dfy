/** The stored side and the live side of a subscription: the rows a filter's WHERE text selects are the events its
    in-memory match accepts. */
module DatabaseAgrees {
  import opened Optional
  import opened Strconv
  import opened Nostr
  import opened FilterMatch
  import opened FilterSql
  import opened EventRows
  import opened EntryReadings
  import opened KindClause
  import opened RoutingComplete

  /** The row the database keeps for an event; `carried` are the tags of the event it reposts, if any. */
  ghost predicate Stores(row: Row, e: Event, carried: seq<Tag>) {
    && row.id == e.id && row.kind == e.kind && row.pubkey == e.pubkey && row.masterPubkey == MasterKey(e)
    && row.address == Address(e) && row.createdAt == e.createdAt
    && row.tags == TagRows(e.tags) && row.dTag == GetD(e.tags) && ShowsTopics(row.tTags, e.tags + carried)
    && row.lang == LangOf(e.tags + carried)
  }

  /** An event ID contains no colon, so it is not taken for an address. */
  predicate PlainId(e: Event) {
    ':' !in e.id
  }

  function NonEmpty<T>(q: seq<T>): Option<seq<T>> {
    if q == [] then None else Some(q)
  }

  /** The in-memory form of a database filter's standard fields; what is empty is absent. */
  function InMemory(f: Search): Filter {
    Filter(NonEmpty(f.ids), NonEmpty(f.kinds), NonEmpty(f.authors), NonEmpty(f.addresses),
           if f.tags == map[] then None else Some(f.tags), f.since, f.until)
  }

  /** The `d` column has the value exactly when the event has it. */
  predicate DTells(tags: seq<Tag>, d: string) {
    GetD(tags) == d <==> NamesD(tags, d)
  }

  /** An entry that the rows of any event tell about, as far as the primary key lets them. */
  predicate Positional(name: string, alts: seq<TagValues>) {
    && IsIndexable(name) && !Excludes(name) && !IsTopic(name) && !(name == "l" && HasLanguage(alts))
    && forall i :: 0 <= i < |alts| ==> Showable(alts[i])
  }

  /** An entry that both sides read alike on an event with these tags. */
  ghost predicate EntryReadAlike(name: string, alts: seq<TagValues>, tags: seq<Tag>, carried: seq<Tag>) {
    if name == "t" then TopicEntry(alts) && NoBorrowedTopic(tags, carried)
    else if name == "l" && HasLanguage(alts) then
      LanguageEntry(alts) && OneLanguage(tags, carried) && (OnlyLanguages(alts) || NoneLost(tags))
    else
      || (EntryFits(name, alts) && AllKept(tags))
      || (Positional(name, alts) && (NoneLost(tags) || forall i :: 0 <= i < |alts| ==> WithinKey(alts[i])))
  }

  ghost predicate TagsReadAlike(filter: TagMap, tags: seq<Tag>, carried: seq<Tag>) {
    if IsDOnly(filter) then DTells(tags, filter["d"][0][0].value)
    else forall name :: name in filter ==> EntryReadAlike(name, filter[name], tags, carried)
  }

  /** On an event that the columns tell everything about, every entry that fits is read alike. */
  lemma PlainEventsReadAlike(filter: TagMap, tags: seq<Tag>, carried: seq<Tag>)
    requires Plain(tags, carried) && OneD(tags) && !BlankFirst(tags)
    requires forall name :: name in filter ==> EntryFits(name, filter[name])
    ensures TagsReadAlike(filter, tags, carried)
  {
    hide TopicEntry, LanguageEntry, IsIndexable, HasLanguage, AllKept, OneLanguage, NoBorrowedTopic, OneD, BlankFirst, GetD, NamesD;
    KeptIsCovered(tags);
    if IsDOnly(filter) {
      var alts: seq<TagValues> := filter["d"];
      assert EntryFits("d", alts);
      LoneDIsNamed(alts);
      DTellsExactly(tags);
    }
  }

  lemma LoneDIsNamed(alts: seq<TagValues>)
    requires PositionEntry(alts) && |alts| == 1 && |alts[0]| == 1 && alts[0][0].Some?
    ensures alts[0][0].value != ""
  {
    hide Readable, Weaker;
    assert Constrains(alts[0]);
    var k :| 0 <= k < |alts| && Weaker(alts[k], alts[0]) && Readable(alts[k]);
    ReadableIsNamed(alts[0]);
  }

  lemma ReadableIsNamed(a: TagValues)
    requires |a| == 1 && Readable(a)
    ensures a[0].Some? && a[0].value != ""
  {
  }

  /** A filter with standard fields only. */
  predicate Standard(f: Search) {
    && NonNegative(f.kinds)
    && (f.since.Some? ==> f.since.value > 0) && (f.until.Some? ==> f.until.value > 0)
    && f.markers == [] && f.search.None? && f.expiration.None? && f.videos.None? && f.images.None?
    && f.media.None? && f.quotes.None? && f.references.None? && !f.plain
  }

  lemma IdsAgree(f: Search, e: Event, carried: seq<Tag>, row: Row)
    requires Stores(row, e, carried)
    ensures IdsAllow(f, row) <==> (NonEmpty(f.ids).Some? ==> e.id in f.ids)
  {
  }

  /** The rows by author are the events the in-memory match accepts for the user. */
  predicate AuthorsTell(authors: seq<string>, e: Event, user: User) {
    (authors == [] || e.pubkey in authors || MasterKey(e) in authors) <==> (authors == [] || AuthorsMatch(authors, e, user))
  }

  lemma AuthorsAgree(authors: seq<string>, e: Event, user: User)
    requires !HalfListed(authors, user)
    ensures AuthorsTell(authors, e, user)
  {
    hide MasterKey;
    if AuthorsMatch(authors, e, user) {
      var i :| 0 <= i < |authors| && AuthorAccepts(authors[i], e, user);
      assert authors[i] in authors;
    }
    if a :| a in authors && a in {e.pubkey, MasterKey(e)} {
      var i :| 0 <= i < |authors| && authors[i] == a;
      assert AuthorAccepts(authors[i], e, user);
    }
  }

  /** In memory each of the user's keys stands for the other, in the database neither does: an author list is read alike
      on all events exactly when it names both keys or none. */
  lemma AuthorsTellExactly(authors: seq<string>, user: User)
    ensures (forall e :: AuthorsTell(authors, e, user)) <==> !HalfListed(authors, user)
  {
    if !HalfListed(authors, user) {
      forall e
        ensures AuthorsTell(authors, e, user)
      {
        AuthorsAgree(authors, e, user);
      }
    } else {
      var listed, other := user.master, user.device;
      if user.device in authors {
        listed, other := user.device, user.master;
      }
      var e := Event("", other, 1, 0, [], "");
      var i :| 0 <= i < |authors| && authors[i] == listed;
      assert AuthorAccepts(authors[i], e, user);
      assert !AuthorsTell(authors, e, user);
    }
  }

  lemma AddressHasColon(e: Event)
    ensures ':' in Address(e) || Address(e) == e.id
  {
    hide Itoa, MasterKey, GetD;
    if IsAddressable(e.kind) {
      assert Address(e)[|Itoa(e.kind)|] == ':';
    } else if IsReplaceable(e.kind) {
      assert Address(e)[|Itoa(e.kind)|] == ':';
    }
  }

  lemma AddressesAgree(f: Search, e: Event, carried: seq<Tag>, row: Row)
    requires Stores(row, e, carried) && PlainId(e)
    ensures AddressesAllow(f, row) <==>
              (NonEmpty(f.addresses).Some? ==> Address(e) in f.addresses || e.id in f.addresses)
  {
    AddressHasColon(e);
    hide Address, MasterKey;
    if e.id in f.addresses {
      assert AddressesAllow(f, row);
    }
    if Address(e) in f.addresses {
      assert AddressesAllow(f, row);
    }
  }

  lemma TimesAgree(f: Search, e: Event, carried: seq<Tag>, row: Row)
    requires Stores(row, e, carried)
    requires (f.since.Some? ==> f.since.value > 0) && (f.until.Some? ==> f.until.value > 0)
    ensures TimeAllows(f, row) <==>
              (f.since.Some? ==> f.since.value <= e.createdAt) && (f.until.Some? ==> e.createdAt <= f.until.value)
  {
    hide Address, MasterKey;
  }

  lemma TagsOfName(name: string, alts: seq<TagValues>, tags: seq<Tag>, row: Row)
    requires row.tags == TagRows(tags) && Positional(name, alts)
    requires NoneLost(tags) || forall i :: 0 <= i < |alts| ==> WithinKey(alts[i])
    ensures TagAllows(name, alts, row) <==> NameMatches(name, alts, tags)
  {
    assert name != "" && forall i :: 0 <= i < |alts| ==> Cut(alts[i]) == alts[i];
    ByPosition(name, alts, row);
    hide TagAllows, TagRows, NoneLost, WithinKey, IsIndexable, HasTag, NameMatches, Constrains;
    if HasValues(alts) {
      forall i | 0 <= i < |alts|
        ensures RowsTell(tags, name, alts[i])
      {
        RowsFind(tags, name, alts[i]);
      }
      SomeAlternative(name, alts, tags);
    } else {
      RowsFind(tags, name, []);
      NoConstraint(name, alts, tags);
    }
  }

  /** In memory some tag of the name has to match some alternative that constrains anything. */
  lemma SomeAlternative(name: string, alts: seq<TagValues>, tags: seq<Tag>)
    requires HasValues(alts) && name != ""
    ensures NameMatches(name, alts, tags) <==>
              exists i :: 0 <= i < |alts| && Constrains(alts[i]) && HasTag(tags, name, alts[i])
  {
    hide HasValues, Constrains, AltMatches;
    if NameMatches(name, alts, tags) {
      var j :| 0 <= j < |tags| && TagSatisfies(name, alts, tags[j]);
      var i :| 0 <= i < |alts| && Constrains(alts[i]) && AltMatches(alts[i], tags[j]);
      assert tags[j] in tags && HasTag(tags, name, alts[i]);
    }
    if i :| 0 <= i < |alts| && Constrains(alts[i]) && HasTag(tags, name, alts[i]) {
      var t :| t in tags && t != [] && t[0] == name && AltMatches(alts[i], t);
      var j :| 0 <= j < |tags| && tags[j] == t;
      assert TagSatisfies(name, alts, tags[j]);
    }
  }

  lemma NoConstraint(name: string, alts: seq<TagValues>, tags: seq<Tag>)
    requires !HasValues(alts) && name != ""
    ensures HasTag(tags, name, []) <==> NameMatches(name, alts, tags)
  {
    hide HasValues;
    if t :| t in tags && t != [] && t[0] == name {
      var j :| 0 <= j < |tags| && tags[j] == t;
      assert TagSatisfies(name, alts, tags[j]);
    }
    if j :| 0 <= j < |tags| && TagSatisfies(name, alts, tags[j]) {
      assert tags[j] in tags && AltMatches([], tags[j]);
    }
  }

  lemma DInMemory(filter: TagMap, tags: seq<Tag>)
    requires IsDOnly(filter)
    ensures filter.Keys == {"d"}
    ensures TagsMatch(filter, tags) <==> NamesD(tags, filter["d"][0][0].value)
  {
    OneKey(filter, "d");
    var alts: seq<TagValues> := filter["d"];
    assert alts[0][0].Some? && Constrains(alts[0]) && HasValues(alts);
    SomeAlternative("d", alts, tags);
    assert forall t :: t in tags && t != [] && t[0] == "d" ==>
                         (AltMatches(alts[0], t) <==> |t| > 1 && t[1] == alts[0][0].value);
    hide NameMatches, AltMatches, HasValues, Constrains;
  }

  lemma OneKey<K, V>(m: map<K, V>, k: K)
    requires |m| == 1 && k in m
    ensures m.Keys == {k}
  {
    assert |m.Keys - {k}| == 0;
  }

  lemma EntryAgrees(name: string, alts: seq<TagValues>, tags: seq<Tag>, carried: seq<Tag>, row: Row)
    requires EntryReadAlike(name, alts, tags, carried) && ShowsTags(row, tags, carried)
    ensures Alike(name, alts, tags, row)
  {
    hide TopicEntry, LanguageEntry, PositionEntry, NameMatches, TagAllows, HasTopic, TagRows, IsIndexable, HasLanguage, LangOf;
    hide NoBorrowedTopic, OneLanguage, AllKept, NoneLost, OnlyLanguages, ShowsTopics;
    if name == "t" {
      TopicsAgree(alts, tags, carried, row);
      TopicsListed(alts);
    } else if name == "l" && HasLanguage(alts) {
      LanguageEntryAgrees(alts, tags, carried, row);
    } else {
      NamesSomething(name);
      NoLanguages(alts);
      if EntryFits(name, alts) && AllKept(tags) {
        PositionsAgree(name, alts, tags, row);
      } else {
        TagsOfName(name, alts, tags, row);
      }
    }
  }

  /** The parts that tag entries are read by. */
  predicate EntriesAllow(f: Search, row: Row) {
    TagsAllow(f, row) && TopicsInclude(f, row) && TopicsLetThrough(f, row) && LanguageAllows(f, row)
  }

  lemma PartsByEntry(f: Search, row: Row)
    requires !IsDOnly(f.tags)
    ensures EntriesAllow(f, row) <==> forall name :: name in f.tags ==> EntryAllows(name, f.tags[name], row)
  {
    hide TagAllows, Topics, LanguagesIn, IsDOnly;
    assert !HasTopic(row, {});
    hide HasTopic;
    if EntriesAllow(f, row) {
      forall name | name in f.tags
        ensures EntryAllows(name, f.tags[name], row)
      {
      }
    }
    if forall name :: name in f.tags ==> EntryAllows(name, f.tags[name], row) {
      assert "t" in f.tags ==> EntryAllows("t", f.tags["t"], row);
      assert "!t" in f.tags ==> EntryAllows("!t", f.tags["!t"], row);
      assert "l" in f.tags ==> EntryAllows("l", f.tags["l"], row);
    }
  }

  /** These parts together say what the tag entries say in memory. */
  lemma TagsAgree(f: Search, e: Event, carried: seq<Tag>, row: Row)
    requires Stores(row, e, carried) && TagsReadAlike(f.tags, e.tags, carried)
    ensures EntriesAllow(f, row) <==> TagsMatch(f.tags, e.tags)
  {
    hide MasterKey, Address, NameMatches, TagAllows, TagRows, EntryReadAlike, ShowsTopics, LangOf;
    if IsDOnly(f.tags) {
      DInMemory(f.tags, e.tags);
      assert "t" !in f.tags && "!t" !in f.tags && "l" !in f.tags;
      assert !HasTopic(row, {});
    } else {
      PartsByEntry(f, row);
      forall name | name in f.tags
        ensures EntryAllows(name, f.tags[name], row) <==> NameMatches(name, f.tags[name], e.tags)
      {
        EntryAgrees(name, f.tags[name], e.tags, carried, row);
      }
      hide EntriesAllow, EntryAllows;
    }
  }

  /** The parts that a standard filter leaves unused. */
  lemma UnusedParts(f: Search, now: int, row: Row)
    requires Standard(f)
    ensures forall part :: part in {MEDIA, QUOTES, EXPIRATION, REFERENCES, MARKERS, SEARCH} ==> Allows(part, f, now, row)
  {
  }

  /** The parts that remain. */
  ghost predicate StandardParts(f: Search, now: int, row: Row) {
    && IdsAllow(f, row) && AddressesAllow(f, row) && SqlKinds(f.kinds, row) && AuthorsAllow(f, row)
    && TimeAllows(f, row) && EntriesAllow(f, row) && DeletedAllow(f, row) && CommunityAllows(f, row)
  }

  lemma PartsAreStandard(f: Search, now: int, row: Row)
    requires Standard(f)
    ensures (forall part :: Allows(part, f, now, row)) <==> StandardParts(f, now, row)
  {
    hide Standard, IdsAllow, AddressesAllow, RepostsAllow, PlainKindsAllow, AuthorsAllow, TimeAllows, TagsAllow;
    hide DeletedAllow, CommunityAllows, TopicsInclude, TopicsLetThrough, LanguageAllows;
    UnusedParts(f, now, row);
    if forall part :: Allows(part, f, now, row) {
      assert Allows(IDS, f, now, row) && Allows(ADDRESSES, f, now, row) && Allows(REPOSTS, f, now, row);
      assert Allows(KINDS, f, now, row) && Allows(AUTHORS, f, now, row) && Allows(TIME, f, now, row);
      assert Allows(TOPICS_IN, f, now, row) && Allows(TOPICS_OUT, f, now, row) && Allows(LANGUAGES, f, now, row);
      assert Allows(TAGS, f, now, row) && Allows(DELETED, f, now, row) && Allows(COMMUNITY, f, now, row);
    }
  }

  /** What the database asks beyond the filter: rows not hidden, not another user's gift wrap, and, unless the
      filter says otherwise, not soft-deleted and not a community's copy. */
  predicate Visible(f: Search, row: Row) {
    && !row.hidden && GiftAllows(f, row)
    && (!IsEmpty(f) ==> DeletedAllow(f, row) && CommunityAllows(f, row))
  }

  lemma MatchInParts(f: Search, e: Event, user: User)
    ensures FilterMatches(InMemory(f), e, user) <==>
              && (f.since.Some? ==> f.since.value <= e.createdAt)
              && (f.until.Some? ==> e.createdAt <= f.until.value)
              && (NonEmpty(f.ids).Some? ==> e.id in f.ids)
              && KindsMatch(f.kinds, e)
              && (NonEmpty(f.authors).Some? ==> AuthorsMatch(f.authors, e, user))
              && (NonEmpty(f.addresses).Some? ==> Address(e) in f.addresses || e.id in f.addresses)
              && TagsMatch(f.tags, e.tags)
  {
    hide AuthorsMatch, Address, NameMatches, KindAccepts, KindRejects;
    assert f.kinds == [] ==> KindsMatch(f.kinds, e);
    assert f.tags == map[] ==> TagsMatch(f.tags, e.tags);
  }

  /** For a standard filter the rows the WHERE text selects are, among the visible ones, exactly the events the
      in-memory match accepts. */
  lemma DatabaseAgreesWithMemory(f: Search, e: Event, carried: seq<Tag>, row: Row, user: User, now: int)
    requires Standard(f) && Stores(row, e, carried) && PlainId(e) && IsEventKind(e.kind)
    requires KTagsAgree(e) && TagsReadAlike(f.tags, e.tags, carried) && !HalfListed(f.authors, user)
    ensures Selects(f, row, now) <==> FilterMatches(InMemory(f), e, user) && Visible(f, row)
  {
    PartsAreStandard(f, now, row);
    MatchInParts(f, e, user);
    IdsAgree(f, e, carried, row);
    AddressesAgree(f, e, carried, row);
    KindClausesAgree(f.kinds, e, row);
    TimesAgree(f, e, carried, row);
    TagsAgree(f, e, carried, row);
    AuthorsAgree(f.authors, e, user);
    assert !row.hidden ==> (AuthorsAllow(f, row) <==> (NonEmpty(f.authors).Some? ==> AuthorsMatch(f.authors, e, user)));
    EmptyMatches(f, e, user);
    hide Standard, KTagsAgree, Allows, IdsAllow, AddressesAllow, SqlKinds, AuthorsAllow, TimeAllows, EntriesAllow;
    hide DeletedAllow, CommunityAllows, TagsReadAlike, GiftAllows, KindsMatch, AuthorsMatch, TagsMatch, Address, FilterMatches, IsEmpty, InMemory;
  }

  /** An empty filter matches everything in memory. */
  lemma EmptyMatches(f: Search, e: Event, user: User)
    ensures IsEmpty(f) ==> FilterMatches(InMemory(f), e, user)
  {
  }
}
