/** What a filter of a request selects, in the filter's own fields and the event's own tags: the in-memory match on the
    standard fields, and what the extensions, exclusions and the database's own rules ask besides. */
module RequestMeaning {
  import opened Optional
  import opened Nostr
  import opened FilterMatch
  import opened FilterSql
  import opened EventRows
  import opened EventColumns
  import opened EntryReadings
  import opened KindClause
  import opened RoutingComplete
  import opened DatabaseAgrees

  /** The row of a stored event, as the insertion fills it. What later updates or other tables decide stays open: whether
      it is hidden or deleted, the event it references and whether the search text likes it. */
  ghost predicate Keeps(row: Row, e: Event, original: Option<seq<Tag>>, clock: Clock) {
    && Stores(row, e, Carried(e, original))
    && row.hTag == OrElse(Value(GetTag(e.tags, "h")), e.id)
    && row.giftReceiver == (if e.kind == KIND_GIFT_WRAP then LastTarget(e.tags) else None)
    && row.hasImages == HasImages(Read(e, original)) && row.hasVideos == HasVideos(Read(e, original))
    && row.hasReferences == HasReferences(Read(e, original)) && row.isQuote == HasQuotes(Read(e, original))
    && row.isReply == (!IsRepost(e, original) && IsReply(e.tags))
    && row.expiration == Earliest(clock, Read(e, original))
  }

  // ---- What is asked

  /** No field asks for anything. */
  predicate Blank(f: Search) {
    f == Search([], [], [], [], map[], [], None, None, None, None, None, None, None, None, None, f.dependencies, f.user, f.plain)
  }

  predicate MediaAsked(f: Search, tags: seq<Tag>) {
    if f.media.Some? then (if f.media.value then HasImages(tags) || HasVideos(tags) else !HasImages(tags) && !HasVideos(tags))
    else
      && (f.videos.Some? ==> (HasVideos(tags) <==> f.videos.value))
      && (f.images.Some? ==> (HasImages(tags) <==> f.images.value))
  }

  /** Expiring events that have not expired yet, or events that do not expire. */
  predicate ExpirationAsked(f: Search, tags: seq<Tag>, clock: Clock, now: int) {
    f.expiration.Some? ==>
      if f.expiration.value then
        && (exists t :: t in tags && Deadline(clock, t).Some?)
        && (forall t :: t in tags && Deadline(clock, t).Some? ==> Deadline(clock, t).value > now)
      else forall t :: t in tags ==> Deadline(clock, t) == None
  }

  predicate HasMarked(tags: seq<Tag>, key: string, marker: string) {
    exists t :: t in tags && IsMarkedBy(t, key, marker)
  }

  /** Replies are told apart by the marker of the event's own tags; other markers are also looked for in the event it
      references. */
  predicate MarkerAsked(m: Marker, e: Event, original: Option<seq<Tag>>, referenced: seq<Tag>) {
    if (m.tag == "a" || m.tag == "e") && m.marker == "reply" then (!IsRepost(e, original) && IsReply(e.tags)) == !m.exclude
    else (HasMarked(e.tags, m.tag, m.marker) || HasMarked(referenced, m.tag, m.marker)) == !m.exclude
  }

  /** The search text is not looked for when profiles are to be found through one's follow list. */
  predicate SearchAsked(f: Search, row: Row) {
    f.search.Some? && !(f.kinds == [3] && exists d :: d in f.dependencies && d.startKind == 3 && d.reduceKinds != [] && d.reduceKinds[0] == 0) ==>
      f.search.value in row.likes
  }

  predicate IsExclusion(name: string) {
    name != "" && name[0] == '!'
  }

  /** An entry `!name`: no topic it gives, or, for other names, some alternative that no tag fits, or no tag at all. */
  predicate Spares(name: string, alts: seq<TagValues>, e: Event, original: Option<seq<Tag>>) {
    if name == "!t" then forall i, j :: 0 <= i < |alts| && 0 <= j < |alts[i]| && alts[i][j].Some? ==> !NamesTopic(Read(e, original), alts[i][j].value)
    else if !HasValues(alts) then !exists t :: t in e.tags && t != [] && "!" + t[0] == name
    else exists i :: 0 <= i < |alts| && Constrains(alts[i]) && !exists t :: t in e.tags && t != [] && "!" + t[0] == name && AltMatches(alts[i], t)
  }

  function Included(tags: TagMap): TagMap {
    map name | name in tags && !IsExclusion(name) :: tags[name]
  }

  /** The parts of a filter that the live match knows nothing of. */
  predicate ExtensionsAsked(f: Search, e: Event, original: Option<seq<Tag>>, row: Row, clock: Clock, now: int) {
    var tags := Read(e, original);
    && MediaAsked(f, tags) && ExpirationAsked(f, tags, clock, now)
    && (f.quotes.Some? ==> (HasQuotes(tags) <==> f.quotes.value))
    && (f.references.Some? ==> row.referenceId.Some? || (HasReferences(tags) <==> f.references.value))
    && (forall m :: m in f.markers ==> MarkerAsked(m, e, original, row.referenceTags))
    && SearchAsked(f, row)
    && forall name :: name in f.tags && IsExclusion(name) ==> Spares(name, f.tags[name], e, original)
  }

  /** A soft-deleted event shows to a filter by ID, and to one by kinds, authors and a `d` value. */
  predicate DeletionAllowed(f: Search, row: Row) {
    row.deleted ==> f.ids != [] || (f.kinds != [] && f.authors != [] && "d" in f.tags && HasValues(f.tags["d"]))
  }

  /** Of a community's posts only those that are of the community by their own ID, and others, are listed without an `h`. */
  predicate OwnPost(e: Event) {
    e.kind == 1 || e.kind == 30023 || e.kind == 30175 ==> Value(GetTag(e.tags, "h")) == "" || Value(GetTag(e.tags, "h")) == e.id
  }

  predicate ReceivedBy(e: Event, user: Option<string>) {
    e.kind == 1059 && LastTarget(e.tags).Some? ==> LastTarget(e.tags) == user
  }

  /** What the database never shows, or shows to some filters only. */
  predicate VisibleTo(f: Search, e: Event, row: Row) {
    && !row.hidden && ReceivedBy(e, f.user)
    && (!Blank(f) ==> DeletionAllowed(f, row) && ("h" !in f.tags ==> OwnPost(e)))
    && (f.plain ==> OwnPost(e) && !row.deleted)
  }

  // ---- Part by part

  lemma BlankIsEmpty(f: Search)
    ensures Blank(f) <==> IsEmpty(f)
  {
  }

  lemma MediaMeans(f: Search, e: Event, original: Option<seq<Tag>>, clock: Clock, row: Row)
    requires Keeps(row, e, original, clock)
    ensures MediaAllow(f, row) <==> MediaAsked(f, Read(e, original))
    ensures QuotesAllow(f, row) <==> (f.quotes.Some? ==> (HasQuotes(Read(e, original)) <==> f.quotes.value))
    ensures ReferencesAllow(f, row) <==>
              (f.references.Some? ==> row.referenceId.Some? || (HasReferences(Read(e, original)) <==> f.references.value))
  {
    hide Stores, Read, HasImages, HasVideos, HasQuotes, HasReferences;
  }

  lemma ExpirationMeans(f: Search, e: Event, original: Option<seq<Tag>>, clock: Clock, row: Row, now: int)
    requires Keeps(row, e, original, clock)
    ensures ExpirationAllows(f, row, now) <==> ExpirationAsked(f, Read(e, original), clock, now)
  {
    hide Stores, Read, Deadline;
    var tags := Read(e, original);
    EarliestMeans(clock, tags, if row.expiration.Some? then row.expiration.value else 0);
    hide Earliest;
  }

  predicate IsMarkedBy(t: Tag, key: string, marker: string) {
    |t| > 3 && t[0] == key && t[3] == marker
  }

  lemma MarkedByColumns(t: Tag, key: string, marker: string)
    requires key != "" && marker != ""
    ensures IsMarkedBy(t, key, marker) <==> Column(t, 0) == key && Column(t, 3) == marker
    ensures Column(TagRow(t), 0) == Column(t, 0) && Column(TagRow(t), 3) == Column(t, 3)
    ensures Column(t, 0) == key ==> Key(t) == key
  {
  }

  /** A tag's marker is part of the primary key, so the table shows it. */
  lemma MarkedRows(tags: seq<Tag>, key: string, marker: string)
    requires IsIndexable(key) && marker != ""
    ensures HasMarked(TagRows(tags), key, marker) <==> HasMarked(tags, key, marker)
  {
    assert key != "";
    hide IsIndexable, TagRows, TagRow, Column;
    if HasMarked(TagRows(tags), key, marker) {
      MarkedRowIsOfTag(tags, key, marker);
    }
    if HasMarked(tags, key, marker) {
      MarkedTagHasRow(tags, key, marker);
    }
  }

  lemma MarkedRowIsOfTag(tags: seq<Tag>, key: string, marker: string)
    requires key != "" && marker != "" && HasMarked(TagRows(tags), key, marker)
    ensures HasMarked(tags, key, marker)
  {
    hide IsIndexable, TagRows, TagRow, Column, IsMarkedBy;
    RowsComeFromTags(tags);
    var r :| r in TagRows(tags) && IsMarkedBy(r, key, marker);
    var t :| t in tags && IsRowOf(r, t);
    MarkedByColumns(r, key, marker);
    MarkedByColumns(t, key, marker);
  }

  lemma MarkedTagHasRow(tags: seq<Tag>, key: string, marker: string)
    requires IsIndexable(key) && key != "" && marker != "" && HasMarked(tags, key, marker)
    ensures HasMarked(TagRows(tags), key, marker)
  {
    hide IsIndexable, TagRows, TagRow, Column, IsMarkedBy;
    TagsReachRows(tags);
    var t :| t in tags && IsMarkedBy(t, key, marker);
    MarkedByColumns(t, key, marker);
    var r :| r in TagRows(tags) && SameKey(r, t);
    MarkedByColumns(r, key, marker);
  }

  predicate ReadableMarker(m: Marker) {
    ((m.tag == "a" || m.tag == "e") && m.marker == "reply") || (IsIndexable(m.tag) && m.marker != "")
  }

  lemma MarkerMeans(m: Marker, e: Event, original: Option<seq<Tag>>, clock: Clock, row: Row)
    requires Keeps(row, e, original, clock) && ReadableMarker(m)
    ensures MarkerAllows(m, row) <==> MarkerAsked(m, e, original, row.referenceTags)
  {
    hide TagRows, IsIndexable, Address, MasterKey, IsReply, LangOf, GetTag, GetD;
    if !((m.tag == "a" || m.tag == "e") && m.marker == "reply") {
      MarkedRows(e.tags, m.tag, m.marker);
      EitherMarked(row, m.tag, m.marker);
      hide HasMarker, HasMarked;
    }
  }

  lemma EitherMarked(row: Row, key: string, marker: string)
    ensures HasMarker(row, key, marker) <==> HasMarked(row.tags, key, marker) || HasMarked(row.referenceTags, key, marker)
  {
    assert forall t :: t in row.tags + row.referenceTags <==> t in row.tags || t in row.referenceTags;
    if t :| t in row.tags + row.referenceTags && |t| > 3 && t[0] == key && t[3] == marker {
      assert IsMarkedBy(t, key, marker);
    }
  }

  lemma MarkersMean(f: Search, e: Event, original: Option<seq<Tag>>, clock: Clock, row: Row)
    requires Keeps(row, e, original, clock) && forall m :: m in f.markers ==> ReadableMarker(m)
    ensures MarkersAllow(f, row) <==> forall m :: m in f.markers ==> MarkerAsked(m, e, original, row.referenceTags)
  {
    hide Keeps, MarkerAllows, MarkerAsked, ReadableMarker;
    forall m | m in f.markers
      ensures MarkerAllows(m, row) <==> MarkerAsked(m, e, original, row.referenceTags)
    {
      MarkerMeans(m, e, original, clock, row);
    }
    if MarkersAllow(f, row) {
      forall m | m in f.markers
        ensures MarkerAsked(m, e, original, row.referenceTags)
      {
        var i :| 0 <= i < |f.markers| && f.markers[i] == m;
      }
    }
  }

  lemma SearchMeans(f: Search, row: Row)
    ensures SearchAllows(f, row) <==> SearchAsked(f, row)
  {
    if SkipsSearch(f) {
      var i :| 0 <= i < |f.dependencies| && FollowsProfiles(f.dependencies[i]);
      assert f.dependencies[i] in f.dependencies && f.kinds == [3];
    }
    if d :| d in f.dependencies && d.startKind == 3 && d.reduceKinds != [] && d.reduceKinds[0] == 0 {
      var i :| 0 <= i < |f.dependencies| && f.dependencies[i] == d;
      assert FollowsProfiles(f.dependencies[i]);
    }
  }

  lemma RulesMean(f: Search, e: Event, original: Option<seq<Tag>>, clock: Clock, row: Row)
    requires Keeps(row, e, original, clock)
    ensures GiftAllows(f, row) <==> ReceivedBy(e, f.user)
    ensures CommunityOwn(row) <==> OwnPost(e)
    ensures DeletedAllow(f, row) <==> DeletionAllowed(f, row)
  {
    hide TagRows, Address, MasterKey, LangOf, GetTag, GetD, HasValues, LastTarget, Read, IsReply;
  }

  // ---- Exclusions

  /** An exclusion that the rows tell about. */
  predicate ReadableExclusion(name: string, alts: seq<TagValues>, tags: seq<Tag>) {
    || name == "!t"
    || (&& name != "" && IsIndexable(name[1..]) && (forall i :: 0 <= i < |alts| ==> Showable(alts[i]))
        && (NoneLost(tags) || forall i :: 0 <= i < |alts| ==> WithinKey(alts[i])))
  }

  lemma WithoutMark(name: string, key: string)
    requires IsExclusion(name)
    ensures "!" + key == name <==> key == name[1..]
  {
    assert name == ['!'] + name[1..];
    assert ("!" + key)[1..] == key;
  }

  lemma HasTagMeans(name: string, alt: TagValues, tags: seq<Tag>)
    requires IsExclusion(name)
    ensures HasTag(tags, name[1..], alt) <==> exists t :: t in tags && t != [] && "!" + t[0] == name && AltMatches(alt, t)
  {
    hide AltMatches;
    forall t | t in tags && t != []
      ensures "!" + t[0] == name <==> t[0] == name[1..]
    {
      WithoutMark(name, t[0]);
    }
  }

  lemma NothingAskedFor(tags: seq<Tag>, name: string)
    requires IsExclusion(name)
    ensures HasTag(tags, name[1..], []) <==> exists t :: t in tags && t != [] && "!" + t[0] == name
  {
    HasTagMeans(name, [], tags);
    forall t | t in tags
      ensures AltMatches([], t)
    {
      NothingAsked(t);
    }
    hide AltMatches;
  }

  lemma TopicsSpared(alts: seq<TagValues>, tags: seq<Tag>, row: Row)
    requires ShowsTopics(row.tTags, tags)
    ensures !HasTopic(row, Topics(alts)) <==>
              forall i, j :: 0 <= i < |alts| && 0 <= j < |alts[i]| && alts[i][j].Some? ==> !NamesTopic(tags, alts[i][j].value)
  {
    hide NamesTopic;
    if t :| t in row.tTags && t in Topics(alts) {
      var i, j :| 0 <= i < |alts| && 0 <= j < |alts[i]| && alts[i][j].Some? && alts[i][j].value == t;
      assert NamesTopic(tags, alts[i][j].value);
    }
    if i, j :| 0 <= i < |alts| && 0 <= j < |alts[i]| && alts[i][j].Some? && NamesTopic(tags, alts[i][j].value) {
      assert alts[i][j].value in Topics(alts) && alts[i][j].value in row.tTags;
    }
  }

  lemma ExclusionByPosition(name: string, alts: seq<TagValues>, row: Row)
    requires IsExclusion(name)
    ensures TagAllows(name, alts, row) <==>
              if HasValues(alts) then exists i :: 0 <= i < |alts| && Constrains(alts[i]) && !HasTag(row.tags, name[1..], Cut(alts[i]))
              else !HasTag(row.tags, name[1..], [])
  {
    hide Constrains, HasTag, Cut, IsLanguage;
    assert forall i :: 0 <= i < |alts| ==> (Counts(name, alts[i]) <==> Constrains(alts[i]));
  }

  lemma ExclusionMeans(name: string, alts: seq<TagValues>, e: Event, original: Option<seq<Tag>>, row: Row)
    requires IsExclusion(name) && ReadableExclusion(name, alts, e.tags)
    requires row.tags == TagRows(e.tags) && ShowsTopics(row.tTags, Read(e, original))
    ensures EntryAllows(name, alts, row) <==> Spares(name, alts, e, original)
  {
    assert WithinKey([]) && Showable([]);
    hide TagRows, IsIndexable, ShowsTopics, Topics, HasTopic, NamesTopic, AltMatches, Constrains, TagAllows, NoneLost, WithinKey;
    if name == "!t" {
      TopicsSpared(alts, Read(e, original), row);
    } else {
      ExclusionByPosition(name, alts, row);
      if HasValues(alts) {
        forall i | 0 <= i < |alts|
          ensures HasTag(row.tags, name[1..], Cut(alts[i])) <==>
                    exists t :: t in e.tags && t != [] && "!" + t[0] == name && AltMatches(alts[i], t)
        {
          assert Cut(alts[i]) == alts[i];
          RowsFind(e.tags, name[1..], alts[i]);
          HasTagMeans(name, alts[i], e.tags);
        }
        hide HasTag, Cut;
      } else {
        RowsFind(e.tags, name[1..], []);
        NothingAskedFor(e.tags, name);
      }
    }
  }

  // ---- The whole filter

  /** Entries that both sides read alike, and exclusions that the rows tell about. */
  ghost predicate TagsReadable(filter: TagMap, e: Event, original: Option<seq<Tag>>) {
    if IsDOnly(filter) then DTells(e.tags, filter["d"][0][0].value)
    else forall name :: name in filter ==>
      if IsExclusion(name) then ReadableExclusion(name, filter[name], e.tags)
      else EntryReadAlike(name, filter[name], e.tags, Carried(e, original))
  }

  ghost predicate Readable(f: Search, e: Event, original: Option<seq<Tag>>) {
    && NonNegative(f.kinds) && (f.since.Some? ==> f.since.value > 0) && (f.until.Some? ==> f.until.value > 0)
    && (forall m :: m in f.markers ==> ReadableMarker(m)) && TagsReadable(f.tags, e, original)
  }

  lemma TagsMean(f: Search, e: Event, original: Option<seq<Tag>>, row: Row)
    requires Stores(row, e, Carried(e, original)) && TagsReadable(f.tags, e, original)
    ensures EntriesAllow(f, row) <==>
              && TagsMatch(Included(f.tags), e.tags)
              && forall name :: name in f.tags && IsExclusion(name) ==> Spares(name, f.tags[name], e, original)
  {
    hide MasterKey, Address, NameMatches, TagAllows, TagRows, EntryReadAlike, ReadableExclusion, ShowsTopics, LangOf, Spares, GetD;
    if IsDOnly(f.tags) {
      DInMemory(f.tags, e.tags);
      assert Included(f.tags) == f.tags;
      TagsAgree(f, e, Carried(e, original), row);
    } else {
      PartsByEntry(f, row);
      forall name | name in f.tags
        ensures EntryAllows(name, f.tags[name], row) <==>
                  if IsExclusion(name) then Spares(name, f.tags[name], e, original) else NameMatches(name, f.tags[name], e.tags)
      {
        if IsExclusion(name) {
          ExclusionMeans(name, f.tags[name], e, original, row);
        } else {
          EntryAgrees(name, f.tags[name], e.tags, Carried(e, original), row);
        }
      }
      hide EntriesAllow, EntryAllows;
      assert forall name :: name in Included(f.tags) ==> name in f.tags && Included(f.tags)[name] == f.tags[name];
      if TagsMatch(Included(f.tags), e.tags) {
        forall name | name in f.tags && !IsExclusion(name)
          ensures NameMatches(name, f.tags[name], e.tags)
        {
          assert name in Included(f.tags);
        }
      }
    }
  }

  ghost predicate FieldParts(f: Search, row: Row) {
    && IdsAllow(f, row) && AddressesAllow(f, row) && SqlKinds(f.kinds, row) && AuthorsAllow(f, row) && TimeAllows(f, row)
    && EntriesAllow(f, row)
  }

  ghost predicate OtherParts(f: Search, now: int, row: Row) {
    && MediaAllow(f, row) && QuotesAllow(f, row) && ExpirationAllows(f, row, now) && ReferencesAllow(f, row)
    && MarkersAllow(f, row) && SearchAllows(f, row) && DeletedAllow(f, row) && CommunityAllows(f, row)
  }

  lemma PartsAreAll(f: Search, now: int, row: Row)
    ensures (forall part :: Allows(part, f, now, row)) <==> FieldParts(f, row) && OtherParts(f, now, row)
  {
    hide FieldParts, OtherParts, Allows;
    if forall part :: Allows(part, f, now, row) {
      EveryFieldPart(f, now, row);
      EveryOtherPart(f, now, row);
    }
    if FieldParts(f, row) && OtherParts(f, now, row) {
      forall part
        ensures Allows(part, f, now, row)
      {
        OnePart(f, now, row, part);
      }
    }
  }

  lemma OnePart(f: Search, now: int, row: Row, part: Part)
    requires FieldParts(f, row) && OtherParts(f, now, row)
    ensures Allows(part, f, now, row)
  {
    hide IdsAllow, AddressesAllow, RepostsAllow, PlainKindsAllow, AuthorsAllow, TimeAllows, TagsAllow, MediaAllow, QuotesAllow;
    hide ExpirationAllows, ReferencesAllow, MarkersAllow, SearchAllows, DeletedAllow, CommunityAllows;
    hide TopicsInclude, TopicsLetThrough, LanguageAllows;
  }

  lemma EveryFieldPart(f: Search, now: int, row: Row)
    requires forall part :: Allows(part, f, now, row)
    ensures FieldParts(f, row)
  {
    hide IdsAllow, AddressesAllow, RepostsAllow, PlainKindsAllow, AuthorsAllow, TimeAllows, TagsAllow;
    hide TopicsInclude, TopicsLetThrough, LanguageAllows;
    assert Allows(IDS, f, now, row) && Allows(ADDRESSES, f, now, row) && Allows(REPOSTS, f, now, row);
    assert Allows(KINDS, f, now, row) && Allows(AUTHORS, f, now, row) && Allows(TIME, f, now, row);
    assert Allows(TOPICS_IN, f, now, row) && Allows(TOPICS_OUT, f, now, row) && Allows(LANGUAGES, f, now, row);
    assert Allows(TAGS, f, now, row);
  }

  lemma EveryOtherPart(f: Search, now: int, row: Row)
    requires forall part :: Allows(part, f, now, row)
    ensures OtherParts(f, now, row)
  {
    hide MediaAllow, QuotesAllow, ExpirationAllows, ReferencesAllow, MarkersAllow, SearchAllows, DeletedAllow, CommunityAllows;
    assert Allows(MEDIA, f, now, row) && Allows(QUOTES, f, now, row) && Allows(EXPIRATION, f, now, row);
    assert Allows(REFERENCES, f, now, row) && Allows(MARKERS, f, now, row) && Allows(SEARCH, f, now, row);
    assert Allows(DELETED, f, now, row) && Allows(COMMUNITY, f, now, row);
  }

  /** The filter as the live match has it: without the exclusions. */
  function Standardly(f: Search): Search {
    f.(tags := Included(f.tags))
  }

  lemma StandardParts(f: Search, e: Event, original: Option<seq<Tag>>, row: Row, user: User)
    requires Stores(row, e, Carried(e, original)) && PlainId(e) && IsEventKind(e.kind) && Readable(f, e, original)
    requires KTagsAgree(e) && !HalfListed(f.authors, user) && !row.hidden
    ensures FilterMatches(InMemory(Standardly(f)), e, user) <==>
              && IdsAllow(f, row) && AddressesAllow(f, row) && SqlKinds(f.kinds, row) && AuthorsAllow(f, row) && TimeAllows(f, row)
              && TagsMatch(Included(f.tags), e.tags)
  {
    var carried := Carried(e, original);
    MatchInParts(Standardly(f), e, user);
    IdsAgree(f, e, carried, row);
    AddressesAgree(f, e, carried, row);
    KindClausesAgree(f.kinds, e, row);
    TimesAgree(f, e, carried, row);
    AuthorsAgree(f.authors, e, user);
    assert AuthorsAllow(f, row) <==> (NonEmpty(f.authors).Some? ==> AuthorsMatch(f.authors, e, user));
    hide Stores, KTagsAgree, IdsAllow, AddressesAllow, SqlKinds, AuthorsAllow, TimeAllows, KindsMatch, AuthorsMatch, TagsMatch;
    hide Address, FilterMatches, InMemory, Readable, Included;
  }

  lemma BlankMatches(f: Search, e: Event, original: Option<seq<Tag>>, row: Row, clock: Clock, now: int, user: User)
    requires Blank(f)
    ensures FilterMatches(InMemory(Standardly(f)), e, user) && ExtensionsAsked(f, e, original, row, clock, now)
  {
    assert Included(f.tags) == map[];
  }

  ghost predicate TagsSpare(f: Search, e: Event, original: Option<seq<Tag>>) {
    forall name :: name in f.tags && IsExclusion(name) ==> Spares(name, f.tags[name], e, original)
  }

  lemma FieldsMean(f: Search, e: Event, original: Option<seq<Tag>>, row: Row, user: User)
    requires Stores(row, e, Carried(e, original)) && PlainId(e) && IsEventKind(e.kind) && Readable(f, e, original)
    requires KTagsAgree(e) && !HalfListed(f.authors, user) && !row.hidden
    ensures FieldParts(f, row) <==> FilterMatches(InMemory(Standardly(f)), e, user) && TagsSpare(f, e, original)
  {
    StandardParts(f, e, original, row, user);
    TagsMean(f, e, original, row);
    hide Stores, FilterMatches, InMemory, Standardly, IdsAllow, AddressesAllow, SqlKinds, AuthorsAllow, TimeAllows, EntriesAllow;
    hide TagsMatch, Spares, Readable, KTagsAgree, HalfListed, Included;
  }

  lemma OthersMean(f: Search, e: Event, original: Option<seq<Tag>>, clock: Clock, row: Row, now: int)
    requires Keeps(row, e, original, clock) && forall m :: m in f.markers ==> ReadableMarker(m)
    ensures OtherParts(f, now, row) && TagsSpare(f, e, original) <==>
              && ExtensionsAsked(f, e, original, row, clock, now)
              && DeletionAllowed(f, row) && ("h" !in f.tags ==> OwnPost(e))
  {
    MediaMeans(f, e, original, clock, row);
    ExpirationMeans(f, e, original, clock, row, now);
    MarkersMean(f, e, original, clock, row);
    SearchMeans(f, row);
    RulesMean(f, e, original, clock, row);
    hide Keeps, MediaAllow, QuotesAllow, ExpirationAllows, ReferencesAllow, MarkersAllow, SearchAllows, DeletedAllow, MediaAsked;
    hide ExpirationAsked, MarkerAsked, SearchAsked, Spares, DeletionAllowed, OwnPost, CommunityOwn, Read, HasQuotes, HasReferences;
  }

  /** What a filter selects: the events its standard fields match in memory, whose tags meet its extensions and its
      exclusions, and which the database shows to it. */
  lemma SelectsExactly(f: Search, e: Event, original: Option<seq<Tag>>, clock: Clock, row: Row, user: User, now: int)
    requires Keeps(row, e, original, clock) && PlainId(e) && IsEventKind(e.kind) && Readable(f, e, original)
    requires KTagsAgree(e) && !HalfListed(f.authors, user)
    ensures Selects(f, row, now) <==>
              && FilterMatches(InMemory(Standardly(f)), e, user) && ExtensionsAsked(f, e, original, row, clock, now)
              && VisibleTo(f, e, row)
  {
    BlankIsEmpty(f);
    PartsAreAll(f, now, row);
    RulesMean(f, e, original, clock, row);
    if Blank(f) {
      BlankMatches(f, e, original, row, clock, now, user);
    }
    if !row.hidden {
      FieldsMean(f, e, original, row, user);
      OthersMean(f, e, original, clock, row, now);
    }
    hide Keeps, FilterMatches, InMemory, Standardly, FieldParts, OtherParts, TagsSpare, ExtensionsAsked, DeletionAllowed, OwnPost, CommunityOwn, GiftAllows;
    hide ReceivedBy, Readable, KTagsAgree, HalfListed, Blank, IsEmpty, Allows;
  }

  // ---- Soft-deleted rows

  /** Exactly which filters show a soft-deleted row: one that asks for nothing, or names IDs, or names kinds, authors and a
      `d` value, and then as if it were not deleted. All others never do, nor does the filter made up for an empty
      request. */
  lemma DeletedExactly(f: Search, row: Row, now: int)
    requires row.deleted
    ensures Selects(f, row, now) <==>
              && Selects(f, row.(deleted := false), now) && !f.plain
              && (|| Blank(f) || f.ids != []
                  || (&& f.kinds != [] && f.authors != [] && "d" in f.tags
                      && exists i, j :: 0 <= i < |f.tags["d"]| && 0 <= j < |f.tags["d"][i]| && f.tags["d"][i][j].Some?))
  {
    BlankIsEmpty(f);
    UndeletedParts(f, row, now);
    DValueMeans(f);
    hide Blank, IsEmpty, Allows, HasValues, GiftAllows, CommunityOwn;
    if forall part :: Allows(part, f, now, row) {
      assert Allows(DELETED, f, now, row);
    }
    DeletedPart(f, row, now);
  }

  lemma DValueMeans(f: Search)
    ensures "d" in f.tags ==>
              (HasValues(f.tags["d"]) <==>
                 exists i, j :: 0 <= i < |f.tags["d"]| && 0 <= j < |f.tags["d"][i]| && f.tags["d"][i][j].Some?)
  {
    if "d" in f.tags && HasValues(f.tags["d"]) {
      var i :| 0 <= i < |f.tags["d"]| && Constrains(f.tags["d"][i]);
      var j :| 0 <= j < |f.tags["d"][i]| && f.tags["d"][i][j].Some?;
    }
    if "d" in f.tags {
      forall i, j | 0 <= i < |f.tags["d"]| && 0 <= j < |f.tags["d"][i]| && f.tags["d"][i][j].Some?
        ensures HasValues(f.tags["d"])
      {
        assert Constrains(f.tags["d"][i]);
      }
    }
  }

  lemma DeletedPart(f: Search, row: Row, now: int)
    requires row.deleted
    ensures Allows(DELETED, f, now, row) <==> DeletionAllowed(f, row)
    ensures Allows(DELETED, f, now, row.(deleted := false))
  {
    hide HasValues;
  }

  /** No other part looks at the deletion. */
  lemma UndeletedParts(f: Search, row: Row, now: int)
    ensures forall part :: part != DELETED ==> (Allows(part, f, now, row) <==> Allows(part, f, now, row.(deleted := false)))
    ensures GiftAllows(f, row) == GiftAllows(f, row.(deleted := false)) && CommunityOwn(row) == CommunityOwn(row.(deleted := false))
  {
    forall part | part != DELETED
      ensures Allows(part, f, now, row) <==> Allows(part, f, now, row.(deleted := false))
    {
      SamePart(f, row, now, part);
    }
  }

  lemma SamePart(f: Search, row: Row, now: int, part: Part)
    requires part != DELETED
    ensures Allows(part, f, now, row) <==> Allows(part, f, now, row.(deleted := false))
  {
    hide HasTag, FollowsProfiles, Topics, Languages, HasValues, Counts, Cut, Lists;
    var other := row.(deleted := false);
    match part
    case TAGS =>
      forall name | name in f.tags
        ensures TagAllows(name, f.tags[name], row) <==> TagAllows(name, f.tags[name], other)
      {
      }
    case MARKERS =>
      forall i | 0 <= i < |f.markers|
        ensures MarkerAllows(f.markers[i], row) <==> MarkerAllows(f.markers[i], other)
      {
      }
    case _ =>
  }

  /** Bounds that are not positive count only when they are equal. */
  lemma NonPositiveBounds(f: Search, row: Row)
    ensures f.since.Some? && f.since.value <= 0 && f.until != f.since ==> (TimeAllows(f, row) <==> TimeAllows(f.(since := None), row))
    ensures f.until.Some? && f.until.value <= 0 && f.until != f.since ==> (TimeAllows(f, row) <==> TimeAllows(f.(until := None), row))
    ensures f.since.Some? && f.until == f.since ==> (TimeAllows(f, row) <==> row.createdAt == f.since.value)
  {
  }
}
