/** The database's side of a filter: rows, the conditions a WHERE text can state about them, and what each part
    of a filter asks for. */
module FilterSql {
  import opened Optional
  import opened Strconv
  import opened Nostr
  import opened FilterMatch

  /** One stored event as the `events` and `event_tags` tables show it; nullable columns are Options. */
  datatype Row = Row(
    id: string, kind: int, pubkey: string, masterPubkey: string, address: string, createdAt: int,
    dTag: string, hTag: string, tTags: seq<string>, lang: string, tags: seq<Tag>, referenceTags: seq<Tag>,
    hasVideos: bool, hasImages: bool, isQuote: bool, isReply: bool, hasReferences: bool, referenceId: Option<string>,
    expiration: Option<int>, hidden: bool, deleted: bool, giftReceiver: Option<string>, likes: set<string>)

  datatype Marker = Marker(tag: string, marker: string, exclude: bool)
  datatype Dependency = Dependency(startKind: int, reduceKinds: seq<int>)

  /** A parsed database filter. `search` is the ILIKE pattern made of the search text, None without text. */
  datatype Search = Search(
    ids: seq<string>, kinds: seq<int>, authors: seq<string>, addresses: seq<string>, tags: TagMap,
    markers: seq<Marker>, since: Option<int>, until: Option<int>, expiration: Option<bool>, videos: Option<bool>,
    images: Option<bool>, media: Option<bool>, quotes: Option<bool>, references: Option<bool>,
    search: Option<string>, dependencies: seq<Dependency>, user: Option<string>, plain: bool)

  const KIND_FOLLOW_LIST := 3
  const KIND_PROFILE := 0
  const TAG_COMMUNITY := "h"
  const MARKER_REPLY := "reply"
  const MAX_TAG_VALUES := 5

  predicate IsEmpty(f: Search) {
    && f.ids == [] && f.kinds == [] && f.authors == [] && f.tags == map[] && f.markers == [] && f.addresses == []
    && f.since.None? && f.until.None? && f.expiration.None? && f.videos.None? && f.quotes.None?
    && f.references.None? && f.images.None? && f.media.None? && f.search.None?
  }

  // ---- What the parts of a filter ask of a row

  predicate IdsAllow(f: Search, row: Row) {
    f.ids == [] || row.id in f.ids
  }

  /** An address with a colon names a replaceable event, one without names an event ID. */
  predicate AddressesAllow(f: Search, row: Row) {
    f.addresses == [] || exists a :: a in f.addresses && a == if ':' in a then row.address else row.id
  }

  /** The filter lists pseudo-kinds, and not generic reposts themselves. */
  predicate AsksReposts(kinds: seq<int>) {
    KIND_GENERIC_REPOST !in kinds && exists k :: k in kinds && k in REPOST_ORIGINALS
  }

  predicate RepostsAllow(kinds: seq<int>, row: Row) {
    AsksReposts(kinds) && row.kind == KIND_GENERIC_REPOST ==>
      exists k, t :: k in kinds && k in REPOST_ORIGINALS && t in row.tags && |t| > 1 && t[0] == "k" &&
                     t[1] == Itoa(REPOST_ORIGINALS[k])
  }

  /** A kind the column is compared with: a listed kind, or 16 for a repost pseudo-kind. */
  predicate Lists(kinds: seq<int>, kind: int) {
    || (kind in kinds && (KIND_GENERIC_REPOST in kinds || kind !in REPOST_ORIGINALS))
    || (kind == KIND_GENERIC_REPOST && AsksReposts(kinds))
  }

  /** Kinds to include rule; kinds to exclude count only when there are none to include. */
  ghost predicate PlainKindsAllow(kinds: seq<int>, row: Row) {
    if exists k :: k >= 0 && Lists(kinds, k) then row.kind >= 0 && Lists(kinds, row.kind)
    else !(row.kind > 0 && -row.kind in kinds)
  }

  predicate MediaAllow(f: Search, row: Row) {
    match f.media
    case Some(true) => row.hasVideos || row.hasImages
    case Some(false) => !row.hasVideos && !row.hasImages
    case None => && (f.videos.Some? ==> row.hasVideos == f.videos.value)
                 && (f.images.Some? ==> row.hasImages == f.images.value)
  }

  predicate QuotesAllow(f: Search, row: Row) {
    f.quotes.Some? ==> row.isQuote == f.quotes.value
  }

  predicate ExpirationAllows(f: Search, row: Row, now: int) {
    f.expiration.Some? ==>
      if f.expiration.value then row.expiration.Some? && row.expiration.value > now else row.expiration.None?
  }

  predicate ReferencesAllow(f: Search, row: Row) {
    f.references.Some? ==> row.referenceId.Some? || row.hasReferences == f.references.value
  }

  /** The topics named by a tag filter entry: every non-nil value of every alternative. */
  function Topics(alts: seq<TagValues>): set<string> {
    set i, j | 0 <= i < |alts| && 0 <= j < |alts[i]| && alts[i][j].Some? :: alts[i][j].value
  }

  function TopicsOf(f: Search, name: string): set<string> {
    if name in f.tags then Topics(f.tags[name]) else {}
  }

  predicate HasTopic(row: Row, topics: set<string>) {
    exists t :: t in row.tTags && t in topics
  }

  predicate TopicsLetThrough(f: Search, row: Row) {
    !HasTopic(row, TopicsOf(f, "!t"))
  }

  predicate TopicsInclude(f: Search, row: Row) {
    TopicsOf(f, "t") != {} ==> HasTopic(row, TopicsOf(f, "t"))
  }

  predicate IsLanguage(alt: TagValues) {
    |alt| == 2 && alt[0].Some? && alt[1].Some? && FoldsToIso(alt[1].value)
  }

  function LanguageOf(alt: TagValues): string {
    if |alt| > 0 && alt[0].Some? then alt[0].value else ""
  }

  /** Equal to ISO-639-1 under Unicode case folding, which also takes the long s for an S. */
  predicate FoldsToIso(s: string) {
    && |s| == 9 && s[0] in {'I', 'i'} && s[1] in {'S', 's', '\U{17F}'} && s[2] in {'O', 'o'}
    && s[3..] == "-639-1"
  }

  function LanguagesIn(alts: seq<TagValues>): set<string> {
    set i | 0 <= i < |alts| && IsLanguage(alts[i]) :: LanguageOf(alts[i])
  }

  function Languages(f: Search): set<string> {
    if "l" in f.tags then LanguagesIn(f.tags["l"]) else {}
  }

  predicate LanguageAllows(f: Search, row: Row) {
    Languages(f) == {} || row.lang in Languages(f)
  }

  predicate AuthorsAllow(f: Search, row: Row) {
    f.authors == [] || (!row.hidden && (row.pubkey in f.authors || row.masterPubkey in f.authors))
  }

  predicate TimeRangeValid(f: Search) {
    !(f.since.Some? && f.until.Some? && f.since.value > f.until.value)
  }

  /** Bounds that are zero or negative are ignored, except that equal bounds always pin the time. */
  predicate TimeAllows(f: Search, row: Row) {
    if f.since.Some? && f.since == f.until then row.createdAt == f.since.value
    else
      && (f.since.Some? && f.since.value > 0 ==> f.since.value <= row.createdAt)
      && (f.until.Some? && f.until.value > 0 ==> row.createdAt <= f.until.value)
  }

  predicate Excludes(name: string) {
    name != "" && name[0] == '!'
  }

  function TagName(name: string): string {
    if Excludes(name) then name[1..] else name
  }

  predicate HasTag(tags: seq<Tag>, name: string, alt: TagValues) {
    exists t :: t in tags && t != [] && t[0] == name && AltMatches(alt, t)
  }

  /** Values past the fifth are dropped, for cost. */
  function Cut(alt: TagValues): TagValues {
    if |alt| > MAX_TAG_VALUES then alt[..MAX_TAG_VALUES] else alt
  }

  /** The alternatives a tag condition is made of: not the unconstrained ones, and for `l` not the languages. */
  predicate Counts(name: string, alt: TagValues) {
    Constrains(alt) && !(name == "l" && IsLanguage(alt))
  }

  predicate TagAllows(name: string, alts: seq<TagValues>, row: Row) {
    if !HasValues(alts) then HasTag(row.tags, TagName(name), []) != Excludes(name)
    else
      || (forall i :: 0 <= i < |alts| ==> !Counts(name, alts[i]))
      || exists i :: 0 <= i < |alts| && Counts(name, alts[i]) &&
                     HasTag(row.tags, TagName(name), Cut(alts[i])) != Excludes(name)
  }

  /** A filter whose only tag entry is one single-valued `d`. */
  predicate IsDOnly(tags: TagMap) {
    && "d" in tags && |tags| == 1 && |tags["d"]| == 1 && |tags["d"][0]| == 1 && tags["d"][0][0].Some?
  }

  predicate IsTopic(name: string) {
    name == "t" || name == "!t"
  }

  predicate TagsAllow(f: Search, row: Row) {
    if IsDOnly(f.tags) then row.dTag == f.tags["d"][0][0].value
    else forall name :: name in f.tags && !IsTopic(name) ==> TagAllows(name, f.tags[name], row)
  }

  predicate AsksReply(m: Marker) {
    m.tag in {"a", "e"} && m.marker == MARKER_REPLY
  }

  predicate MarkerAllows(m: Marker, row: Row) {
    if AsksReply(m) then row.isReply == !m.exclude
    else HasMarker(row, m.tag, m.marker) != m.exclude
  }

  /** A tag of the event or of the event it references, with the marker in its fourth field. */
  predicate HasMarker(row: Row, tag: string, marker: string) {
    exists t :: t in row.tags + row.referenceTags && |t| > 3 && t[0] == tag && t[3] == marker
  }

  predicate MarkersAllow(f: Search, row: Row) {
    forall i :: 0 <= i < |f.markers| ==> MarkerAllows(f.markers[i], row)
  }

  predicate NamesAddressable(f: Search) {
    f.kinds != [] && f.authors != [] && "d" in f.tags && HasValues(f.tags["d"])
  }

  /** Soft-deleted events show only to filters that name them. */
  predicate DeletedAllow(f: Search, row: Row) {
    row.deleted ==> f.ids != [] || NamesAddressable(f)
  }

  predicate FollowsProfiles(d: Dependency) {
    d.startKind == KIND_FOLLOW_LIST && d.reduceKinds != [] && d.reduceKinds[0] == KIND_PROFILE
  }

  predicate SkipsSearch(f: Search) {
    |f.kinds| == 1 && f.kinds[0] == KIND_FOLLOW_LIST &&
    exists i :: 0 <= i < |f.dependencies| && FollowsProfiles(f.dependencies[i])
  }

  predicate SearchAllows(f: Search, row: Row) {
    f.search.Some? && !SkipsSearch(f) ==> f.search.value in row.likes
  }

  predicate CommunityOwn(row: Row) {
    row.kind in {1, 30023, 30175} ==> row.id == row.hTag
  }

  predicate CommunityAllows(f: Search, row: Row) {
    TAG_COMMUNITY !in f.tags ==> CommunityOwn(row)
  }

  /** Gift wraps show only to their receiver. */
  predicate GiftAllows(f: Search, row: Row) {
    row.giftReceiver.None? || row.giftReceiver == f.user
  }

  /** The parts of a filter section, in the order they are written. */
  datatype Part =
    | IDS | ADDRESSES | REPOSTS | KINDS | MEDIA | QUOTES | EXPIRATION | REFERENCES | TOPICS_OUT | TOPICS_IN
    | LANGUAGES | AUTHORS | TIME | TAGS | MARKERS | DELETED | SEARCH | COMMUNITY

  ghost predicate Allows(part: Part, f: Search, now: int, row: Row) {
    match part
    case IDS => IdsAllow(f, row)
    case ADDRESSES => AddressesAllow(f, row)
    case REPOSTS => RepostsAllow(f.kinds, row)
    case KINDS => PlainKindsAllow(f.kinds, row)
    case MEDIA => MediaAllow(f, row)
    case QUOTES => QuotesAllow(f, row)
    case EXPIRATION => ExpirationAllows(f, row, now)
    case REFERENCES => ReferencesAllow(f, row)
    case TOPICS_OUT => TopicsLetThrough(f, row)
    case TOPICS_IN => TopicsInclude(f, row)
    case LANGUAGES => LanguageAllows(f, row)
    case AUTHORS => AuthorsAllow(f, row)
    case TIME => TimeAllows(f, row)
    case TAGS => TagsAllow(f, row)
    case MARKERS => MarkersAllow(f, row)
    case DELETED => DeletedAllow(f, row)
    case SEARCH => SearchAllows(f, row)
    case COMMUNITY => CommunityAllows(f, row)
  }

  ghost function Asks(part: Part, f: Search, now: int): Row -> bool {
    (row: Row) => Allows(part, f, now, row)
  }

  /** The rows a filter selects. `plain` marks the filter made up for an empty request. */
  ghost predicate Selects(f: Search, row: Row, now: int) {
    && (!IsEmpty(f) ==> forall part :: Allows(part, f, now, row))
    && (f.plain ==> CommunityOwn(row) && !row.deleted)
    && !row.hidden
    && GiftAllows(f, row)
  }
}
