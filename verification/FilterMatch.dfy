/** In-memory filter matching (`model/filter.go`): predicates that say what a match is, and the
    early-return loops of the source proved to decide them. */
module FilterMatch {
  import opened Optional
  import opened Nostr
  import opened Strconv

  /** One alternative of a tag filter: a value, or nil, for each position after the tag's key. */
  type TagValues = seq<Option<string>>
  type TagMap = map<string, seq<TagValues>>

  /** Each optional field distinguishes Go's nil (absent) from an empty slice or map. */
  datatype Filter = Filter(
    ids: Option<seq<string>>, kinds: Option<seq<int>>, authors: Option<seq<string>>,
    addresses: Option<seq<string>>, tags: Option<TagMap>, since: Option<int>, until: Option<int>)

  const EMPTY_FILTER := Filter(None, None, None, None, None, None, None)

  /** The keys of the connected user; both empty on the push path. */
  datatype User = User(master: string, device: string)

  const NOBODY := User("", "")

  // ---- Authors

  predicate OwnsEvent(user: User, e: Event) {
    e.pubkey in {user.device, user.master} || MasterKey(e) in {user.device, user.master}
  }

  predicate AuthorAccepts(author: string, e: Event, user: User) {
    || author == e.pubkey
    || author == MasterKey(e)
    || (author in {user.device, user.master} && OwnsEvent(user, e))
  }

  predicate AuthorsMatch(authors: seq<string>, e: Event, user: User) {
    exists i :: 0 <= i < |authors| && AuthorAccepts(authors[i], e, user)
  }

  method FilterMatchAuthors(authors: seq<string>, e: Event, user: User) returns (matched: bool)
    ensures matched <==> AuthorsMatch(authors, e, user)
  {
    var eventMasterKey := MasterKey(e);
    for i := 0 to |authors|
      invariant forall j :: 0 <= j < i ==> !AuthorAccepts(authors[j], e, user)
    {
      var author := authors[i];
      if author == e.pubkey || author == eventMasterKey {
        return true;
      } else if author == user.device || author == user.master {
        if e.pubkey == user.device || eventMasterKey == user.device ||
           e.pubkey == user.master || eventMasterKey == user.master {
          return true;
        }
      }
    }
    return false;
  }

  // ---- Kinds

  /** The kind named by the event's first `k` tag, when it is a positive number. */
  function RepostedKind(e: Event): Option<int> {
    match Atoi(Value(GetTag(e.tags, "k")))
    case Some(k) => if k > 0 then Some(k) else None
    case None => None
  }

  predicate RepostAccepts(k: int, e: Event) {
    && e.kind == KIND_GENERIC_REPOST
    && k in REPOST_ORIGINALS
    && RepostedKind(e) == Some(REPOST_ORIGINALS[k])
  }

  predicate KindRejects(k: int, e: Event) {
    k == -e.kind && k != e.kind
  }

  predicate KindAccepts(k: int, e: Event) {
    k == e.kind || (!KindRejects(k, e) && RepostAccepts(k, e))
  }

  /** Some listed kind accepts the event before any listed kind excludes it. */
  predicate KindsMatch(kinds: seq<int>, e: Event) {
    || kinds == []
    || exists i :: 0 <= i < |kinds| && KindAccepts(kinds[i], e) &&
                   forall j :: 0 <= j < i ==> !KindRejects(kinds[j], e)
  }

  method FilterMatchKind(kinds: seq<int>, e: Event) returns (matched: bool)
    ensures matched <==> KindsMatch(kinds, e)
  {
    if |kinds| == 0 {
      return true;
    }
    for i := 0 to |kinds|
      invariant forall j :: 0 <= j < i ==> !KindAccepts(kinds[j], e) && !KindRejects(kinds[j], e)
    {
      var k := kinds[i];
      if k == e.kind {
        assert KindAccepts(kinds[i], e);
        return true;
      } else if k == -e.kind {
        assert KindRejects(kinds[i], e);
        return false;
      } else if e.kind == KIND_GENERIC_REPOST {
        var val := RepostedKind(e);
        if val.Some? && k in REPOST_ORIGINALS && val.value == REPOST_ORIGINALS[k] {
          assert KindAccepts(kinds[i], e);
          return true;
        }
      }
    }
    return false;
  }

  // ---- Tags

  /** Whether an alternative constrains any position. */
  predicate Constrains(alt: TagValues) {
    exists j :: 0 <= j < |alt| && alt[j].Some?
  }

  predicate HasValues(alts: seq<TagValues>) {
    exists i :: 0 <= i < |alts| && Constrains(alts[i])
  }

  /** Every constrained position of the alternative equals the tag's value at that position. */
  predicate AltMatches(alt: TagValues, tag: Tag) {
    forall j :: 0 <= j < |alt| && alt[j].Some? ==> j + 1 < |tag| && tag[j + 1] == alt[j].value
  }

  /** The tag that meets an alternative and nothing more. */
  function Fill(name: string, alt: TagValues): (tag: Tag)
    ensures |tag| == |alt| + 1 && Key(tag) == name && AltMatches(alt, tag)
    ensures forall j :: 0 <= j < |alt| && alt[j].None? ==> tag[j + 1] == ""
  {
    [name] + seq(|alt|, j requires 0 <= j < |alt| => if alt[j].Some? then alt[j].value else "")
  }

  predicate TagSatisfies(name: string, alts: seq<TagValues>, tag: Tag) {
    && Key(tag) == name
    && (HasValues(alts) ==>
          exists i :: 0 <= i < |alts| && Constrains(alts[i]) && AltMatches(alts[i], tag))
  }

  predicate NameMatches(name: string, alts: seq<TagValues>, tags: seq<Tag>) {
    exists t :: 0 <= t < |tags| && TagSatisfies(name, alts, tags[t])
  }

  /** Tag names are ANDed, alternatives ORed, positions compared one by one. */
  predicate TagsMatch(filter: TagMap, tags: seq<Tag>) {
    forall name :: name in filter ==> NameMatches(name, filter[name], tags)
  }

  // ---- Whole filters

  predicate FilterMatches(f: Filter, e: Event, user: User) {
    && (f.since.Some? ==> f.since.value <= e.createdAt)
    && (f.until.Some? ==> e.createdAt <= f.until.value)
    && (f.ids.Some? ==> e.id in f.ids.value)
    && (f.kinds.Some? ==> KindsMatch(f.kinds.value, e))
    && (f.authors.Some? ==> AuthorsMatch(f.authors.value, e, user))
    && (f.addresses.Some? ==> Address(e) in f.addresses.value || e.id in f.addresses.value)
    && (f.tags.Some? ==> TagsMatch(f.tags.value, e.tags))
  }

  predicate FiltersMatch(filters: seq<Filter>, e: Event, user: User) {
    filters == [] || exists i :: 0 <= i < |filters| && FilterMatches(filters[i], e, user)
  }

  method FilterMatchesLoop(f: Filter, e: Event, user: User) returns (matched: bool)
    ensures matched <==> FilterMatches(f, e, user)
  {
    if f.since.Some? && e.createdAt < f.since.value {
      return false;
    }
    if f.until.Some? && f.until.value < e.createdAt {
      return false;
    }
    if f.ids.Some? && e.id !in f.ids.value {
      return false;
    }
    if f.kinds.Some? {
      var kindOk := FilterMatchKind(f.kinds.value, e);
      if !kindOk {
        return false;
      }
    }
    if f.authors.Some? {
      var authorOk := FilterMatchAuthors(f.authors.value, e, user);
      if !authorOk {
        return false;
      }
    }
    if f.addresses.Some? && !(Address(e) in f.addresses.value || e.id in f.addresses.value) {
      return false;
    }
    return f.tags.Some? ==> TagsMatch(f.tags.value, e.tags);
  }

  method FiltersMatchLoop(filters: seq<Filter>, e: Event, user: User) returns (matched: bool)
    ensures matched <==> FiltersMatch(filters, e, user)
  {
    if |filters| == 0 {
      return true;
    }
    for i := 0 to |filters|
      invariant forall j :: 0 <= j < i ==> !FilterMatches(filters[j], e, user)
    {
      var one := FilterMatchesLoop(filters[i], e, user);
      if one {
        return true;
      }
    }
    return false;
  }
}
