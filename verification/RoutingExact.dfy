/** Why routing needs its condition: a routable filter that is not covered loses an event. */
module RoutingExact {
  import opened Optional
  import opened Nostr
  import opened Strconv
  import opened FilterMatch
  import opened Routing
  import opened RoutingComplete

  /** Filters that constrain nothing but IDs, time, kinds, authors and tags other than `b`, and whose IDs and time range
      an event can meet. */
  predicate Routable(f: Filter) {
    && f.addresses.None? && (f.ids.Some? ==> f.ids.value != [])
    && (f.since.Some? && f.until.Some? ==> f.since.value <= f.until.value)
    && "b" !in Tags(f)
  }

  lemma EvasiveTag(f: Filter, name: string) returns (tag: Tag)
    requires name in Tags(f) && !(name in TRACKED && NameForced(f, name, Tags(f)[name]))
    ensures TagSatisfies(name, Tags(f)[name], tag)
    ensures TagTarget(tag).Some? ==> !FilterHasTarget(f, TagTarget(tag).value)
  {
    hide AltTargets, FilterHasTarget;
    var alts := Tags(f)[name];
    if !HasValues(alts) {
      tag := [name];
    } else if name !in TRACKED {
      var i :| 0 <= i < |alts| && Constrains(alts[i]);
      tag := Fill(name, alts[i]);
    } else {
      var i :| 0 <= i < |alts| && Constrains(alts[i]) && !AltForced(f, name, alts[i]);
      var alt := alts[i];
      tag := Fill(name, alt);
      assert TagTarget(tag) == AltTarget(name, alt[..if |alt| > 3 then 3 else |alt|]);
    }
  }

  ghost predicate Evasive(f: Filter, names: set<string>, tags: seq<Tag>) {
    && (forall name :: name in names && name in Tags(f) ==> NameMatches(name, Tags(f)[name], tags))
    && (forall i :: 0 <= i < |tags| ==>
          && Key(tags[i]) in names
          && (TagTarget(tags[i]).Some? ==> !FilterHasTarget(f, TagTarget(tags[i]).value)))
  }

  lemma {:induction false} EvasiveTags(f: Filter, names: set<string>) returns (tags: seq<Tag>)
    requires names <= Tags(f).Keys
    requires forall name :: name in TRACKED && name in Tags(f) ==> !NameForced(f, name, Tags(f)[name])
    ensures Evasive(f, names, tags)
  {
    if names == {} {
      tags := [];
    } else {
      var name :| name in names;
      var rest := EvasiveTags(f, names - {name});
      var tag := EvasiveTag(f, name);
      tags := rest + [tag];
      assert TagSatisfies(name, Tags(f)[name], tags[|rest|]);
      forall n | n in names - {name}
        ensures NameMatches(n, Tags(f)[n], tags)
      {
        var t :| 0 <= t < |rest| && TagSatisfies(n, Tags(f)[n], rest[t]);
        assert tags[t] == rest[t];
      }
    }
  }

  lemma {:induction false} NoTagOfKey(tags: seq<Tag>, name: string)
    requires forall i :: 0 <= i < |tags| ==> Key(tags[i]) != name
    ensures GetTag(tags, name) == []
  {
    if tags != [] {
      NoTagOfKey(tags[1..], name);
    }
  }

  lemma EvasiveKindMatches(kinds: seq<int>, e: Event)
    requires !HasNegative(kinds) && e.kind in kinds
    ensures KindsMatch(kinds, e)
  {
    var i :| 0 <= i < |kinds| && kinds[i] == e.kind;
    assert KindAccepts(kinds[i], e);
  }

  lemma EvasiveAuthorMatches(authors: seq<string>, e: Event, user: User)
    requires HalfListed(authors, user) && OwnsEvent(user, e)
    ensures AuthorsMatch(authors, e, user)
  {
    var listed := if user.master in authors then user.master else user.device;
    var i :| 0 <= i < |authors| && authors[i] == listed;
    assert AuthorAccepts(authors[i], e, user);
  }

  lemma TargetsAreReal(f: Filter, t: Target)
    requires FilterHasTarget(f, t)
    ensures t.dim != DimNone && (t.dim == DimAuthor ==> t.value in Authors(f))
    ensures t.dim == DimTagK ==> "k" in Tags(f) && t in AltTargets("k", Tags(f)["k"])
  {
    hide AltTargets;
    if !(t.dim == DimAuthor && t.value in Authors(f)) {
      var name :| name in Tags(f) && t in AltTargets(name, Tags(f)[name]);
      var alts := Tags(f)[name];
      var i :| 0 <= i < |alts| && AltTarget(name, alts[i]) == Some(t);
    }
  }

  // ---- The kind of the lost event

  /** The decimal form with zeros in front. */
  function Padded(kind: nat, zeros: nat): string {
    if zeros == 0 then Digits(kind) else "0" + Padded(kind, zeros - 1)
  }

  lemma {:induction false} LeadingZero(s: string)
    requires AllDigits(s)
    ensures AllDigits("0" + s) && Unsigned("0" + s) == Unsigned(s)
  {
    if s != [] {
      LeadingZero(s[..|s| - 1]);
      assert ("0" + s)[..|s|] == "0" + s[..|s| - 1];
    }
  }

  lemma {:induction false} PaddedParses(kind: nat, zeros: nat)
    ensures |Padded(kind, zeros)| > zeros && AllDigits(Padded(kind, zeros)) && Unsigned(Padded(kind, zeros)) == kind
  {
    if zeros == 0 {
      UnsignedDigits(kind);
    } else {
      PaddedParses(kind, zeros - 1);
      LeadingZero(Padded(kind, zeros - 1));
    }
  }

  function Longest(ts: seq<Target>): (n: nat)
    ensures forall t :: t in ts ==> |t.value| <= n
  {
    if ts == [] then 0
    else
      var n := Longest(ts[1..]);
      if |ts[0].value| > n then |ts[0].value| else n
  }

  /** A `k` tag that names the kind in a way that none of the filter's values does. */
  lemma EvasiveKTag(f: Filter, kind: nat) returns (tag: Tag)
    requires 0 < kind <= MAX_INT64
    ensures Key(tag) == "k" && Atoi(Value(tag)) == Some(kind)
    ensures TagTarget(tag).Some? ==> !FilterHasTarget(f, TagTarget(tag).value)
  {
    var zeros := if "k" in Tags(f) then Longest(AltTargets("k", Tags(f)["k"])) else 0;
    var value := Padded(kind, zeros);
    PaddedParses(kind, zeros);
    tag := ["k", value];
    assert IsDigit(value[0]);
    if FilterHasTarget(f, Target(DimTagK, value)) {
      TargetsAreReal(f, Target(DimTagK, value));
    }
  }

  /** Tags that evade the filter's targets and say, where the kind alone does not, that the filter's kinds accept the
      event. */
  ghost predicate Suits(f: Filter, kind: int, first: seq<Tag>) {
    && PlainKind(kind)
    && (forall tags, e: Event :: e.kind == kind && e.tags == first + tags ==> KindsMatch(Kinds(f), e))
    && (forall i :: 0 <= i < |first| ==>
          && Key(first[i]) != "b"
          && (TagTarget(first[i]).Some? ==> !FilterHasTarget(f, TagTarget(first[i]).value)))
  }

  lemma SuitableKind(f: Filter) returns (kind: int, first: seq<Tag>)
    requires !HasNegative(Kinds(f))
    ensures Suits(f, kind, first)
  {
    var kinds := Kinds(f);
    first := [];
    if kinds == [] {
      kind := 1;
    } else if PlainKind(kinds[0]) {
      kind := kinds[0];
      forall e: Event | e.kind == kind
        ensures KindsMatch(kinds, e)
      {
        EvasiveKindMatches(kinds, e);
      }
    } else {
      kind := KIND_GENERIC_REPOST;
      var tag := EvasiveKTag(f, REPOST_ORIGINALS[kinds[0]]);
      first := [tag];
      forall tags, e: Event | e.kind == kind && e.tags == first + tags
        ensures KindsMatch(kinds, e)
      {
        assert GetTag(e.tags, "k") == tag;
        assert KindAccepts(kinds[0], e);
      }
    }
  }

  /** More tags in front do not undo a match. */
  lemma FurtherTags(filter: TagMap, first: seq<Tag>, tags: seq<Tag>)
    requires forall name :: name in filter ==> NameMatches(name, filter[name], tags)
    ensures TagsMatch(filter, first + tags)
  {
    forall name | name in filter
      ensures NameMatches(name, filter[name], first + tags)
    {
      var j :| 0 <= j < |tags| && TagSatisfies(name, filter[name], tags[j]);
      assert (first + tags)[|first| + j] == tags[j];
    }
  }

  lemma NoSharedTarget(f: Filter, e: Event)
    requires MasterKey(e) == e.pubkey && e.pubkey !in Authors(f)
    requires forall i :: 0 <= i < |e.tags| && TagTarget(e.tags[i]).Some? ==> !FilterHasTarget(f, TagTarget(e.tags[i]).value)
    ensures forall t :: FilterHasTarget(f, t) ==> !EventHasTarget(e, t)
  {
    hide TagTarget, AltTargets, FilterHasTarget, MasterKey;
    forall t | FilterHasTarget(f, t)
      ensures !EventHasTarget(e, t)
    {
      TargetsAreReal(f, t);
    }
  }

  /** The time and the author of the lost event. */
  lemma SuitableTime(f: Filter) returns (createdAt: int)
    requires Routable(f)
    ensures (f.since.Some? ==> f.since.value <= createdAt) && (f.until.Some? ==> createdAt <= f.until.value)
  {
    createdAt := if f.since.Some? then f.since.value else if f.until.Some? then f.until.value else 0;
  }

  lemma SuitableAuthor(f: Filter, user: User) returns (pubkey: string)
    requires f.authors.Some? ==> HalfListed(f.authors.value, user)
    ensures pubkey !in Authors(f)
    ensures forall e: Event :: e.pubkey == pubkey && f.authors.Some? ==> AuthorsMatch(f.authors.value, e, user)
  {
    hide MasterKey;
    pubkey := if user.master in Authors(f) then user.device else user.master;
    forall e: Event | e.pubkey == pubkey && f.authors.Some?
      ensures AuthorsMatch(f.authors.value, e, user)
    {
      EvasiveAuthorMatches(f.authors.value, e, user);
    }
  }

  /** An uncovered filter is matched by an event the index does not look it up for. */
  lemma UncoveredLoses(f: Filter, user: User) returns (e: Event)
    requires Routable(f) && !Covered(f, user)
    ensures FilterMatches(f, e, user) && PlainKind(e.kind) && !FilterHits(f, e)
  {
    var kind, first := SuitableKind(f);
    var pubkey := SuitableAuthor(f, user);
    var createdAt := SuitableTime(f);
    var tags := EvasiveTags(f, Tags(f).Keys);
    e := Event(if f.ids.Some? then f.ids.value[0] else "", pubkey, kind, createdAt, first + tags, "");
    NoTagOfKey(e.tags, "b");
    assert KindsMatch(Kinds(f), e);
    hide TagTarget, FilterHasTarget, FilterHits, NameMatches, KindsMatch, TargetCount, AuthorsMatch, HalfListed, Suits;
    FurtherTags(Tags(f), first, tags);
    HitExactly(f, e, user);
    NoSharedTarget(f, e);
  }

  /** The condition is exact: a routable filter loses no matching event if and only if it is covered. */
  lemma LosslessExactly(f: Filter, user: User)
    requires Routable(f)
    ensures Covered(f, user) <==>
              forall e :: FilterMatches(f, e, user) && PlainKind(e.kind) ==> FilterHits(f, e)
  {
    if Covered(f, user) {
      forall e | FilterMatches(f, e, user) && PlainKind(e.kind)
        ensures FilterHits(f, e)
      {
        FilterComplete(f, e, user);
      }
    } else {
      var e := UncoveredLoses(f, user);
    }
  }

  /** The condition on the event's kind is needed too: an event that carries a repost pseudo-kind is
      matched literally but looked up as something else. */
  lemma PseudoKindLoses(kind: int, e: Event, user: User)
    requires kind in REPOST_ORIGINALS && e.kind == kind
    ensures var f := EMPTY_FILTER.(kinds := Some([kind]));
            Covered(f, user) && FilterMatches(f, e, user) && !FilterHits(f, e)
  {
    var f := EMPTY_FILTER.(kinds := Some([kind]));
    assert KindAccepts(f.kinds.value[0], e);
    assert RoutedKinds([kind]) == [KIND_GENERIC_REPOST];
  }
}
