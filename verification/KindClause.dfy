/** The two readings of a filter's kinds: the SQL conditions of `ApplySpecialKinds` and `ApplyFilterKinds`, and
    the in-memory `filterMatchKind`. */
module KindClause {
  import opened Optional
  import opened Strconv
  import opened Nostr
  import opened FilterMatch
  import opened FilterSql
  import opened EventRows

  /** The row the database holds for an event, as far as kinds are concerned. */
  predicate Shows(row: Row, e: Event) {
    row.kind == e.kind && row.tags == TagRows(e.tags)
  }

  ghost predicate SqlKinds(kinds: seq<int>, row: Row) {
    RepostsAllow(kinds, row) && PlainKindsAllow(kinds, row)
  }

  /** A kind an event can have: not negative, and no pseudo-kind. */
  predicate IsEventKind(kind: int) {
    kind >= 0 && kind !in REPOST_ORIGINALS
  }

  /** Both sides read the original of a generic repost alike: memory parses its first `k` tag, the database looks for
      a `k` tag that spells the original. */
  predicate KTagsAgree(e: Event) {
    e.kind == KIND_GENERIC_REPOST ==>
      forall original :: original in REPOST_ORIGINALS.Values ==>
        (RepostedKind(e) == Some(original) <==> Spells(e.tags, original))
  }

  predicate NamesKind(t: Tag, original: int) {
    |t| > 1 && t[0] == "k" && t[1] == Itoa(original)
  }

  predicate Spells(tags: seq<Tag>, original: int) {
    exists t :: t in tags && NamesKind(t, original)
  }

  predicate NonNegative(kinds: seq<int>) {
    forall k :: k in kinds ==> k >= 0
  }

  predicate ListsInclusions(kinds: seq<int>) {
    exists k :: k in kinds && k >= 0
  }

  /** An exclusion of the event's kind stands before every entry that accepts the event. */
  predicate ExcludedFirst(kinds: seq<int>, e: Event) {
    exists j :: 0 <= j < |kinds| && KindRejects(kinds[j], e) && forall i :: 0 <= i < |kinds| && KindAccepts(kinds[i], e) ==> j < i
  }

  /** The rows of `event_tags` spell what the tags spell. */
  lemma RowsSpell(tags: seq<Tag>, original: int)
    ensures Spells(TagRows(tags), original) <==> Spells(tags, original)
  {
    hide Itoa, TagRows;
    ItoaIsSomething(original);
    var alt := [Some(Itoa(original))];
    assert IsIndexable("k");
    RowsFind(tags, "k", alt);
    SpellsIsTag(tags, original);
    SpellsIsTag(TagRows(tags), original);
  }

  lemma SpellsIsTag(tags: seq<Tag>, original: int)
    ensures Spells(tags, original) <==> HasTag(tags, "k", [Some(Itoa(original))])
  {
    hide Itoa;
    var alt := [Some(Itoa(original))];
    assert forall t :: t in tags && t != [] && t[0] == "k" ==> (AltMatches(alt, t) <==> NamesKind(t, original)) by {
      assert alt[0].Some? && alt[0].value == Itoa(original);
    }
    if t :| t in tags && NamesKind(t, original) {
      assert AltMatches(alt, t);
    }
    if t :| t in tags && t != [] && t[0] == "k" && AltMatches(alt, t) {
      assert NamesKind(t, original);
    }
  }

  lemma ItoaIsSomething(n: int)
    ensures Itoa(n) != ""
  {
  }

  lemma OriginalsArePositive(k: int)
    requires k in REPOST_ORIGINALS
    ensures k > 0 && 0 < REPOST_ORIGINALS[k] <= MAX_INT64 && k != KIND_GENERIC_REPOST
  {
  }

  /** A repost condition holds exactly when some listed pseudo-kind accepts the repost. */
  lemma RepostsAgree(kinds: seq<int>, e: Event, row: Row)
    requires Shows(row, e) && KTagsAgree(e) && AsksReposts(kinds) && e.kind == KIND_GENERIC_REPOST
    ensures RepostsAllow(kinds, row) <==> exists k :: k in kinds && RepostAccepts(k, e)
  {
    hide Itoa, RepostedKind, TagRows;
    if RepostsAllow(kinds, row) {
      var k, t :| k in kinds && k in REPOST_ORIGINALS && t in row.tags && |t| > 1 && t[0] == "k" &&
                  t[1] == Itoa(REPOST_ORIGINALS[k]);
      assert NamesKind(t, REPOST_ORIGINALS[k]) && REPOST_ORIGINALS[k] in REPOST_ORIGINALS.Values;
      assert Spells(row.tags, REPOST_ORIGINALS[k]);
      RowsSpell(e.tags, REPOST_ORIGINALS[k]);
      assert RepostAccepts(k, e);
    }
    if k :| k in kinds && RepostAccepts(k, e) {
      assert REPOST_ORIGINALS[k] in REPOST_ORIGINALS.Values && Spells(e.tags, REPOST_ORIGINALS[k]);
      RowsSpell(e.tags, REPOST_ORIGINALS[k]);
      var t :| t in row.tags && NamesKind(t, REPOST_ORIGINALS[k]);
    }
  }

  predicate SomeAccepts(kinds: seq<int>, e: Event) {
    exists k :: k in kinds && (k == e.kind || RepostAccepts(k, e))
  }

  /** With at least one kind to include, SQL selects exactly what some entry accepts. */
  lemma InclusionsAgree(kinds: seq<int>, e: Event, row: Row)
    requires Shows(row, e) && IsEventKind(e.kind) && KTagsAgree(e) && ListsInclusions(kinds)
    ensures SqlKinds(kinds, row) <==> SomeAccepts(kinds, e)
  {
    hide Itoa, KTagsAgree, RepostedKind, RepostsAllow;
    assert exists k :: k >= 0 && Lists(kinds, k) by {
      var k :| k in kinds && k >= 0;
      assert Lists(kinds, if k in REPOST_ORIGINALS && KIND_GENERIC_REPOST !in kinds then KIND_GENERIC_REPOST else k);
    }
    if e.kind == KIND_GENERIC_REPOST && AsksReposts(kinds) {
      RepostsAgree(kinds, e, row);
    } else {
      NoRepostCondition(kinds, row);
      AcceptedByKind(kinds, e);
    }
  }

  lemma NoRepostCondition(kinds: seq<int>, row: Row)
    requires !(row.kind == KIND_GENERIC_REPOST && AsksReposts(kinds))
    ensures RepostsAllow(kinds, row)
  {
  }

  lemma AcceptedByKind(kinds: seq<int>, e: Event)
    requires IsEventKind(e.kind) && !(e.kind == KIND_GENERIC_REPOST && AsksReposts(kinds))
    ensures SomeAccepts(kinds, e) <==> Lists(kinds, e.kind)
  {
    hide RepostedKind;
    if SomeAccepts(kinds, e) {
      var k :| k in kinds && (k == e.kind || RepostAccepts(k, e));
      assert k == e.kind || KIND_GENERIC_REPOST in kinds;
    }
  }

  /** Memory matches when an accepting entry comes before any exclusion of the kind. */
  lemma MemoryKinds(kinds: seq<int>, e: Event)
    requires IsEventKind(e.kind) && kinds != []
    ensures KindsMatch(kinds, e) <==> SomeAccepts(kinds, e) && !ExcludedFirst(kinds, e)
  {
    hide KindAccepts, KindRejects, SomeAccepts, ExcludedFirst;
    if KindsMatch(kinds, e) {
      var i :| 0 <= i < |kinds| && KindAccepts(kinds[i], e) && forall j :: 0 <= j < i ==> !KindRejects(kinds[j], e);
      AcceptedBeforeExcluded(kinds, e, i);
    }
    if SomeAccepts(kinds, e) && !ExcludedFirst(kinds, e) {
      var i := AcceptingEntry(kinds, e);
      var first := FirstAccepting(kinds, e, i);
      NotExcludedBefore(kinds, e, first);
    }
  }

  lemma AcceptedBeforeExcluded(kinds: seq<int>, e: Event, i: nat)
    requires i < |kinds| && KindAccepts(kinds[i], e) && forall j :: 0 <= j < i ==> !KindRejects(kinds[j], e)
    ensures SomeAccepts(kinds, e) && !ExcludedFirst(kinds, e)
  {
    hide KindRejects, RepostAccepts;
    assert kinds[i] in kinds;
  }

  lemma AcceptingEntry(kinds: seq<int>, e: Event) returns (i: nat)
    requires IsEventKind(e.kind) && SomeAccepts(kinds, e)
    ensures i < |kinds| && KindAccepts(kinds[i], e)
  {
    hide KindAccepts, KindRejects, RepostAccepts;
    var k :| k in kinds && (k == e.kind || RepostAccepts(k, e));
    NoSelfRejection(k, e);
    i :| 0 <= i < |kinds| && kinds[i] == k;
  }

  lemma NotExcludedBefore(kinds: seq<int>, e: Event, first: nat)
    requires first < |kinds| && !ExcludedFirst(kinds, e) && forall j :: 0 <= j < first ==> !KindAccepts(kinds[j], e)
    ensures forall j :: 0 <= j < first ==> !KindRejects(kinds[j], e)
  {
    hide KindAccepts, KindRejects;
    forall j | 0 <= j < first
      ensures !KindRejects(kinds[j], e)
    {
    }
  }

  lemma NoSelfRejection(k: int, e: Event)
    requires IsEventKind(e.kind) && (k == e.kind || RepostAccepts(k, e))
    ensures KindAccepts(k, e) && !KindRejects(k, e)
  {
    hide RepostedKind;
    if RepostAccepts(k, e) {
      OriginalsArePositive(k);
    }
  }

  lemma {:induction false} FirstAccepting(kinds: seq<int>, e: Event, i: nat) returns (first: nat)
    requires i < |kinds| && KindAccepts(kinds[i], e)
    ensures first <= i && KindAccepts(kinds[first], e) && forall j :: 0 <= j < first ==> !KindAccepts(kinds[j], e)
  {
    if j :| 0 <= j < i && KindAccepts(kinds[j], e) {
      first := FirstAccepting(kinds, e, j);
    } else {
      first := i;
    }
  }

  lemma NothingToInclude(kinds: seq<int>, e: Event)
    requires IsEventKind(e.kind) && !ListsInclusions(kinds)
    ensures !SomeAccepts(kinds, e)
  {
    hide RepostedKind;
    if k :| k in kinds && (k == e.kind || RepostAccepts(k, e)) {
      if RepostAccepts(k, e) {
        OriginalsArePositive(k);
      }
    }
  }

  /** How the two verdicts relate on any kinds list: memory additionally never matches a list of exclusions
      alone, and honours an exclusion that stands before what accepts the event. */
  lemma KindVerdicts(kinds: seq<int>, e: Event, row: Row)
    requires Shows(row, e) && IsEventKind(e.kind) && KTagsAgree(e)
    ensures KindsMatch(kinds, e) <==>
              SqlKinds(kinds, row) && (kinds == [] || (ListsInclusions(kinds) && !ExcludedFirst(kinds, e)))
  {
    hide KTagsAgree, KindsMatch, SqlKinds, ExcludedFirst, SomeAccepts;
    if kinds == [] {
      EmptyKinds(e, row);
    } else {
      MemoryKinds(kinds, e);
      if ListsInclusions(kinds) {
        InclusionsAgree(kinds, e, row);
      } else {
        NothingToInclude(kinds, e);
      }
    }
  }

  lemma EmptyKinds(e: Event, row: Row)
    ensures KindsMatch([], e) && SqlKinds([], row)
  {
  }

  /** For kinds that are not negative the two verdicts are the same. */
  lemma KindClausesAgree(kinds: seq<int>, e: Event, row: Row)
    requires Shows(row, e) && IsEventKind(e.kind) && KTagsAgree(e) && NonNegative(kinds)
    ensures KindsMatch(kinds, e) <==> SqlKinds(kinds, row)
  {
    hide KTagsAgree, KindsMatch, SqlKinds, ExcludedFirst;
    KindVerdicts(kinds, e, row);
    NothingExcluded(kinds, e);
    if kinds != [] {
      assert kinds[0] in kinds && kinds[0] >= 0;
    }
  }

  lemma NothingExcluded(kinds: seq<int>, e: Event)
    requires e.kind >= 0 && NonNegative(kinds)
    ensures !ExcludedFirst(kinds, e)
  {
    forall j | 0 <= j < |kinds|
      ensures !KindRejects(kinds[j], e)
    {
      assert kinds[j] in kinds;
    }
  }

  /** A list of exclusions alone: the database selects every other kind, memory matches nothing. They agree on an
      event exactly when its kind is excluded. */
  lemma ExclusionsExactly(kinds: seq<int>, e: Event, row: Row)
    requires Shows(row, e) && IsEventKind(e.kind) && kinds != [] && forall k :: k in kinds ==> k < 0
    ensures (KindsMatch(kinds, e) <==> SqlKinds(kinds, row)) <==> -e.kind in kinds
  {
    MemoryKinds(kinds, e);
    NothingToInclude(kinds, e);
    assert !ListsInclusions(kinds) && !AsksReposts(kinds);
    hide KindsMatch, RepostsAllow;
    NoRepostCondition(kinds, row);
    assert forall k :: k >= 0 ==> !Lists(kinds, k);
  }

  // ---- Exactly which reposts are read alike

  /** Memory and database agree on an event under every list of kinds to include exactly when they read its `k` tags
      alike. */
  lemma KindReadingsExactly(e: Event, row: Row)
    requires Shows(row, e) && IsEventKind(e.kind)
    ensures (forall kinds :: NonNegative(kinds) ==> (KindsMatch(kinds, e) <==> SqlKinds(kinds, row))) <==> KTagsAgree(e)
  {
    hide KindsMatch, SqlKinds, KTagsAgree;
    if KTagsAgree(e) {
      forall kinds | NonNegative(kinds)
        ensures KindsMatch(kinds, e) <==> SqlKinds(kinds, row)
      {
        KindClausesAgree(kinds, e, row);
      }
    } else {
      var original := Misread(e);
      var k := PseudoKindOf(original);
      OnePseudoKind(k, e, row);
      assert NonNegative([k]);
    }
  }

  lemma Misread(e: Event) returns (original: int)
    requires !KTagsAgree(e)
    ensures e.kind == KIND_GENERIC_REPOST && original in REPOST_ORIGINALS.Values
    ensures RepostedKind(e) == Some(original) <==> !Spells(e.tags, original)
  {
    original :| original in REPOST_ORIGINALS.Values && (RepostedKind(e) == Some(original) <==> !Spells(e.tags, original));
  }

  lemma PseudoKindOf(original: int) returns (k: int)
    requires original in REPOST_ORIGINALS.Values
    ensures k in REPOST_ORIGINALS && REPOST_ORIGINALS[k] == original && k > KIND_GENERIC_REPOST
  {
    k :| k in REPOST_ORIGINALS && REPOST_ORIGINALS[k] == original;
  }

  /** The list of one pseudo-kind: each side's verdict on a repost is its own reading of the `k` tags. */
  lemma OnePseudoKind(k: int, e: Event, row: Row)
    requires Shows(row, e) && e.kind == KIND_GENERIC_REPOST && k in REPOST_ORIGINALS && k > KIND_GENERIC_REPOST
    ensures KindsMatch([k], e) <==> RepostedKind(e) == Some(REPOST_ORIGINALS[k])
    ensures SqlKinds([k], row) <==> Spells(e.tags, REPOST_ORIGINALS[k])
  {
    hide Itoa, RepostedKind, Spells, TagRows;
    var kinds := [k];
    assert kinds[0] in kinds && AsksReposts(kinds) && Lists(kinds, KIND_GENERIC_REPOST);
    assert KindsMatch(kinds, e) <==> KindAccepts(kinds[0], e);
    OneRepostCondition(k, row);
    RowsSpell(e.tags, REPOST_ORIGINALS[k]);
  }

  lemma OneRepostCondition(k: int, row: Row)
    requires row.kind == KIND_GENERIC_REPOST && k in REPOST_ORIGINALS && AsksReposts([k])
    ensures RepostsAllow([k], row) <==> Spells(row.tags, REPOST_ORIGINALS[k])
  {
    hide Itoa;
    if t :| t in row.tags && NamesKind(t, REPOST_ORIGINALS[k]) {
      assert k in [k] && RepostsAllow([k], row);
    }
    if RepostsAllow([k], row) {
      var l, t :| l in [k] && l in REPOST_ORIGINALS && t in row.tags && |t| > 1 && t[0] == "k" &&
                  t[1] == Itoa(REPOST_ORIGINALS[l]);
      assert NamesKind(t, REPOST_ORIGINALS[k]);
    }
  }

  /** An accepted generic repost: its first `k` tag prints the kind it reposts. */
  predicate FirstKPrints(tags: seq<Tag>, reposted: int) {
    0 <= reposted <= MAX_INT64 && Value(GetTag(tags, "k")) == Itoa(reposted)
  }

  /** Accepted reposts are read alike exactly when no further `k` tag spells an original other than the one
      reposted. */
  lemma AcceptedRepostsExactly(e: Event, reposted: int)
    requires e.kind == KIND_GENERIC_REPOST && FirstKPrints(e.tags, reposted)
    ensures KTagsAgree(e) <==>
              forall original :: original in REPOST_ORIGINALS.Values && Spells(e.tags, original) ==> original == reposted
  {
    hide Atoi, Itoa;
    AtoiItoa(reposted);
    var first := GetTag(e.tags, "k");
    ItoaIsSomething(reposted);
    assert first != [] && first in e.tags && NamesKind(first, reposted) && Spells(e.tags, reposted);
    assert RepostedKind(e) == if reposted > 0 then Some(reposted) else None;
    forall original | original in REPOST_ORIGINALS.Values
      ensures original > 0
    {
      var _ := PseudoKindOf(original);
    }
  }

  lemma DigitsStep(n: nat)
    ensures Digits(n) == if n < 10 then [DigitChar(n)] else Digits(n / 10) + [DigitChar(n % 10)]
  {
  }

  lemma OneItoa()
    ensures Itoa(1) == "1"
  {
  }

  lemma ArticleItoa()
    ensures Itoa(KIND_ARTICLE) == "30023"
  {
    hide Digits;
    DigitsStep(30023);
    DigitsStep(3002);
    DigitsStep(300);
    DigitsStep(30);
    DigitsStep(3);
  }

  /** An accepted repost of a note with a second `k` tag: the database looks at any of them, memory at the first. */
  lemma SecondKTag(e: Event, row: Row)
    requires Shows(row, e) && e.kind == KIND_GENERIC_REPOST && e.tags == [["k", "1"], ["k", "30023"]]
    ensures FirstKPrints(e.tags, 1) && SqlKinds([REPOST_OF_ARTICLE], row) && !KindsMatch([REPOST_OF_ARTICLE], e)
  {
    hide Atoi, Itoa, KindsMatch, SqlKinds;
    ArticleItoa();
    AtoiItoa(1);
    OneItoa();
    assert GetTag(e.tags, "k") == ["k", "1"];
    assert ["k", "30023"] in e.tags && NamesKind(["k", "30023"], KIND_ARTICLE);
    assert Spells(e.tags, REPOST_ORIGINALS[REPOST_OF_ARTICLE]);
    OnePseudoKind(REPOST_OF_ARTICLE, e, row);
  }
}
