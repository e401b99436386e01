/** The columns of the `events` table that are read off an event's tags, and, for a repost, off those of the event it
    carries (`database/query/query.go`). */
module EventColumns {
  import opened Optional
  import opened Nostr
  import opened EventRows

  datatype Columns = Columns(
    tTags: seq<string>, lang: string, giftReceiver: Option<string>, hasImages: bool, hasVideos: bool,
    expiration: Option<int>, hasReferences: bool, isReply: bool, isRootReply: bool, isQuote: bool)

  const KIND_REPOST := 6
  const KIND_GIFT_WRAP := 1059
  const NO_COLUMNS := Columns([], "", None, false, false, None, false, false, false, false)

  /** Reading a timestamp belongs to the library. */
  type Clock = string -> Option<int>

  // ---- What each column says of the tags

  function Lower(c: char): char {
    if 'A' <= c <= 'Z' then (c as int + 32) as char else c
  }

  /** Equal under case folding to a word of letters that fold to nothing else. */
  predicate FoldsTo(s: string, word: string) {
    |s| == |word| && forall i :: 0 <= i < |s| ==> Lower(s[i]) == word[i]
  }

  predicate HasField(t: Tag, prefix: string) {
    exists i :: 0 <= i < |t| && prefix <= t[i]
  }

  predicate IsImage(t: Tag) {
    Key(t) == "imeta" && HasField(t, "m image/")
  }

  predicate IsVideo(t: Tag) {
    Key(t) == "imeta" && HasField(t, "m video/")
  }

  predicate IsReference(t: Tag) {
    Key(t) == "a" || Key(t) == "e"
  }

  predicate IsMarked(t: Tag, marker: string) {
    IsReference(t) && |t| > 3 && FoldsTo(t[3], marker)
  }

  predicate IsQuote(t: Tag) {
    Key(t) == "q" || Key(t) == "Q"
  }

  predicate HasImages(tags: seq<Tag>) {
    exists t :: t in tags && IsImage(t)
  }

  predicate HasVideos(tags: seq<Tag>) {
    exists t :: t in tags && IsVideo(t)
  }

  predicate HasReferences(tags: seq<Tag>) {
    exists t :: t in tags && IsReference(t)
  }

  predicate IsReply(tags: seq<Tag>) {
    exists t :: t in tags && IsMarked(t, "reply")
  }

  predicate HasQuotes(tags: seq<Tag>) {
    exists t :: t in tags && IsQuote(t)
  }

  /** Whom a `p` tag of a gift wrap is for: the device in its fourth field, else the master key. */
  function Target(t: Tag): string {
    if Key(t) != "p" then "" else if |t| > 3 && t[3] != "" then t[3] else Value(t)
  }

  function LastTarget(tags: seq<Tag>): Option<string> {
    if tags == [] then None
    else if Target(tags[|tags| - 1]) != "" then Some(Target(tags[|tags| - 1]))
    else LastTarget(tags[..|tags| - 1])
  }

  function Deadline(clock: Clock, t: Tag): Option<int> {
    if Key(t) != "expiration" then None
    else match clock(Value(t))
         case Some(v) => if v > 0 then Some(v) else None
         case None => None
  }

  function Sooner(before: Option<int>, deadline: Option<int>): Option<int> {
    if deadline.Some? && (before.None? || deadline.value < before.value) then deadline else before
  }

  function Earliest(clock: Clock, tags: seq<Tag>): Option<int> {
    if tags == [] then None
    else Sooner(Earliest(clock, tags[..|tags| - 1]), Deadline(clock, tags[|tags| - 1]))
  }

  /** The value of the first tag with the marker that has one. */
  function FirstMarked(tags: seq<Tag>, marker: string): string {
    if tags == [] then ""
    else
      var before := FirstMarked(tags[..|tags| - 1], marker);
      if before == "" && IsMarked(tags[|tags| - 1], marker) then Value(tags[|tags| - 1]) else before
  }

  ghost predicate Shown(d: Columns, kind: int, clock: Clock, tags: seq<Tag>) {
    && ShowsTopics(d.tTags, tags) && d.lang == LangOf(tags)
    && d.giftReceiver == (if kind == KIND_GIFT_WRAP then LastTarget(tags) else None)
    && (d.hasImages <==> HasImages(tags)) && (d.hasVideos <==> HasVideos(tags))
    && d.expiration == Earliest(clock, tags)
    && (d.hasReferences <==> HasReferences(tags)) && (d.isReply <==> IsReply(tags)) && (d.isQuote <==> HasQuotes(tags))
  }

  /** The two marked events are there and the same one. */
  predicate RepliesToRoot(tags: seq<Tag>) {
    FirstMarked(tags, "reply") != "" && FirstMarked(tags, "reply") == FirstMarked(tags, "root")
  }

  /** A gift wrap's `p` tag of three fields, whose fourth is read without a check. */
  predicate IsTooShort(t: Tag, kind: int) {
    kind == KIND_GIFT_WRAP && Key(t) == "p" && |t| == 3
  }

  lemma FunctionsSnoc(tags: seq<Tag>, t: Tag, clock: Clock, marker: string)
    ensures LastTarget(tags + [t]) == if Target(t) != "" then Some(Target(t)) else LastTarget(tags)
    ensures Earliest(clock, tags + [t]) == Sooner(Earliest(clock, tags), Deadline(clock, t))
    ensures FirstMarked(tags + [t], marker) ==
            if FirstMarked(tags, marker) == "" && IsMarked(t, marker) then Value(t) else FirstMarked(tags, marker)
  {
    hide Target, Deadline, IsMarked;
    assert (tags + [t])[..|tags|] == tags;
  }

  lemma HasSnoc(tags: seq<Tag>, t: Tag)
    ensures HasImages(tags + [t]) <==> HasImages(tags) || IsImage(t)
    ensures HasVideos(tags + [t]) <==> HasVideos(tags) || IsVideo(t)
    ensures HasReferences(tags + [t]) <==> HasReferences(tags) || IsReference(t)
    ensures IsReply(tags + [t]) <==> IsReply(tags) || IsMarked(t, "reply")
    ensures HasQuotes(tags + [t]) <==> HasQuotes(tags) || IsQuote(t)
  {
    hide IsImage, IsVideo, IsReference, IsMarked, IsQuote;
    assert forall u :: u in tags + [t] <==> u in tags || u == t;
  }

  lemma NothingMarked(tags: seq<Tag>)
    ensures FirstMarked([], "reply") == "" && FirstMarked([], "root") == "" && tags + [] == tags
  {
  }

  // ---- The loop of the source

  /** What one tag adds to the columns when no event has been replied to, or one has. */
  ghost predicate Adds(kind: int, clock: Clock, t: Tag, replied: bool, d: Columns, d': Columns) {
    && d'.tTags == (if IsTopicTag(t) then d.tTags + [Value(t)] else d.tTags)
    && d'.lang == (if IsLanguageTag(t) then t[1] else d.lang)
    && d'.giftReceiver == (if kind == KIND_GIFT_WRAP && Target(t) != "" then Some(Target(t)) else d.giftReceiver)
    && (d'.hasImages <==> d.hasImages || IsImage(t)) && (d'.hasVideos <==> d.hasVideos || IsVideo(t))
    && d'.expiration == Sooner(d.expiration, Deadline(clock, t))
    && (d'.hasReferences <==> d.hasReferences || IsReference(t))
    && (d'.isReply <==> d.isReply || (IsMarked(t, "reply") && !replied))
    && (d'.isQuote <==> d.isQuote || IsQuote(t)) && d'.isRootReply == d.isRootReply
  }

  predicate IsTopicTag(t: Tag) {
    Key(t) == "t" && Value(t) != ""
  }

  /** Nothing of the columns hears of the tag. */
  ghost predicate Silent(t: Tag, clock: Clock) {
    && !IsTopicTag(t) && !IsLanguageTag(t) && Target(t) == "" && !IsImage(t) && !IsVideo(t) && Deadline(clock, t) == None
  }

  ghost predicate Unmarked(t: Tag) {
    !IsReference(t) && !IsQuote(t) && !IsMarked(t, "reply") && !IsMarked(t, "root")
  }

  /** The switch over one tag's key; `rootOf` and `replyOf` are what the marked tags so far refer to. */
  method FromTag(kind: int, t: Tag, d: Columns, rootOf: string, replyOf: string, clock: Clock)
    returns (d': Columns, rootOf': string, replyOf': string)
    requires !IsTooShort(t, kind)
    ensures Adds(kind, clock, t, replyOf != "", d, d')
    ensures replyOf' == (if replyOf == "" && IsMarked(t, "reply") then Value(t) else replyOf)
    ensures rootOf' == (if rootOf == "" && IsMarked(t, "root") then Value(t) else rootOf)
  {
    hide IsTopicTag, IsLanguageTag, Target, IsImage, IsVideo, Deadline, IsReference, IsQuote, IsMarked, Value;
    d', rootOf', replyOf' := d, rootOf, replyOf;
    var key := Key(t);
    if key in ["a", "e", "q", "Q"] {
      SilentKeys(t, clock);
      d', rootOf', replyOf' := FromLink(t, d, rootOf, replyOf);
    } else {
      UnmarkedKeys(t);
      d' := FromContent(kind, t, d, clock);
    }
  }

  lemma SilentKeys(t: Tag, clock: Clock)
    requires Key(t) in ["a", "e", "q", "Q"]
    ensures Silent(t, clock)
  {
  }

  lemma UnmarkedKeys(t: Tag)
    requires Key(t) !in ["a", "e", "q", "Q"]
    ensures Unmarked(t)
  {
    hide FoldsTo;
    assert ["a", "e", "q", "Q"][0] == "a" && ["a", "e", "q", "Q"][1] == "e";
    assert ["a", "e", "q", "Q"][2] == "q" && ["a", "e", "q", "Q"][3] == "Q";
  }

  /** References and quotes. */
  method FromLink(t: Tag, d: Columns, rootOf: string, replyOf: string)
    returns (d': Columns, rootOf': string, replyOf': string)
    requires Key(t) in ["a", "e", "q", "Q"]
    ensures d' == d.(hasReferences := d.hasReferences || IsReference(t),
                     isReply := d.isReply || (IsMarked(t, "reply") && replyOf == ""), isQuote := d.isQuote || IsQuote(t))
    ensures replyOf' == (if replyOf == "" && IsMarked(t, "reply") then Value(t) else replyOf)
    ensures rootOf' == (if rootOf == "" && IsMarked(t, "root") then Value(t) else rootOf)
  {
    hide FoldsTo;
    d', rootOf', replyOf' := d, rootOf, replyOf;
    if Key(t) == "a" || Key(t) == "e" {
      d' := d'.(hasReferences := true);
      if |t| > 3 {
        MarkerOf(t);
        if FoldsTo(t[3], "reply") && replyOf == "" {
          d' := d'.(isReply := true);
          replyOf' := Value(t);
        } else if FoldsTo(t[3], "root") && rootOf == "" {
          rootOf' := Value(t);
        }
      }
    } else {
      d' := d'.(isQuote := true);
    }
  }

  /** Topics, receivers, media, expiration and language. */
  method FromContent(kind: int, t: Tag, d: Columns, clock: Clock) returns (d': Columns)
    requires !IsTooShort(t, kind)
    ensures d' == d.(tTags := if IsTopicTag(t) then d.tTags + [Value(t)] else d.tTags,
                     lang := if IsLanguageTag(t) then t[1] else d.lang,
                     giftReceiver := if kind == KIND_GIFT_WRAP && Target(t) != "" then Some(Target(t)) else d.giftReceiver,
                     hasImages := d.hasImages || IsImage(t), hasVideos := d.hasVideos || IsVideo(t),
                     expiration := Sooner(d.expiration, Deadline(clock, t)))
  {
    KeysApart(t, clock);
    hide Target, IsLanguageTag, IsImage, IsVideo, Deadline, HasField;
    d' := d;
    var key := Key(t);
    if key == "t" {
      if Value(t) != "" {
        d' := d'.(tTags := d'.tTags + [Value(t)]);
      }
    } else if key == "p" {
      if kind == KIND_GIFT_WRAP {
        var target := FromP(t);
        if target != "" {
          d' := d'.(giftReceiver := Some(target));
        }
      }
    } else if key == "imeta" {
      var images, videos := FromImeta(t, d.hasImages, d.hasVideos);
      d' := d'.(hasImages := images, hasVideos := videos);
    } else if key == "expiration" {
      var expiration := FromExpiration(t, d.expiration, clock);
      d' := d'.(expiration := expiration);
    } else if key == "l" {
      var lang := FromLanguage(t, d.lang);
      d' := d'.(lang := lang);
    }
  }

  lemma MarkerOf(t: Tag)
    requires IsReference(t) && |t| > 3
    ensures IsMarked(t, "reply") <==> FoldsTo(t[3], "reply")
    ensures IsMarked(t, "root") <==> FoldsTo(t[3], "root")
    ensures !(FoldsTo(t[3], "reply") && FoldsTo(t[3], "root"))
  {
  }

  /** Each key has its own columns. */
  lemma KeysApart(t: Tag, clock: Clock)
    ensures IsLanguageTag(t) ==> Key(t) == "l"
    ensures (IsImage(t) <==> Key(t) == "imeta" && HasField(t, "m image/")) && (IsVideo(t) <==> Key(t) == "imeta" && HasField(t, "m video/"))
    ensures Deadline(clock, t).Some? ==> Key(t) == "expiration"
    ensures Target(t) != "" ==> Key(t) == "p"
  {
    hide HasField;
  }

  method FromP(t: Tag) returns (target: string)
    requires Key(t) == "p" && |t| != 3
    ensures target == Target(t)
  {
    target := Value(t);
    if |t| >= 3 && t[3] != "" {
      target := t[3];
    }
  }

  method FromExpiration(t: Tag, before: Option<int>, clock: Clock) returns (expiration: Option<int>)
    requires Key(t) == "expiration"
    ensures expiration == Sooner(before, Deadline(clock, t))
  {
    var deadline := clock(Value(t));
    if deadline.Some? && deadline.value > 0 && (before.None? || deadline.value < before.value) {
      return deadline;
    }
    return before;
  }

  method FromLanguage(t: Tag, before: string) returns (lang: string)
    requires Key(t) == "l"
    ensures lang == if IsLanguageTag(t) then t[1] else before
  {
    if |t| > 2 && Value(t) != "" && t[2] == LANG_ISO {
      return Value(t);
    }
    return before;
  }

  /** The fields of an `imeta` tag; the loop leaves early once both are known. */
  method FromImeta(t: Tag, images: bool, videos: bool) returns (hasImages: bool, hasVideos: bool)
    ensures hasImages <==> images || HasField(t, "m image/")
    ensures hasVideos <==> videos || HasField(t, "m video/")
  {
    hasImages, hasVideos := images, videos;
    for i := 0 to |t|
      invariant hasImages <==> images || exists j :: 0 <= j < i && "m image/" <= t[j]
      invariant hasVideos <==> videos || exists j :: 0 <= j < i && "m video/" <= t[j]
    {
      OneMedium(t[i]);
      if "m image/" <= t[i] {
        hasImages := true;
      } else if "m video/" <= t[i] {
        hasVideos := true;
      } else if hasImages && hasVideos {
        return;
      }
    }
  }

  lemma OneMedium(s: string)
    ensures !("m image/" <= s && "m video/" <= s)
  {
    if "m image/" <= s {
      assert s[2] == 'i';
    }
  }

  /** The columns gain what the tags say; it fails when a gift wrap has a `p` tag of exactly three fields. */
  method FromTags(kind: int, tags: seq<Tag>, before: Columns, clock: Clock, ghost earlier: seq<Tag>)
    returns (r: Option<Columns>)
    requires Shown(before, kind, clock, earlier)
    ensures r.None? <==> exists t :: t in tags && IsTooShort(t, kind)
    ensures r.Some? ==> Shown(r.value, kind, clock, earlier + tags) && (r.value.isRootReply <==> RepliesToRoot(tags))
  {
    hide NamesTopic, LangOf, HasImages, HasVideos, HasReferences, HasQuotes, LastTarget, Earliest, FirstMarked;
    hide IsImage, IsVideo, IsReference, IsMarked, IsQuote, Target, Deadline;
    var d := before;
    var rootOf, replyOf := "", "";
    ghost var seen := [];
    NothingMarked(earlier);
    for i := 0 to |tags|
      invariant seen == tags[..i] && forall t :: t in seen ==> !IsTooShort(t, kind)
      invariant Shown(d, kind, clock, earlier + seen)
      invariant rootOf == FirstMarked(seen, "root") && replyOf == FirstMarked(seen, "reply")
      invariant replyOf != "" ==> IsReply(earlier + seen)
    {
      var t := tags[i];
      if kind == KIND_GIFT_WRAP && Key(t) == "p" && |t| == 3 {
        assert t in tags && IsTooShort(t, kind);
        return None;
      }
      TopicsSnoc(earlier + seen, t);
      LangSnoc(earlier + seen, t);
      FunctionsSnoc(earlier + seen, t, clock, "root");
      FunctionsSnoc(seen, t, clock, "root");
      FunctionsSnoc(seen, t, clock, "reply");
      HasSnoc(earlier + seen, t);
      assert earlier + seen + [t] == earlier + (seen + [t]);
      d, rootOf, replyOf := FromTag(kind, t, d, rootOf, replyOf, clock);
      seen := seen + [t];
    }
    assert seen == tags;
    return Some(d.(isRootReply := rootOf != "" && replyOf != "" && rootOf == replyOf));
  }

  /** The tags that are read: the event's own and, for a repost whose content is an event, that event's. */
  function Read(e: Event, original: Option<seq<Tag>>): seq<Tag> {
    e.tags + Carried(e, original)
  }

  function Carried(e: Event, original: Option<seq<Tag>>): seq<Tag> {
    if e.kind in {KIND_REPOST, KIND_GENERIC_REPOST} && original.Some? then original.value else []
  }

  predicate IsRepost(e: Event, original: Option<seq<Tag>>) {
    e.kind in {KIND_REPOST, KIND_GENERIC_REPOST} && original.Some?
  }

  /** The columns of a stored event. A repost that carries an event is never a reply. */
  method ToColumns(e: Event, original: Option<seq<Tag>>, clock: Clock) returns (r: Option<Columns>)
    ensures r.None? <==> e.kind == KIND_GIFT_WRAP && exists t :: t in e.tags && Key(t) == "p" && |t| == 3
    ensures r.Some? ==>
              var d := r.value;
              && Shown(d.(isReply := IsReply(Read(e, original))), e.kind, clock, Read(e, original))
              && (d.isReply <==> !IsRepost(e, original) && IsReply(e.tags))
              && (d.isRootReply <==> RepliesToRoot(if IsRepost(e, original) then original.value else e.tags))
  {
    hide Shown, RepliesToRoot, IsReply;
    NothingShown(e.kind, clock);
    var own := FromTags(e.kind, e.tags, NO_COLUMNS, clock, []);
    assert [] + e.tags == e.tags && e.tags + [] == e.tags;
    if own.None? {
      return None;
    }
    ReplyShown(own.value, e.kind, clock, e.tags);
    r := own;
    if (e.kind == KIND_REPOST || e.kind == KIND_GENERIC_REPOST) && original.Some? {
      r := FromTags(e.kind, original.value, own.value, clock, e.tags);
      ReplyShown(r.value, e.kind, clock, e.tags + original.value);
      r := Some(r.value.(isReply := false));
    }
  }

  lemma NothingShown(kind: int, clock: Clock)
    ensures Shown(NO_COLUMNS, kind, clock, [])
  {
  }

  lemma ReplyShown(d: Columns, kind: int, clock: Clock, tags: seq<Tag>)
    requires Shown(d, kind, clock, tags)
    ensures d.isReply <==> IsReply(tags)
    ensures forall root :: Shown(d.(isRootReply := root), kind, clock, tags)
  {
  }

  // ---- What the functions mean

  /** The receiver is named by the last `p` tag that names anybody. */
  lemma {:induction false} LastTargetMeans(tags: seq<Tag>, r: string)
    ensures LastTarget(tags) == Some(r) <==>
              exists i :: 0 <= i < |tags| && Target(tags[i]) == r != "" && forall j :: i < j < |tags| ==> Target(tags[j]) == ""
    ensures LastTarget(tags) == None <==> forall i :: 0 <= i < |tags| ==> Target(tags[i]) == ""
  {
    hide Target;
    if tags != [] {
      var init, last := tags[..|tags| - 1], tags[|tags| - 1];
      LastTargetMeans(init, r);
      if Target(last) == "" {
        if i :| 0 <= i < |init| && Target(init[i]) == r != "" && forall j :: i < j < |init| ==> Target(init[j]) == "" {
          assert tags[i] == init[i];
        }
        assert forall i :: 0 <= i < |init| ==> tags[i] == init[i];
      } else {
        assert tags[|tags| - 1] == last;
      }
    }
  }

  /** The expiration is the earliest positive one. */
  lemma {:induction false} EarliestMeans(clock: Clock, tags: seq<Tag>, v: int)
    ensures Earliest(clock, tags) == Some(v) <==>
              && (exists t :: t in tags && Deadline(clock, t) == Some(v))
              && (forall t :: t in tags && Deadline(clock, t).Some? ==> v <= Deadline(clock, t).value)
    ensures Earliest(clock, tags) == None <==> forall t :: t in tags ==> Deadline(clock, t) == None
  {
    hide Deadline;
    if tags != [] {
      var init, last := tags[..|tags| - 1], tags[|tags| - 1];
      assert tags == init + [last];
      EarliestMeans(clock, init, v);
      if Deadline(clock, last).Some? {
        EarliestMeans(clock, init, Deadline(clock, last).value);
      }
      if Earliest(clock, init).Some? {
        EarliestMeans(clock, init, Earliest(clock, init).value);
      }
      assert forall t :: t in tags <==> t in init || t == last;
    }
  }
}
