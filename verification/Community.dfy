/** A community's definition folded with its change patches (`applyChangeCommunityPatch` in
    `validation/validation_icip_4000.go`) and the roles read off the result (`model/communities.go`). */
module Community {
  import opened Optional
  import opened Nostr
  import opened Seqs

  // ---- The tag-list operations of go-nostr

  /** All fields but the last are equal, and the last one is a prefix. */
  predicate StartsWith(tag: Tag, prefix: Tag) {
    && |prefix| <= |tag|
    && (prefix != [] ==>
          && prefix[..|prefix| - 1] == tag[..|prefix| - 1]
          && prefix[|prefix| - 1] <= tag[|prefix| - 1])
  }

  function GetFirst(tags: seq<Tag>, prefix: Tag): (found: Option<Tag>)
    ensures found.Some? ==> found.value in tags && StartsWith(found.value, prefix)
    ensures found.None? ==> forall t :: t in tags ==> !StartsWith(t, prefix)
  {
    if tags == [] then None
    else if StartsWith(tags[0], prefix) then Some(tags[0])
    else GetFirst(tags[1..], prefix)
  }

  function AppendUnique(tags: seq<Tag>, tag: Tag): seq<Tag> {
    if GetFirst(tags, tag[..if |tag| < 2 then |tag| else 2]).None? then tags + [tag] else tags
  }

  predicate Same(t: Tag, key: string, value: string) {
    Key(t) == key && Value(t) == value
  }

  /** Drops the first tag with the same key and value. */
  function RemoveTag(tags: seq<Tag>, tag: Tag): seq<Tag> {
    if tags == [] then []
    else if Same(tags[0], Key(tag), Value(tag)) then tags[1..]
    else [tags[0]] + RemoveTag(tags[1..], tag)
  }

  // ---- One patch tag

  /** Replaces the first tag found under `former` by `tag`, unless one like it is there. */
  function Switch(tags: seq<Tag>, former: string, tag: Tag): seq<Tag> {
    var found := GetFirst(tags, [former]);
    AppendUnique(if found.Some? then RemoveTag(tags, found.value) else tags, tag)
  }

  /** A `p` tag of the same user with another relay or role. */
  predicate Differs(existing: Tag, tag: Tag)
    requires Key(tag) == "p" && |tag| >= 4
  {
    && Same(existing, "p", Value(tag)) && |existing| >= 4
    && (existing[2] != tag[2] || existing[3] != tag[3])
  }

  /** Every differing tag of a snapshot pushes out the first tag of the user and appends the new one. */
  function ReplaceEach(tags: seq<Tag>, snapshot: seq<Tag>, tag: Tag): seq<Tag>
    requires Key(tag) == "p" && |tag| >= 4
  {
    if snapshot == [] then tags
    else
      var before, existing := ReplaceEach(tags, snapshot[..|snapshot| - 1], tag), snapshot[|snapshot| - 1];
      if Differs(existing, tag) then RemoveTag(before, existing) + [tag] else before
  }

  function StartsWithP(): Tag -> bool {
    (t: Tag) => StartsWith(t, ["p"])
  }

  function ApplyP(tags: seq<Tag>, tag: Tag): seq<Tag>
    requires Key(tag) == "p" && |tag| >= 4
  {
    var snapshot := Select(tags, StartsWithP());
    if exists i :: 0 <= i < |snapshot| && Differs(snapshot[i], tag) then ReplaceEach(tags, snapshot, tag)
    else tags + [tag]
  }

  function ApplyTag(tags: seq<Tag>, tag: Tag): seq<Tag>
    requires FourFields(tag)
  {
    var key := Key(tag);
    if key == "public" then Switch(tags, "private", ["public"])
    else if key == "private" then Switch(tags, "public", ["private"])
    else if key == "open" then Switch(tags, "closed", ["open"])
    else if key == "closed" then Switch(tags, "open", ["closed"])
    else if key == "name" then Switch(tags, "name", tag)
    else if key == "description" then Switch(tags, "description", tag)
    else if key == "p" then ApplyP(tags, tag)
    else if key != "h" then tags + [tag]
    else tags
  }

  /** The source indexes the relay and role of a patch's `p` tag, and of the tags of the same user, without checking that
      they are there. */
  predicate FourFields(tag: Tag) {
    Key(tag) == "p" ==> |tag| >= 4
  }

  predicate AllFourFields(tags: seq<Tag>) {
    forall i :: 0 <= i < |tags| ==> FourFields(tags[i])
  }

  /** Every tag of these users has four fields. */
  predicate FieldsOf(tags: seq<Tag>, users: set<string>) {
    forall t :: t in tags && Key(t) == "p" && Value(t) in users ==> |t| >= 4
  }

  /** The users that tags name. */
  function Named(tags: seq<Tag>): set<string> {
    set t | t in tags && Key(t) == "p" :: Value(t)
  }

  function NamedByAny(patches: seq<Event>): set<string> {
    set e, v | e in patches && v in Named(e.tags) :: v
  }

  function ApplyTags(tags: seq<Tag>, patch: seq<Tag>): seq<Tag>
    requires AllFourFields(patch)
  {
    if patch == [] then tags else ApplyTag(ApplyTags(tags, patch[..|patch| - 1]), patch[|patch| - 1])
  }

  // ---- Time order

  function Insert(sorted: seq<Event>, e: Event): seq<Event> {
    if sorted == [] || sorted[|sorted| - 1].createdAt <= e.createdAt then sorted + [e]
    else Insert(sorted[..|sorted| - 1], e) + [sorted[|sorted| - 1]]
  }

  /** Oldest first, ties in the given order. */
  function TimeOrder(patches: seq<Event>): seq<Event> {
    if patches == [] then [] else Insert(TimeOrder(patches[..|patches| - 1]), patches[|patches| - 1])
  }

  function AllTags(patches: seq<Event>): seq<Tag> {
    if patches == [] then [] else AllTags(patches[..|patches| - 1]) + patches[|patches| - 1].tags
  }

  predicate Sound(patches: seq<Event>) {
    forall i :: 0 <= i < |patches| ==> AllFourFields(patches[i].tags)
  }

  lemma {:induction false} SoundTags(patches: seq<Event>)
    requires Sound(patches)
    ensures AllFourFields(AllTags(patches))
  {
    if patches != [] {
      SoundTags(patches[..|patches| - 1]);
    }
  }

  lemma {:induction false} InsertMembers(sorted: seq<Event>, e: Event)
    ensures forall x :: x in Insert(sorted, e) <==> x in sorted || x == e
  {
    if sorted != [] && sorted[|sorted| - 1].createdAt > e.createdAt {
      InsertMembers(sorted[..|sorted| - 1], e);
      assert sorted == sorted[..|sorted| - 1] + [sorted[|sorted| - 1]];
    }
  }

  lemma {:induction false} TimeOrderMembers(patches: seq<Event>)
    ensures forall x :: x in TimeOrder(patches) <==> x in patches
  {
    if patches != [] {
      TimeOrderMembers(patches[..|patches| - 1]);
      InsertMembers(TimeOrder(patches[..|patches| - 1]), patches[|patches| - 1]);
      assert patches == patches[..|patches| - 1] + [patches[|patches| - 1]];
    }
  }

  lemma SoundTimeOrder(patches: seq<Event>)
    requires Sound(patches)
    ensures Sound(TimeOrder(patches))
  {
    TimeOrderMembers(patches);
    forall i | 0 <= i < |TimeOrder(patches)|
      ensures AllFourFields(TimeOrder(patches)[i].tags)
    {
      assert TimeOrder(patches)[i] in patches;
    }
  }

  /** What the fold amounts to. */
  function Folded(definition: seq<Tag>, patches: seq<Event>): seq<Tag>
    requires Sound(patches)
  {
    SoundTimeOrder(patches);
    SoundTags(TimeOrder(patches));
    ApplyTags(definition, AllTags(TimeOrder(patches)))
  }

  // ---- The loops of the source

  method SortByTime(patches: seq<Event>) returns (sorted: seq<Event>)
    ensures sorted == TimeOrder(patches)
  {
    sorted := [];
    for i := 0 to |patches|
      invariant sorted == TimeOrder(patches[..i])
    {
      assert patches[..i + 1][..i] == patches[..i];
      sorted := Insert(sorted, patches[i]);
    }
    assert patches[..|patches|] == patches;
  }

  lemma NothingReplaced(tags: seq<Tag>, tag: Tag)
    requires Key(tag) == "p" && |tag| >= 4
    ensures ReplaceEach(tags, [], tag) == tags
  {
  }

  lemma ReplaceEachSnoc(tags: seq<Tag>, init: seq<Tag>, existing: Tag, tag: Tag)
    requires Key(tag) == "p" && |tag| >= 4
    ensures ReplaceEach(tags, init + [existing], tag) ==
            if Differs(existing, tag) then RemoveTag(ReplaceEach(tags, init, tag), existing) + [tag]
            else ReplaceEach(tags, init, tag)
  {
    assert (init + [existing])[..|init|] == init;
  }

  lemma FieldsAt(tags: seq<Tag>, t: Tag, v: string)
    requires FieldsOf(tags, {v}) && t in tags && Same(t, "p", v)
    ensures |t| >= 4
  {
  }

  method ReplaceLoop(tags: seq<Tag>, snapshot: seq<Tag>, tag: Tag) returns (after: seq<Tag>, found: bool)
    requires Key(tag) == "p" && |tag| >= 4 && FieldsOf(snapshot, {Value(tag)})
    ensures after == ReplaceEach(tags, snapshot, tag)
    ensures found <==> exists i :: 0 <= i < |snapshot| && Differs(snapshot[i], tag)
  {
    hide RemoveTag, ReplaceEach, FieldsOf, Differs;
    NothingReplaced(tags, tag);
    after, found := tags, false;
    for i := 0 to |snapshot|
      invariant after == ReplaceEach(tags, snapshot[..i], tag)
      invariant found <==> exists j :: 0 <= j < i && Differs(snapshot[j], tag)
    {
      var existing := snapshot[i];
      assert snapshot[..i + 1] == snapshot[..i] + [existing];
      ReplaceEachSnoc(tags, snapshot[..i], existing, tag);
      DiffersMeans(existing, tag);
      if Key(existing) == "p" && Value(existing) == Value(tag) {
        FieldsAt(snapshot, existing, Value(tag));
        if existing[2] != tag[2] || existing[3] != tag[3] {
          after := RemoveFirst(after, existing);
          after := after + [tag];
          found := true;
        }
      }
    }
    assert snapshot[..|snapshot|] == snapshot;
  }

  lemma DiffersMeans(existing: Tag, tag: Tag)
    requires Key(tag) == "p" && |tag| >= 4
    ensures Differs(existing, tag) <==>
              && Key(existing) == "p" && Value(existing) == Value(tag) && |existing| >= 4
              && (existing[2] != tag[2] || existing[3] != tag[3])
  {
  }

  method ApplyPTag(tags: seq<Tag>, tag: Tag) returns (after: seq<Tag>)
    requires Key(tag) == "p" && |tag| >= 4 && FieldsOf(tags, {Value(tag)})
    ensures after == ApplyP(tags, tag)
  {
    hide ReplaceEach, Differs;
    var snapshot := Select(tags, StartsWithP());
    SelectMembers(tags, StartsWithP());
    var found;
    after, found := ReplaceLoop(tags, snapshot, tag);
    if !found {
      NoneDiffers(tags, snapshot, tag);
      after := after + [tag];
    }
  }

  lemma {:induction false} NoneDiffers(tags: seq<Tag>, snapshot: seq<Tag>, tag: Tag)
    requires Key(tag) == "p" && |tag| >= 4
    requires forall i :: 0 <= i < |snapshot| ==> !Differs(snapshot[i], tag)
    ensures ReplaceEach(tags, snapshot, tag) == tags
  {
    if snapshot != [] {
      NoneDiffers(tags, snapshot[..|snapshot| - 1], tag);
    }
  }

  /** The fold itself; None is the source's nil for "no patches". */
  method ApplyChangeCommunityPatch(patches: seq<Event>, definition: Event) returns (tags: Option<seq<Tag>>)
    requires Sound(patches) && FieldsOf(definition.tags, NamedByAny(patches))
    ensures tags == if patches == [] then None else Some(Folded(definition.tags, patches))
  {
    if |patches| == 0 {
      return None;
    }
    hide FieldsOf, NamedByAny, Named, ApplyTags, AllTags, TimeOrder, AllFourFields, Sound, Folded;
    var sorted := SortByTime(patches);
    SoundTimeOrder(patches);
    TimeOrderMembers(patches);
    FoldedIs(definition.tags, patches);
    forall e | e in sorted
      ensures Named(e.tags) <= NamedByAny(patches)
    {
      PatchNames(patches, e);
    }
    var current := FoldSorted(definition.tags, sorted, NamedByAny(patches));
    return Some(current);
  }

  lemma FoldedIs(definition: seq<Tag>, patches: seq<Event>)
    requires Sound(patches)
    ensures AllFourFields(AllTags(TimeOrder(patches)))
    ensures Folded(definition, patches) == ApplyTags(definition, AllTags(TimeOrder(patches)))
  {
    hide ApplyTags, AllTags, TimeOrder, AllFourFields;
    SoundTimeOrder(patches);
    SoundTags(TimeOrder(patches));
  }

  /** The patches one after the other, each one's tags one after the other. */
  method FoldSorted(definition: seq<Tag>, sorted: seq<Event>, ghost users: set<string>) returns (current: seq<Tag>)
    requires Sound(sorted) && FieldsOf(definition, users) && forall e :: e in sorted ==> Named(e.tags) <= users
    ensures AllFourFields(AllTags(sorted)) && current == ApplyTags(definition, AllTags(sorted))
  {
    hide FieldsOf, Named, ApplyTags, AllTags, AllFourFields;
    current := definition;
    NothingFolded(current);
    for i := 0 to |sorted|
      invariant AllFourFields(AllTags(sorted[..i])) && FieldsOf(current, users)
      invariant current == ApplyTags(definition, AllTags(sorted[..i]))
    {
      assert sorted[..i + 1] == sorted[..i] + [sorted[i]];
      AllTagsSnoc(sorted[..i], sorted[i]);
      current := ApplyPatch(definition, AllTags(sorted[..i]), current, sorted[i].tags, users);
    }
    assert sorted[..|sorted|] == sorted;
  }

  lemma AllTagsSnoc(patches: seq<Event>, patch: Event)
    ensures AllTags(patches + [patch]) == AllTags(patches) + patch.tags
  {
    assert (patches + [patch])[..|patches|] == patches;
  }

  lemma NothingFolded(tags: seq<Tag>)
    ensures AllTags([]) == [] && AllFourFields([]) && ApplyTags(tags, []) == tags
  {
  }

  lemma PatchNames(patches: seq<Event>, patch: Event)
    requires patch in patches
    ensures Named(patch.tags) <= NamedByAny(patches)
  {
    hide Named;
  }

  lemma {:induction false} RemoveConcat(a: seq<Tag>, b: seq<Tag>, tag: Tag)
    requires forall i :: 0 <= i < |a| ==> !Same(a[i], Key(tag), Value(tag))
    ensures RemoveTag(a + b, tag) == a + RemoveTag(b, tag)
  {
    hide Same;
    if a == [] {
      assert a + b == b;
    } else {
      RemoveConcat(a[1..], b, tag);
      assert (a + b)[0] == a[0] && (a + b)[1..] == a[1..] + b;
      assert [a[0]] + (a[1..] + RemoveTag(b, tag)) == a + RemoveTag(b, tag);
    }
  }

  method RemoveFirst(tags: seq<Tag>, tag: Tag) returns (after: seq<Tag>)
    ensures after == RemoveTag(tags, tag)
  {
    for i := 0 to |tags|
      invariant forall j :: 0 <= j < i ==> !Same(tags[j], Key(tag), Value(tag))
    {
      if Key(tags[i]) == Key(tag) && Value(tags[i]) == Value(tag) {
        RemoveConcat(tags[..i], tags[i..], tag);
        assert tags == tags[..i] + tags[i..] && tags[i..][1..] == tags[i + 1..];
        return tags[..i] + tags[i + 1..];
      }
    }
    RemoveConcat(tags, [], tag);
    assert tags + [] == tags;
    return tags;
  }

  method SwitchTo(tags: seq<Tag>, former: string, tag: Tag) returns (after: seq<Tag>)
    ensures after == Switch(tags, former, tag)
  {
    hide RemoveTag, GetFirst;
    after := tags;
    var found := GetFirst(tags, [former]);
    if found.Some? {
      after := RemoveFirst(after, found.value);
    }
    after := AppendUnique(after, tag);
  }

  /** The switch over a patch tag's key. */
  method ApplyOne(tags: seq<Tag>, tag: Tag) returns (after: seq<Tag>)
    requires FourFields(tag) && FieldsOf(tags, Named([tag]))
    ensures after == ApplyTag(tags, tag)
  {
    hide Switch, ApplyP;
    var key := Key(tag);
    if key == "public" {
      after := SwitchTo(tags, "private", ["public"]);
    } else if key == "private" {
      after := SwitchTo(tags, "public", ["private"]);
    } else if key == "open" {
      after := SwitchTo(tags, "closed", ["open"]);
    } else if key == "closed" {
      after := SwitchTo(tags, "open", ["closed"]);
    } else if key == "name" {
      after := SwitchTo(tags, "name", tag);
    } else if key == "description" {
      after := SwitchTo(tags, "description", tag);
    } else if key == "p" {
      assert Value(tag) in Named([tag]) by {
        assert tag in [tag];
      }
      after := ApplyPTag(tags, tag);
    } else if key != "h" {
      after := tags + [tag];
    } else {
      after := tags;
    }
  }

  method ApplyPatch(ghost definition: seq<Tag>, ghost earlier: seq<Tag>, tags: seq<Tag>, patch: seq<Tag>,
                    ghost users: set<string>)
    returns (after: seq<Tag>)
    requires AllFourFields(earlier) && AllFourFields(patch) && FieldsOf(tags, users) && Named(patch) <= users
    requires tags == ApplyTags(definition, earlier)
    ensures AllFourFields(earlier + patch) && FieldsOf(after, users)
    ensures after == ApplyTags(definition, earlier + patch)
  {
    hide ApplyTag, FieldsOf, Named;
    after := tags;
    assert earlier + patch[..0] == earlier;
    for i := 0 to |patch|
      invariant FieldsOf(after, users) && AllFourFields(earlier + patch[..i])
      invariant after == ApplyTags(definition, earlier + patch[..i])
    {
      var tag := patch[i];
      ghost var done := earlier + patch[..i];
      assert (earlier + patch[..i + 1])[..|done|] == done;
      FieldsForTag(after, patch, tag, users);
      after := ApplyOne(after, tag);
    }
    assert earlier + patch[..|patch|] == earlier + patch;
  }

  // ---- What the fold keeps

  lemma {:induction false} RemoveTagMembers(tags: seq<Tag>, tag: Tag)
    ensures forall t :: t in RemoveTag(tags, tag) ==> t in tags
  {
    if tags != [] {
      RemoveTagMembers(tags[1..], tag);
    }
  }

  lemma {:induction false} ReplaceEachMembers(tags: seq<Tag>, snapshot: seq<Tag>, tag: Tag)
    requires Key(tag) == "p" && |tag| >= 4
    ensures forall t :: t in ReplaceEach(tags, snapshot, tag) ==> t in tags || t == tag
  {
    if snapshot != [] {
      var before := ReplaceEach(tags, snapshot[..|snapshot| - 1], tag);
      ReplaceEachMembers(tags, snapshot[..|snapshot| - 1], tag);
      RemoveTagMembers(before, snapshot[|snapshot| - 1]);
    }
  }

  lemma SwitchMembers(tags: seq<Tag>, former: string, tag: Tag)
    ensures forall t :: t in Switch(tags, former, tag) ==> t in tags || t == tag
  {
    hide RemoveTag, StartsWith;
    var found := GetFirst(tags, [former]);
    if found.Some? {
      RemoveTagMembers(tags, found.value);
    }
  }

  lemma ApplyPMembers(tags: seq<Tag>, tag: Tag)
    requires Key(tag) == "p" && |tag| >= 4
    ensures forall t :: t in ApplyP(tags, tag) ==> t in tags || t == tag
  {
    hide ReplaceEach, StartsWith;
    ReplaceEachMembers(tags, Select(tags, StartsWithP()), tag);
  }

  /** What one patch tag leaves: tags that were there, the tag itself and bare flags. */
  lemma OldOrNew(tags: seq<Tag>, tag: Tag)
    requires FourFields(tag)
    ensures forall t :: t in ApplyTag(tags, tag) ==> t in tags || t == tag || t in {["public"], ["private"], ["open"], ["closed"]}
  {
    hide Switch, ApplyP;
    var key := Key(tag);
    if key == "public" { SwitchMembers(tags, "private", ["public"]); }
    else if key == "private" { SwitchMembers(tags, "public", ["private"]); }
    else if key == "open" { SwitchMembers(tags, "closed", ["open"]); }
    else if key == "closed" { SwitchMembers(tags, "open", ["closed"]); }
    else if key in {"name", "description"} { SwitchMembers(tags, key, tag); }
    else if key == "p" { ApplyPMembers(tags, tag); }
  }

  /** What a patch's tag needs of the tags it is applied to, and what it keeps. */
  lemma FieldsForTag(tags: seq<Tag>, patch: seq<Tag>, tag: Tag, users: set<string>)
    requires tag in patch && FourFields(tag) && FieldsOf(tags, users) && Named(patch) <= users
    ensures FieldsOf(tags, Named([tag])) && FieldsOf(ApplyTag(tags, tag), users)
  {
    hide ApplyTag;
    OldOrNew(tags, tag);
    assert forall v :: v in Named([tag]) ==> v in Named(patch);
  }

  lemma SnapshotFields(tags: seq<Tag>)
    requires AllFourFields(tags)
    ensures AllFourFields(Select(tags, StartsWithP()))
  {
    hide StartsWith;
    SelectMembers(tags, StartsWithP());
    var snapshot := Select(tags, StartsWithP());
    forall i | 0 <= i < |snapshot|
      ensures FourFields(snapshot[i])
    {
      assert snapshot[i] in tags;
    }
  }

  lemma ApplyTagKeepsFields(tags: seq<Tag>, tag: Tag)
    requires AllFourFields(tags) && FourFields(tag)
    ensures AllFourFields(ApplyTag(tags, tag))
  {
    hide ApplyTag;
    OldOrNew(tags, tag);
    var after := ApplyTag(tags, tag);
    forall i | 0 <= i < |after|
      ensures FourFields(after[i])
    {
      assert after[i] in after;
    }
  }
}
