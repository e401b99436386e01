/** What the folded community definition says: roles, owner and access flags are last-writer-wins. */
module CommunityRoles {
  import opened Optional
  import opened Nostr
  import opened Seqs
  import opened Community
  import opened LatestPatch

  function IsPerson(v: string): Tag -> bool {
    (t: Tag) => Same(t, "p", v)
  }

  /** The `p` tags of one user, in order. */
  function Persons(tags: seq<Tag>, v: string): seq<Tag> {
    Select(tags, IsPerson(v))
  }

  function HasKey(k: string): Tag -> bool {
    (t: Tag) => Key(t) == k
  }

  function DiffersFrom(tag: Tag): Tag -> bool
    requires Key(tag) == "p" && |tag| >= 4
  {
    (t: Tag) => Differs(t, tag)
  }

  // ---- Removal and selection

  lemma {:induction false} RemoveElsewhere(tags: seq<Tag>, tag: Tag, p: Tag -> bool)
    requires forall t :: Same(t, Key(tag), Value(tag)) ==> !p(t)
    ensures Select(RemoveTag(tags, tag), p) == Select(tags, p)
  {
    if tags != [] {
      RemoveElsewhere(tags[1..], tag, p);
      if !Same(tags[0], Key(tag), Value(tag)) {
        assert ([tags[0]] + RemoveTag(tags[1..], tag))[1..] == RemoveTag(tags[1..], tag);
      }
    }
  }

  lemma {:induction false} RemoveFirstSelected(tags: seq<Tag>, tag: Tag, p: Tag -> bool)
    requires forall t :: Same(t, Key(tag), Value(tag)) <==> p(t)
    ensures Select(RemoveTag(tags, tag), p) == if Select(tags, p) == [] then [] else Select(tags, p)[1..]
  {
    if tags != [] {
      if !p(tags[0]) {
        RemoveFirstSelected(tags[1..], tag, p);
        assert ([tags[0]] + RemoveTag(tags[1..], tag))[1..] == RemoveTag(tags[1..], tag);
      }
    }
  }

  // ---- A user's tags

  function Repeat(tag: Tag, n: nat): seq<Tag> {
    if n == 0 then [] else Repeat(tag, n - 1) + [tag]
  }

  lemma ShiftByOne(own: seq<Tag>, tag: Tag, m: nat)
    requires m < |own|
    ensures var s := own[m..] + Repeat(tag, m); s != [] && s[1..] + [tag] == own[m + 1..] + Repeat(tag, m + 1)
  {
    var s := own[m..] + Repeat(tag, m);
    assert s[1..] == own[m + 1..] + Repeat(tag, m);
    assert Repeat(tag, m + 1) == Repeat(tag, m) + [tag];
  }

  lemma {:induction false} ReplaceEachPersons(tags: seq<Tag>, snapshot: seq<Tag>, tag: Tag)
    requires Key(tag) == "p" && |tag| >= 4
    requires |Select(snapshot, DiffersFrom(tag))| <= |Persons(tags, Value(tag))|
    ensures var m := |Select(snapshot, DiffersFrom(tag))|;
            Persons(ReplaceEach(tags, snapshot, tag), Value(tag)) == Persons(tags, Value(tag))[m..] + Repeat(tag, m)
  {
    hide RemoveTag, Repeat, Select, ReplaceEach;
    var v := Value(tag);
    var own := Persons(tags, v);
    if snapshot == [] {
      NothingReplaced(tags, tag);
      NothingDiffers(tag);
      assert own[0..] + [] == own;
    } else {
      var init, existing := snapshot[..|snapshot| - 1], snapshot[|snapshot| - 1];
      assert snapshot == init + [existing];
      SelectSnoc(init, existing, DiffersFrom(tag));
      ReplaceEachSnoc(tags, init, existing, tag);
      ReplaceEachPersons(tags, init, tag);
      var m, before := |Select(init, DiffersFrom(tag))|, ReplaceEach(tags, init, tag);
      if Differs(existing, tag) {
        RemoveFirstSelected(before, existing, IsPerson(v));
        SelectSnoc(RemoveTag(before, existing), tag, IsPerson(v));
        ShiftByOne(own, tag, m);
      }
    }
  }

  lemma NothingDiffers(tag: Tag)
    requires Key(tag) == "p" && |tag| >= 4
    ensures Select([], DiffersFrom(tag)) == [] && Repeat(tag, 0) == []
  {
  }

  /** Exactly what a patch's `p` tag does to the tags of its user: as many of the first ones as differ
      from it are dropped, and as many copies of it are appended, at least one. */
  lemma PersonStep(tags: seq<Tag>, tag: Tag)
    requires Key(tag) == "p" && |tag| >= 4
    ensures var own := Persons(tags, Value(tag));
            var m := |Select(own, DiffersFrom(tag))|;
            m <= |own| &&
            Persons(ApplyP(tags, tag), Value(tag)) == own[m..] + Repeat(tag, if m == 0 then 1 else m)
  {
    var v := Value(tag);
    var snapshot := Select(tags, StartsWithP());
    SelectTwice(tags, StartsWithP(), DiffersFrom(tag));
    SelectTwice(tags, IsPerson(v), DiffersFrom(tag));
    SelectSize(Persons(tags, v), DiffersFrom(tag));
    SelectMembers(snapshot, DiffersFrom(tag));
    if i :| 0 <= i < |snapshot| && Differs(snapshot[i], tag) {
      assert snapshot[i] in Select(snapshot, DiffersFrom(tag));
      ReplaceEachPersons(tags, snapshot, tag);
    } else {
      SelectNone(snapshot, DiffersFrom(tag));
      SelectSnoc(tags, tag, IsPerson(v));
      assert Repeat(tag, 1) == [tag];
    }
  }

  lemma {:induction false} ReplaceEachElsewhere(tags: seq<Tag>, snapshot: seq<Tag>, tag: Tag, p: Tag -> bool)
    requires Key(tag) == "p" && |tag| >= 4
    requires forall t :: Same(t, "p", Value(tag)) ==> !p(t)
    ensures Select(ReplaceEach(tags, snapshot, tag), p) == Select(tags, p)
  {
    if snapshot != [] {
      var init, existing := snapshot[..|snapshot| - 1], snapshot[|snapshot| - 1];
      var before := ReplaceEach(tags, init, tag);
      ReplaceEachElsewhere(tags, init, tag, p);
      if Differs(existing, tag) {
        RemoveElsewhere(before, existing, p);
        SelectSnoc(RemoveTag(before, existing), tag, p);
      }
    }
  }

  lemma ApplyPElsewhere(tags: seq<Tag>, tag: Tag, p: Tag -> bool)
    requires Key(tag) == "p" && |tag| >= 4
    requires forall t :: Same(t, "p", Value(tag)) ==> !p(t)
    ensures Select(ApplyP(tags, tag), p) == Select(tags, p)
  {
    ReplaceEachElsewhere(tags, Select(tags, StartsWithP()), tag, p);
    SelectSnoc(tags, tag, p);
  }

  lemma FoundHasPrefix(tags: seq<Tag>, former: string)
    ensures var found := GetFirst(tags, [former]); found.Some? ==> former <= Key(found.value)
  {
    var found := GetFirst(tags, [former]);
    assert found.Some? ==> StartsWith(found.value, [former]);
  }

  lemma SwitchElsewhere(tags: seq<Tag>, former: string, tag: Tag, p: Tag -> bool)
    requires !p(tag) && forall t :: p(t) ==> !(former <= Key(t))
    ensures Select(Switch(tags, former, tag), p) == Select(tags, p)
  {
    hide StartsWith;
    FoundHasPrefix(tags, former);
    var found := GetFirst(tags, [former]);
    if found.Some? {
      RemoveElsewhere(tags, found.value, p);
    }
    var rest := if found.Some? then RemoveTag(tags, found.value) else tags;
    SelectSnoc(rest, tag, p);
  }

  const WORDS := {"public", "private", "open", "closed", "name", "description"}

  /** A predicate that no key the fold rewrites can satisfy. */
  ghost predicate Untouched(p: Tag -> bool) {
    && (forall t, w :: w in WORDS && w <= Key(t) ==> !p(t))
    && (forall t :: Key(t) == "h" ==> !p(t))
  }

  lemma FlagTagElsewhere(tags: seq<Tag>, tag: Tag, p: Tag -> bool)
    requires Untouched(p) && FourFields(tag) && Key(tag) in WORDS
    ensures !p(tag) && Select(ApplyTag(tags, tag), p) == Select(tags, p)
  {
    hide Switch;
    var w := Key(tag);
    assert w <= Key(tag);
    assert forall v :: v in WORDS ==> !p([v]) by {
      assert forall v: string :: Key([v]) == v;
    }
    if w == "public" { SwitchElsewhere(tags, "private", ["public"], p); }
    else if w == "private" { SwitchElsewhere(tags, "public", ["private"], p); }
    else if w == "open" { SwitchElsewhere(tags, "closed", ["open"], p); }
    else if w == "closed" { SwitchElsewhere(tags, "open", ["closed"], p); }
    else if w == "name" { SwitchElsewhere(tags, "name", tag, p); }
    else { SwitchElsewhere(tags, "description", tag, p); }
  }

  /** Tags of other keys only accumulate, and a `p` tag leaves everything but its user's tags alone. */
  lemma StepElsewhere(tags: seq<Tag>, tag: Tag, p: Tag -> bool)
    requires Untouched(p) && FourFields(tag)
    requires Key(tag) == "p" ==> forall t :: Same(t, "p", Value(tag)) ==> !p(t)
    ensures Select(ApplyTag(tags, tag), p) == if p(tag) then Select(tags, p) + [tag] else Select(tags, p)
  {
    hide Switch, ApplyP;
    if Key(tag) in WORDS {
      FlagTagElsewhere(tags, tag, p);
    } else if Key(tag) == "p" {
      ApplyPElsewhere(tags, tag, p);
      assert Same(tag, "p", Value(tag));
    } else {
      SelectSnoc(tags, tag, p);
    }
  }

  // ---- Roles

  /** `GetCommunityRoleByPubkey`: the owner, else the role of the user's first `p` tag. */
  function RoleOf(pubkey: string, definition: Event): string {
    if MasterKey(definition) == pubkey then "owner" else FirstRole(Select(definition.tags, StartsWithP()), pubkey)
  }

  function FirstRole(tags: seq<Tag>, pubkey: string): string {
    if tags == [] then ""
    else if Key(tags[0]) == "p" && |tags[0]| > 3 && Value(tags[0]) == pubkey then tags[0][3]
    else FirstRole(tags[1..], pubkey)
  }

  /** The role a user's own tags give. */
  function OwnRole(own: seq<Tag>): string {
    if own == [] || |own[0]| < 4 then "" else own[0][3]
  }

  lemma {:induction false} FirstRoleIsOwn(tags: seq<Tag>, pubkey: string)
    requires AllFourFields(tags)
    ensures FirstRole(tags, pubkey) == OwnRole(Persons(tags, pubkey))
  {
    if tags != [] {
      assert FourFields(tags[0]);
      FirstRoleIsOwn(tags[1..], pubkey);
    }
  }

  lemma RoleIsOwn(pubkey: string, definition: Event)
    requires AllFourFields(definition.tags) && MasterKey(definition) != pubkey
    ensures RoleOf(pubkey, definition) == OwnRole(Persons(definition.tags, pubkey))
  {
    SnapshotFields(definition.tags);
    FirstRoleIsOwn(Select(definition.tags, StartsWithP()), pubkey);
    SelectTwice(definition.tags, StartsWithP(), IsPerson(pubkey));
  }

  /** All of a user's tags give the same role. */
  predicate Agreed(own: seq<Tag>) {
    forall i :: 0 <= i < |own| ==> |own[0]| >= 4 && |own[i]| >= 4 && own[i][3] == own[0][3]
  }

  lemma {:induction false} RepeatAll(tag: Tag, n: nat)
    ensures |Repeat(tag, n)| == n && forall i :: 0 <= i < n ==> Repeat(tag, n)[i] == tag
  {
    if n > 0 {
      RepeatAll(tag, n - 1);
    }
  }

  lemma OwnAreSame(tags: seq<Tag>, v: string)
    ensures forall i :: 0 <= i < |Persons(tags, v)| ==> Same(Persons(tags, v)[i], "p", v)
  {
    SelectMembers(tags, IsPerson(v));
    assert forall i :: 0 <= i < |Persons(tags, v)| ==> Persons(tags, v)[i] in Persons(tags, v);
  }

  /** On agreeing tags a patch wins outright: afterwards every tag of the user has its role. */
  lemma PersonWins(tags: seq<Tag>, tag: Tag)
    requires Key(tag) == "p" && |tag| >= 4 && Agreed(Persons(tags, Value(tag)))
    ensures var after := Persons(ApplyP(tags, tag), Value(tag));
            after != [] && Agreed(after) && after[0][3] == tag[3]
  {
    hide ApplyP, Repeat, Persons;
    var own := Persons(tags, Value(tag));
    PersonStep(tags, tag);
    OwnAreSame(tags, Value(tag));
    var m := |Select(own, DiffersFrom(tag))|;
    RepeatAll(tag, if m == 0 then 1 else m);
    if own != [] && own[0][3] != tag[3] {
      SelectAll(own, DiffersFrom(tag));
    }
  }

  /** Exactly when one patch tag wins over tags that may disagree: when no tag that survives it, counting
      past as many tags as differ from it, says otherwise first. */
  lemma PersonWinsExactly(tags: seq<Tag>, tag: Tag)
    requires Key(tag) == "p" && |tag| >= 4 && AllFourFields(Persons(tags, Value(tag)))
    ensures var own := Persons(tags, Value(tag));
            var m := |Select(own, DiffersFrom(tag))|;
            OwnRole(Persons(ApplyP(tags, tag), Value(tag))) == tag[3] <==>
              m >= |own| || (FourFields(own[m]) && OwnRole(own[m..]) == tag[3])
  {
    hide ApplyP, Repeat, Persons;
    var own := Persons(tags, Value(tag));
    PersonStep(tags, tag);
    var m := |Select(own, DiffersFrom(tag))|;
    RepeatAll(tag, if m == 0 then 1 else m);
  }

  lemma SelectTwo(a: Tag, b: Tag, p: Tag -> bool)
    ensures Select([a, b], p) == (if p(a) then [a] else []) + (if p(b) then [b] else [])
  {
    assert [a, b][1..] == [b] && [b][1..] == [];
    assert Select([b], p) == if p(b) then [b] else [];
  }

  /** Agreement is needed: between two tags with different roles, a patch that repeats the first one
      makes the second one's role win. */
  lemma DisagreementLoses(v: string, relay: string, first: string, second: string)
    requires first != second
    ensures var definition := [["p", v, relay, first], ["p", v, relay, second]];
            var patch := ["p", v, relay, first];
            OwnRole(Persons(ApplyP(definition, patch), v)) == second
  {
    hide ApplyP, Select, Repeat;
    var a, b := ["p", v, relay, first], ["p", v, relay, second];
    SelectTwo(a, b, IsPerson(v));
    SelectTwo(a, b, DiffersFrom(a));
    assert [a] + [b] == [a, b] && [] + [b] == [b];
    assert Persons([a, b], v) == [a, b] && Select([a, b], DiffersFrom(a)) == [b];
    PersonStep([a, b], a);
    assert [a, b][1..] == [b];
  }

  /** The last `p` tag that names a user. */
  function LastNaming(patch: seq<Tag>, v: string): (t: Option<Tag>)
    ensures t.Some? ==> Same(t.value, "p", v) && t.value in patch
    ensures t.None? ==> forall i :: 0 <= i < |patch| ==> !Same(patch[i], "p", v)
  {
    if patch == [] then None
    else if Same(patch[|patch| - 1], "p", v) then Some(patch[|patch| - 1])
    else LastNaming(patch[..|patch| - 1], v)
  }

  lemma {:induction false} LastTagWins(definition: seq<Tag>, patch: seq<Tag>, v: string)
    requires AllFourFields(patch) && Agreed(Persons(definition, v))
    ensures var after := Persons(ApplyTags(definition, patch), v);
            && Agreed(after)
            && OwnRole(after) == match LastNaming(patch, v)
                                 case Some(t) => if |t| >= 4 then t[3] else ""
                                 case None => OwnRole(Persons(definition, v))
  {
    if patch != [] {
      var init, tag := patch[..|patch| - 1], patch[|patch| - 1];
      assert FourFields(tag);
      assert AllFourFields(init);
      var before := ApplyTags(definition, init);
      LastTagWins(definition, init, v);
      if Same(tag, "p", v) {
        PersonWins(before, tag);
      } else {
        PersonUntouched(v);
        StepElsewhere(before, tag, IsPerson(v));
      }
    }
  }

  lemma PersonUntouched(v: string)
    ensures Untouched(IsPerson(v))
  {
    forall t, w | w in WORDS && w <= Key(t)
      ensures !IsPerson(v)(t)
    {
      assert Key(t)[|w| - 1] == w[|w| - 1];
      assert w[0] == Key(t)[0] && |w| > 1;
    }
  }

  // ---- The latest patch

  predicate Names(patch: Event, v: string) {
    exists i :: 0 <= i < |patch.tags| && Same(patch.tags[i], "p", v)
  }

  function NamesUser(v: string): Event -> bool {
    (e: Event) => Names(e, v)
  }

  /** The latest patch that names the user. */
  predicate IsLatest(patches: seq<Event>, v: string, i: int) {
    IsLatestOf(patches, NamesUser(v), i)
  }

  function LastNamer(patches: seq<Event>, v: string): Option<Event> {
    LastOf(patches, NamesUser(v))
  }

  /** In time order, stable on ties, the last patch that names a user is the latest one. */
  lemma LastInOrderIsLatest(patches: seq<Event>, v: string)
    ensures InTimeOrder(TimeOrder(patches))
    ensures LastNamer(TimeOrder(patches), v).None? <==> forall i :: 0 <= i < |patches| ==> !Names(patches[i], v)
    ensures LastNamer(TimeOrder(patches), v).Some? ==>
              exists i :: 0 <= i < |patches| && IsLatest(patches, v, i) &&
                          LastNamer(TimeOrder(patches), v) == Some(patches[i])
  {
    hide Names;
    LastOfIsLatest(patches, NamesUser(v));
  }

  lemma {:induction false} LastNamingConcat(a: seq<Tag>, b: seq<Tag>, v: string)
    ensures LastNaming(a + b, v) == if LastNaming(b, v).Some? then LastNaming(b, v) else LastNaming(a, v)
  {
    if b == [] {
      assert a + b == a;
    } else {
      LastNamingConcat(a, b[..|b| - 1], v);
      assert (a + b)[..|a + b| - 1] == a + b[..|b| - 1];
    }
  }

  lemma {:induction false} LastNamingOfAll(patches: seq<Event>, v: string)
    ensures LastNaming(AllTags(patches), v) ==
            match LastNamer(patches, v)
            case Some(e) => LastNaming(e.tags, v)
            case None => None
  {
    if patches != [] {
      var init, e := patches[..|patches| - 1], patches[|patches| - 1];
      LastNamingOfAll(init, v);
      LastNamingConcat(AllTags(init), e.tags, v);
      if LastNaming(e.tags, v).Some? {
        var t := LastNaming(e.tags, v).value;
        var i :| 0 <= i < |e.tags| && e.tags[i] == t;
      }
    }
  }

  lemma OnlyOneLatest(patches: seq<Event>, v: string, i: int)
    requires IsLatest(patches, v, i)
    ensures 0 <= i < |patches| && Names(patches[i], v)
    ensures forall k :: IsLatest(patches, v, k) ==> k == i
  {
    hide Names;
    OneLatestOf(patches, NamesUser(v), i);
  }

  /** What a user's own tags say after the fold, read off the patches' tags in time order. */
  lemma OwnRoleAfterFold(definition: seq<Tag>, patches: seq<Event>, v: string)
    requires Sound(patches) && Agreed(Persons(definition, v))
    ensures OwnRole(Persons(Folded(definition, patches), v)) ==
            match LastNamer(TimeOrder(patches), v)
            case Some(e) => (match LastNaming(e.tags, v)
                             case Some(t) => if |t| >= 4 then t[3] else ""
                             case None => OwnRole(Persons(definition, v)))
            case None => OwnRole(Persons(definition, v))
  {
    hide ApplyTags, TimeOrder, AllTags, Persons, LastNamer;
    var sorted := TimeOrder(patches);
    SoundTimeOrder(patches);
    SoundTags(sorted);
    LastTagWins(definition, AllTags(sorted), v);
    LastNamingOfAll(sorted, v);
  }

  lemma RoleAfterFold(definition: Event, patches: seq<Event>, v: string)
    requires Sound(patches) && AllFourFields(definition.tags)
    requires MasterKey(definition.(tags := Folded(definition.tags, patches))) != v
    ensures RoleOf(v, definition.(tags := Folded(definition.tags, patches))) ==
            OwnRole(Persons(Folded(definition.tags, patches), v))
  {
    hide ApplyTags, TimeOrder, AllTags, Persons, RoleOf, MasterKey;
    var sorted := TimeOrder(patches);
    SoundTimeOrder(patches);
    SoundTags(sorted);
    FoldKeepsFields(definition.tags, AllTags(sorted));
    RoleIsOwn(v, definition.(tags := Folded(definition.tags, patches)));
  }

  /** Roles are last-writer-wins: after the fold a user who is not the owner has the role given by the
      latest patch that names them. */
  lemma RoleIsLatest(definition: Event, patches: seq<Event>, v: string, i: int)
    requires Sound(patches) && AllFourFields(definition.tags) && Agreed(Persons(definition.tags, v))
    requires IsLatest(patches, v, i)
    ensures var named, after := LastNaming(patches[i].tags, v), definition.(tags := Folded(definition.tags, patches));
            && named.Some? && |named.value| >= 4
            && (MasterKey(after) != v ==> RoleOf(v, after) == named.value[3])
  {
    hide RoleOf, Folded, MasterKey, Persons, LastNamer;
    if MasterKey(definition.(tags := Folded(definition.tags, patches))) != v {
      RoleAfterFold(definition, patches, v);
    }
    OwnRoleAfterFold(definition.tags, patches, v);
    LastInOrderIsLatest(patches, v);
    OnlyOneLatest(patches, v, i);
    var named := LastNaming(patches[i].tags, v);
    assert named.Some?;
    assert AllFourFields(patches[i].tags) && FourFields(named.value);
  }

  /** A user whom no patch names keeps the definition's role. */
  lemma RoleIfUnnamed(definition: Event, patches: seq<Event>, v: string)
    requires Sound(patches) && AllFourFields(definition.tags) && Agreed(Persons(definition.tags, v))
    requires MasterKey(definition.(tags := Folded(definition.tags, patches))) != v && MasterKey(definition) != v
    requires forall i :: 0 <= i < |patches| ==> !Names(patches[i], v)
    ensures RoleOf(v, definition.(tags := Folded(definition.tags, patches))) == RoleOf(v, definition)
  {
    hide RoleOf, Folded, MasterKey, Persons, LastNamer;
    RoleAfterFold(definition, patches, v);
    OwnRoleAfterFold(definition.tags, patches, v);
    LastInOrderIsLatest(patches, v);
    RoleIsOwn(v, definition);
  }

  lemma {:induction false} FoldKeepsFields(definition: seq<Tag>, patch: seq<Tag>)
    requires AllFourFields(definition) && AllFourFields(patch)
    ensures AllFourFields(ApplyTags(definition, patch))
  {
    hide ApplyTag;
    if patch != [] {
      FoldKeepsFields(definition, patch[..|patch| - 1]);
      ApplyTagKeepsFields(ApplyTags(definition, patch[..|patch| - 1]), patch[|patch| - 1]);
    }
  }

  // ---- The owner

  lemma {:induction false} OthersAccumulate(definition: seq<Tag>, patch: seq<Tag>, p: Tag -> bool)
    requires AllFourFields(patch) && Untouched(p) && forall t :: Key(t) == "p" ==> !p(t)
    ensures Select(ApplyTags(definition, patch), p) == Select(definition, p) + Select(patch, p)
  {
    hide ApplyTag, ApplyTags, Select, Untouched;
    var before := Select(definition, p);
    if patch == [] {
      NothingApplied(definition, p);
      assert before + [] == before;
    } else {
      var init, tag := patch[..|patch| - 1], patch[|patch| - 1];
      assert init + [tag] == patch;
      ApplyTagsSnoc(definition, init, tag);
      OthersAccumulate(definition, init, p);
      StepElsewhere(ApplyTags(definition, init), tag, p);
      SelectSnoc(init, tag, p);
      assert before + Select(init, p) + [tag] == before + (Select(init, p) + [tag]);
    }
  }

  lemma NothingApplied(definition: seq<Tag>, p: Tag -> bool)
    ensures ApplyTags(definition, []) == definition && Select([], p) == []
  {
  }

  lemma ApplyTagsSnoc(definition: seq<Tag>, init: seq<Tag>, tag: Tag)
    requires AllFourFields(init + [tag])
    ensures AllFourFields(init) && FourFields(tag)
    ensures ApplyTags(definition, init + [tag]) == ApplyTag(ApplyTags(definition, init), tag)
  {
    hide ApplyTag;
    var patch := init + [tag];
    assert patch[..|init|] == init && patch[|init|] == tag;
    assert forall i :: 0 <= i < |init| ==> init[i] == patch[i];
  }

  lemma {:induction false} GetTagIsFirst(tags: seq<Tag>, k: string)
    requires k != ""
    ensures GetTag(tags, k) == if Select(tags, HasKey(k)) == [] then [] else Select(tags, HasKey(k))[0]
  {
    if tags != [] {
      GetTagIsFirst(tags[1..], k);
    }
  }

  lemma OwnerTagUntouched()
    ensures Untouched(HasKey("b")) && forall t :: Key(t) == "p" ==> !HasKey("b")(t)
  {
    forall t, w | w in WORDS && w <= Key(t)
      ensures !HasKey("b")(t)
    {
      assert |w| > 1;
    }
  }

  /** The owner's tag after the fold: the definition's own, else the first one any patch brings, in time
      order. So a definition with its own `b` tag keeps its owner. */
  lemma OwnerIsFirst(definition: Event, patches: seq<Event>)
    requires Sound(patches)
    ensures var after := definition.(tags := Folded(definition.tags, patches));
            && GetTag(after.tags, "b") ==
               (if GetTag(definition.tags, "b") != [] then GetTag(definition.tags, "b")
                else GetTag(AllTags(TimeOrder(patches)), "b"))
            && (GetTag(definition.tags, "b") != [] ==> MasterKey(after) == MasterKey(definition))
  {
    hide ApplyTags, TimeOrder, AllTags;
    var pt := AllTags(TimeOrder(patches));
    SoundTimeOrder(patches);
    SoundTags(TimeOrder(patches));
    OwnerTagUntouched();
    OthersAccumulate(definition.tags, pt, HasKey("b"));
    GetTagIsFirst(definition.tags, "b");
    GetTagIsFirst(pt, "b");
    GetTagIsFirst(ApplyTags(definition.tags, pt), "b");
    SelectMembers(definition.tags, HasKey("b"));
    var own := Select(definition.tags, HasKey("b"));
    assert own != [] ==> own[0] in own;
  }
}
