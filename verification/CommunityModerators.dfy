/** Moderators' patches (`validation/validation_icip_3000.go`) and the ranks they leave: who owns a community and who
    administers it. */
module CommunityModerators {
  import opened Optional
  import opened Nostr
  import opened Seqs
  import opened Community
  import opened CommunityRoles
  import opened CommunityAccepted
  import T = TagTable

  const OWNER := "owner"

  /** What only admins and the owner may change. */
  predicate IsReserved(k: string) {
    k in {"name", "description", "closed", "open", "public", "private", "imeta"} || "settings" <= k
  }

  /** What a moderator's patch must not do, judged against the definition as it stands: make somebody an admin, name
      somebody with an admin's tag, or change what is reserved. */
  predicate ModeratorMay(patch: Event, current: Event) {
    && (forall t :: t in patch.tags && Key(t) == "p" ==>
          && |t| >= 4 && t[3] != ADMIN
          && forall s :: s in current.tags && Same(s, "p", Value(t)) ==> |s| >= 4 && s[3] != ADMIN)
    && (forall t :: t in patch.tags ==> !IsReserved(Key(t)))
  }

  /** A patch whose author is a moderator and that a moderator may make. */
  predicate ByModerator(patch: Event, current: Event) {
    RoleOf(MasterKey(patch), current) == MODERATOR && ModeratorMay(patch, current)
  }

  // ---- Roles given

  /** The user's role without regard to who owns the community. */
  function GivenRole(tags: seq<Tag>, v: string): string {
    OwnRole(Persons(tags, v))
  }

  /** The latest patch that names the user and its tag, -1 when no patch does; the folded role is that tag's. */
  lemma FoldedRole(rules: map<int, T.Table>, checks: Tag -> bool, definition: Event, patches: seq<Event>, v: string)
    returns (i: int, t: Tag)
    requires Accepted(rules, checks, definition, KIND_DEFINITION) && AllAccepted(rules, checks, patches)
    ensures Sound(patches)
    ensures if i < 0 then NoneNames(patches, v) && GivenRole(Folded(definition.tags, patches), v) == GivenRole(definition.tags, v)
            else && IsLatest(patches, v, i) && t in patches[i].tags && Same(t, "p", v) && |t| >= 4
                 && GivenRole(Folded(definition.tags, patches), v) == t[3]
  {
    AcceptedIsSound(rules, checks, patches);
    AcceptedFields(rules, checks, definition, KIND_DEFINITION);
    UniqueIsAgreed(definition.tags, v);
    hide Accepted, AllAccepted, Folded, T.UniqueP, Persons, LastNamer, OwnRole, Names, IsLatest;
    OwnRoleAfterFold(definition.tags, patches, v);
    LastInOrderIsLatest(patches, v);
    if LastNamer(TimeOrder(patches), v).Some? {
      i :| 0 <= i < |patches| && IsLatest(patches, v, i) && LastNamer(TimeOrder(patches), v) == Some(patches[i]);
      OnlyOneLatest(patches, v, i);
      NamedSomewhere(patches[i], v);
      AcceptedAt(rules, checks, patches, i);
      t := LastNaming(patches[i].tags, v).value;
      FourAt(patches[i].tags, t);
    } else {
      i, t := -1, [];
    }
  }

  predicate NoneNames(patches: seq<Event>, v: string) {
    forall i :: 0 <= i < |patches| ==> !Names(patches[i], v)
  }

  lemma NamedSomewhere(patch: Event, v: string)
    requires Names(patch, v)
    ensures LastNaming(patch.tags, v).Some?
  {
  }

  lemma FourAt(tags: seq<Tag>, t: Tag)
    requires AllFourFields(tags) && t in tags && Key(t) == "p"
    ensures |t| >= 4
  {
    var i :| 0 <= i < |tags| && tags[i] == t;
    assert FourFields(tags[i]);
  }

  lemma AcceptedAt(rules: map<int, T.Table>, checks: Tag -> bool, patches: seq<Event>, i: int)
    requires AllAccepted(rules, checks, patches) && 0 <= i < |patches|
    ensures AllFourFields(patches[i].tags) && T.UniqueP(patches[i].tags)
  {
    AcceptedFields(rules, checks, patches[i], KIND_CHANGE);
  }

  lemma NotAnAdmin(patch: Event, current: Event, t: Tag, v: string)
    requires ModeratorMay(patch, current) && t in patch.tags && Same(t, "p", v)
    ensures t[3] != ADMIN && GivenRole(current.tags, v) != ADMIN
  {
    SelectMembers(current.tags, IsPerson(v));
    var own := Persons(current.tags, v);
    if own != [] {
      assert own[0] in own;
    }
  }

  /** The latest namer among one patch more is the new one or the former one. */
  lemma LatestOfMore(patches: seq<Event>, patch: Event, v: string, i: int)
    requires IsLatest(patches + [patch], v, i)
    ensures i == |patches| ==> Names(patch, v)
    ensures i < |patches| ==> IsLatest(patches, v, i)
  {
    hide Names;
    var more := patches + [patch];
    assert forall j :: 0 <= j < |patches| ==> more[j] == patches[j];
  }

  lemma NoneOfMore(patches: seq<Event>, patch: Event, v: string, i: int)
    requires NoneNames(patches + [patch], v)
    ensures !IsLatest(patches, v, i)
  {
    hide Names;
    assert 0 <= i < |patches| ==> (patches + [patch])[i] == patches[i];
  }

  lemma AcceptedMore(rules: map<int, T.Table>, checks: Tag -> bool, patches: seq<Event>, patch: Event)
    requires AllAccepted(rules, checks, patches) && Accepted(rules, checks, patch, KIND_CHANGE)
    ensures AllAccepted(rules, checks, patches + [patch])
  {
    hide Accepted;
  }

  /** A patch that a moderator may make, whatever its time, gives nobody the role of an admin and takes it from none. */
  lemma PatchKeepsGivenAdmins(rules: map<int, T.Table>, checks: Tag -> bool, definition: Event, patches: seq<Event>,
                              patch: Event, v: string)
    requires Accepted(rules, checks, definition, KIND_DEFINITION) && AllAccepted(rules, checks, patches)
    requires Accepted(rules, checks, patch, KIND_CHANGE)
    requires Sound(patches) && ModeratorMay(patch, After(definition, patches))
    ensures AllAccepted(rules, checks, patches + [patch]) && Sound(patches + [patch])
    ensures GivenRole(Folded(definition.tags, patches + [patch]), v) == ADMIN <==>
              GivenRole(Folded(definition.tags, patches), v) == ADMIN
  {
    hide Accepted, AllAccepted, Folded, GivenRole, ModeratorMay, IsLatest, NoneNames, T.UniqueP, Sound;
    AcceptedMore(rules, checks, patches, patch);
    var i, t := FoldedRole(rules, checks, definition, patches, v);
    var j, u := FoldedRole(rules, checks, definition, patches + [patch], v);
    if j < 0 {
      NoneOfMore(patches, patch, v, i);
    } else {
      LatestOfMore(patches, patch, v, j);
      LatestIndex(patches + [patch], v, j);
      if j == |patches| {
        NotAnAdmin(patch, After(definition, patches), u, v);
      } else {
        SameLatest(patches, v, i, j);
        AcceptedAt(rules, checks, patches, j);
        OnlyNaming(patches[j].tags, t, u);
      }
    }
  }

  lemma LatestIndex(patches: seq<Event>, v: string, i: int)
    requires IsLatest(patches, v, i)
    ensures 0 <= i < |patches|
  {
  }

  lemma SameLatest(patches: seq<Event>, v: string, i: int, j: int)
    requires if i < 0 then NoneNames(patches, v) else IsLatest(patches, v, i)
    requires IsLatest(patches, v, j)
    ensures i == j && 0 <= i < |patches|
  {
    hide Names;
  }

  // ---- Runs

  /** A run of patches, each one made by a moderator when its turn comes. */
  ghost predicate ModeratorRun(rules: map<int, T.Table>, checks: Tag -> bool, definition: Event, patches: seq<Event>,
                               run: seq<Event>)
  {
    run == [] ||
    var init, last := run[..|run| - 1], run[|run| - 1];
    && ModeratorRun(rules, checks, definition, patches, init)
    && Accepted(rules, checks, last, KIND_CHANGE)
    && Sound(patches + init) && ByModerator(last, After(definition, patches + init))
  }

  lemma {:induction false} RunKeepsGivenAdmins(rules: map<int, T.Table>, checks: Tag -> bool, definition: Event,
                                               patches: seq<Event>, run: seq<Event>, v: string)
    requires Accepted(rules, checks, definition, KIND_DEFINITION) && AllAccepted(rules, checks, patches)
    requires ModeratorRun(rules, checks, definition, patches, run)
    ensures AllAccepted(rules, checks, patches + run) && Sound(patches + run) && Sound(patches)
    ensures GivenRole(Folded(definition.tags, patches + run), v) == ADMIN <==>
              GivenRole(Folded(definition.tags, patches), v) == ADMIN
  {
    hide Accepted, AllAccepted, Folded, GivenRole, ModeratorMay, Sound, RoleOf;
    if run == [] {
      assert patches + run == patches;
      AcceptedIsSound(rules, checks, patches);
    } else {
      var init, last := run[..|run| - 1], run[|run| - 1];
      RunKeepsGivenAdmins(rules, checks, definition, patches, init, v);
      PatchKeepsGivenAdmins(rules, checks, definition, patches + init, last, v);
      assert patches + run == patches + init + [last];
    }
  }

  // ---- Ranks

  /** The same owner and the same admins. */
  ghost predicate SameRanks(before: Event, after: Event) {
    forall v :: (RoleOf(v, after) == OWNER <==> RoleOf(v, before) == OWNER) &&
                (RoleOf(v, after) == ADMIN <==> RoleOf(v, before) == ADMIN)
  }

  ghost predicate RanksKept(definition: Event, patches: seq<Event>, run: seq<Event>) {
    Sound(patches) && Sound(patches + run) && SameRanks(After(definition, patches), After(definition, patches + run))
  }

  predicate HasOwnB(definition: Event) {
    GetTag(definition.tags, "b") != []
  }

  lemma GivenRoleIsListed(rules: map<int, T.Table>, checks: Tag -> bool, definition: Event, patches: seq<Event>, v: string)
    requires Accepted(rules, checks, definition, KIND_DEFINITION) && AllAccepted(rules, checks, patches)
    ensures Sound(patches) && GivenRole(Folded(definition.tags, patches), v) in {MODERATOR, ADMIN, REGULAR}
  {
    hide Folded, GivenRole, IsLatest, NoneNames, Sound, T.Accepts;
    var i, t := FoldedRole(rules, checks, definition, patches, v);
    if i < 0 {
      GivenInDefinition(definition.tags, v);
    } else {
      LatestIndex(patches, v, i);
      RoleInTags(patches[i].tags, t);
    }
  }

  lemma GivenInDefinition(tags: seq<Tag>, v: string)
    requires GivesRoles(tags)
    ensures GivenRole(tags, v) in {MODERATOR, ADMIN, REGULAR}
  {
    hide GivesRoles;
    SelectMembers(tags, IsPerson(v));
    var own := Persons(tags, v);
    if own != [] {
      assert own[0] in own;
      RoleInTags(tags, own[0]);
    }
  }

  lemma RoleInTags(tags: seq<Tag>, t: Tag)
    requires GivesRoles(tags) && t in tags && Key(t) == "p"
    ensures |t| >= 4 && t[3] in {MODERATOR, ADMIN, REGULAR}
  {
    var i :| 0 <= i < |tags| && tags[i] == t;
  }

  /** A user's role after the fold: the owner, or the role given. */
  lemma RankAfter(rules: map<int, T.Table>, checks: Tag -> bool, definition: Event, patches: seq<Event>, v: string)
    requires Accepted(rules, checks, definition, KIND_DEFINITION) && AllAccepted(rules, checks, patches)
    ensures Sound(patches)
    ensures var after := After(definition, patches);
            RoleOf(v, after) == if MasterKey(after) == v then OWNER else GivenRole(after.tags, v)
    ensures GivenRole(After(definition, patches).tags, v) in {MODERATOR, ADMIN, REGULAR}
  {
    GivenRoleIsListed(rules, checks, definition, patches, v);
    AcceptedFields(rules, checks, definition, KIND_DEFINITION);
    if MasterKey(After(definition, patches)) != v {
      hide Accepted, AllAccepted, RoleOf, Folded, MasterKey;
      RoleAfterFold(definition, patches, v);
    } else {
      hide Accepted, AllAccepted, Folded, MasterKey;
    }
  }

  /** A run of moderators' patches on a definition with its own `b` tag, whatever their times, leaves the owner and the
      admins as they were. */
  lemma ModeratorsKeepRanks(rules: map<int, T.Table>, checks: Tag -> bool, definition: Event, patches: seq<Event>,
                            run: seq<Event>)
    requires Accepted(rules, checks, definition, KIND_DEFINITION) && AllAccepted(rules, checks, patches)
    requires ModeratorRun(rules, checks, definition, patches, run) && HasOwnB(definition)
    ensures RanksKept(definition, patches, run)
  {
    RunKeepsGivenAdmins(rules, checks, definition, patches, run, "");
    hide Accepted, AllAccepted, ModeratorRun, RoleOf, Folded, Sound, HasOwnB, GivenRole;
    forall v
      ensures RoleOf(v, After(definition, patches + run)) == OWNER <==> RoleOf(v, After(definition, patches)) == OWNER
      ensures RoleOf(v, After(definition, patches + run)) == ADMIN <==> RoleOf(v, After(definition, patches)) == ADMIN
    {
      RankKept(rules, checks, definition, patches, run, v);
    }
  }

  lemma RankKept(rules: map<int, T.Table>, checks: Tag -> bool, definition: Event, patches: seq<Event>, run: seq<Event>,
                 v: string)
    requires Accepted(rules, checks, definition, KIND_DEFINITION) && AllAccepted(rules, checks, patches)
    requires ModeratorRun(rules, checks, definition, patches, run) && HasOwnB(definition)
    ensures Sound(patches) && Sound(patches + run)
    ensures RoleOf(v, After(definition, patches + run)) == OWNER <==> RoleOf(v, After(definition, patches)) == OWNER
    ensures RoleOf(v, After(definition, patches + run)) == ADMIN <==> RoleOf(v, After(definition, patches)) == ADMIN
  {
    hide Accepted, AllAccepted, ModeratorRun, RoleOf, Folded, MasterKey, GivenRole, Sound;
    RunKeepsGivenAdmins(rules, checks, definition, patches, run, v);
    OwnerIsFirst(definition, patches);
    OwnerIsFirst(definition, patches + run);
    RankAfter(rules, checks, definition, patches, v);
    RankAfter(rules, checks, definition, patches + run, v);
  }

  // ---- A definition without a `b` tag takes the first one a patch brings

  /** The checks of single tags let these pass. */
  ghost predicate Admits(checks: Tag -> bool) {
    forall m :: checks(["b", m]) && checks(["p", m, "", MODERATOR])
  }

  function ChangeOf(h: Tag, tag: Tag): Event {
    Event("", "", KIND_CHANGE, 0, [h, tag], "")
  }

  lemma ChangeOfIsAccepted(rules: map<int, T.Table>, checks: Tag -> bool, h: Tag, m: string)
    requires DeclaresCommunity(rules) && Admits(checks) && Key(h) == "h" && checks(h)
    ensures Accepted(rules, checks, ChangeOf(h, ["b", m]), KIND_CHANGE)
    ensures Accepted(rules, checks, ChangeOf(h, ["p", m, "", MODERATOR]), KIND_CHANGE)
  {
    ChangeTable(rules);
    hide DeclaresCommunity;
    var b, p := ["b", m], ["p", m, "", MODERATOR];
    assert checks(b) && checks(p);
    OneTagIsAccepted(rules, checks, h, b);
    OneTagIsAccepted(rules, checks, h, p);
  }

  lemma OneTagIsAccepted(rules: map<int, T.Table>, checks: Tag -> bool, h: Tag, tag: Tag)
    requires KIND_CHANGE in rules && "h" in rules[KIND_CHANGE] && Key(tag) in rules[KIND_CHANGE]
    requires forall k :: k in rules[KIND_CHANGE] ==> rules[KIND_CHANGE][k] == T.Allowed
    requires Key(h) == "h" && checks(h) && checks(tag) && Key(tag) in {"b", "p"}
    requires Key(tag) == "p" ==> |tag| == 4 && tag[3] == MODERATOR
    ensures Accepted(rules, checks, ChangeOf(h, tag), KIND_CHANGE)
  {
    var e := ChangeOf(h, tag);
    assert e.tags[0] == h && e.tags[1] == tag;
    OneFlagNoClash(e.tags);
  }

  /** Some user other than the owner. */
  function SomebodyElse(owner: string): (m: string)
    ensures m != owner && m != ""
  {
    if owner == "m" then "n" else "m"
  }

  /** Without a `b` tag of its own, an accepted definition has accepted patches after which a moderator's patch brings a
      new owner. */
  lemma OwnerIsReplaced(rules: map<int, T.Table>, checks: Tag -> bool, definition: Event)
    returns (patches: seq<Event>, run: seq<Event>)
    requires DeclaresCommunity(rules) && Admits(checks)
    requires Accepted(rules, checks, definition, KIND_DEFINITION) && !HasOwnB(definition)
    ensures AllAccepted(rules, checks, patches) && ModeratorRun(rules, checks, definition, patches, run)
    ensures !RanksKept(definition, patches, run)
  {
    var h := CommunityTag(rules, checks, definition);
    var m := SomebodyElse(definition.pubkey);
    var p, b := ["p", m, "", MODERATOR], ["b", m];
    var promote, bring := ChangeOf(h, p), ChangeOf(h, b);
    ChangeOfIsAccepted(rules, checks, h, m);
    patches, run := [promote], [bring];
    hide Accepted, DeclaresCommunity, Admits, ByModerator, RanksKept, RoleOf, HasOwnB;
    assert AllAccepted(rules, checks, patches) && AllAccepted(rules, checks, patches + run);
    hide AllAccepted;
    OwnerIsPubkey(definition);
    Promoted(rules, checks, definition, h, m);
    BroughtOwner(rules, checks, definition, h, m);
    MayBring(definition, h, m, After(definition, patches));
    RunOfOne(rules, checks, definition, patches, bring);
    RanksDiffer(definition, patches, run, m);
  }

  lemma OwnerIsPubkey(definition: Event)
    requires !HasOwnB(definition)
    ensures MasterKey(definition) == definition.pubkey
  {
  }

  lemma RunOfOne(rules: map<int, T.Table>, checks: Tag -> bool, definition: Event, patches: seq<Event>, patch: Event)
    requires Accepted(rules, checks, patch, KIND_CHANGE) && Sound(patches)
    requires ByModerator(patch, After(definition, patches))
    ensures ModeratorRun(rules, checks, definition, patches, [patch])
  {
    hide Accepted, ByModerator, Folded;
    assert [patch][..0] == [] && patches + [] == patches;
  }

  lemma RanksDiffer(definition: Event, patches: seq<Event>, run: seq<Event>, v: string)
    requires Sound(patches) && Sound(patches + run)
    requires RoleOf(v, After(definition, patches)) != OWNER && RoleOf(v, After(definition, patches + run)) == OWNER
    ensures !RanksKept(definition, patches, run)
  {
    hide RoleOf, Folded;
  }

  lemma MayBring(definition: Event, h: Tag, m: string, current: Event)
    requires Key(h) == "h" && m != "" && RoleOf(m, current) == MODERATOR
    ensures ByModerator(ChangeOf(h, ["b", m]), current)
  {
    hide RoleOf, GetTag, IsReserved;
    var e := ChangeOf(h, ["b", m]);
    SecondTag(h, ["b", m], "b");
    assert MasterKey(e) == m;
    NothingReserved();
  }

  lemma NothingReserved()
    ensures !IsReserved("h") && !IsReserved("b")
  {
  }

  lemma SecondTag(h: Tag, tag: Tag, name: string)
    requires Key(h) == "h" && name != "h"
    ensures GetTag([h, tag], name) == if Key(tag) == name then tag else []
  {
    assert [h, tag][1..] == [tag] && [tag][1..] == [];
    assert GetTag([tag], name) == if Key(tag) == name then tag else [];
  }

  lemma OnePatch(patch: Event)
    ensures TimeOrder([patch]) == [patch] && AllTags([patch]) == patch.tags
  {
    assert [patch][..0] == [];
    assert TimeOrder([]) == [] && AllTags([]) == [];
  }

  lemma TwoPatches(a: Event, b: Event)
    requires a.createdAt == b.createdAt
    ensures TimeOrder([a] + [b]) == [a] + [b] && AllTags([a] + [b]) == a.tags + b.tags
  {
    OnePatch(a);
    assert ([a] + [b])[..1] == [a];
  }

  lemma Promoted(rules: map<int, T.Table>, checks: Tag -> bool, definition: Event, h: Tag, m: string)
    requires Accepted(rules, checks, definition, KIND_DEFINITION) && !HasOwnB(definition) && Key(h) == "h"
    requires AllAccepted(rules, checks, [ChangeOf(h, ["p", m, "", MODERATOR])]) && m != definition.pubkey
    ensures Sound([ChangeOf(h, ["p", m, "", MODERATOR])])
    ensures RoleOf(m, After(definition, [ChangeOf(h, ["p", m, "", MODERATOR])])) == MODERATOR
  {
    hide Accepted, AllAccepted, Folded, RoleOf, GetTag;
    var p := ["p", m, "", MODERATOR];
    var promote := ChangeOf(h, p);
    AcceptedIsSound(rules, checks, [promote]);
    OnePatch(promote);
    SecondTag(h, p, "b");
    OwnerIsFirst(definition, [promote]);
    assert promote.tags[1] == p && Names(promote, m) && IsLatest([promote], m, 0);
    AcceptedRoleIsLatest(rules, checks, definition, [promote], m, 0, p);
  }

  lemma BroughtOwner(rules: map<int, T.Table>, checks: Tag -> bool, definition: Event, h: Tag, m: string)
    requires Accepted(rules, checks, definition, KIND_DEFINITION) && !HasOwnB(definition) && Key(h) == "h" && m != ""
    requires AllAccepted(rules, checks, [ChangeOf(h, ["p", m, "", MODERATOR])] + [ChangeOf(h, ["b", m])])
    ensures Sound([ChangeOf(h, ["p", m, "", MODERATOR])] + [ChangeOf(h, ["b", m])])
    ensures RoleOf(m, After(definition, [ChangeOf(h, ["p", m, "", MODERATOR])] + [ChangeOf(h, ["b", m])])) == OWNER
  {
    hide Accepted, AllAccepted, Folded, GetTag;
    var p, b := ["p", m, "", MODERATOR], ["b", m];
    var patches := [ChangeOf(h, p)] + [ChangeOf(h, b)];
    AcceptedIsSound(rules, checks, patches);
    TwoPatches(ChangeOf(h, p), ChangeOf(h, b));
    assert [h, p] + [h, b] == [h] + ([p] + [h, b]);
    TagBehind([h], [p] + [h, b], "b");
    TagBehind([p], [h, b], "b");
    SecondTag(h, b, "b");
    OwnerIsFirst(definition, patches);
  }

  lemma TagBehind(one: seq<Tag>, rest: seq<Tag>, name: string)
    requires |one| == 1 && Key(one[0]) != name
    ensures GetTag(one + rest, name) == GetTag(rest, name)
  {
    assert (one + rest)[0] == one[0] && (one + rest)[1..] == rest;
  }

  // ---- The smallest such definition

  /** A community of one owner, who is also listed as an admin, and one moderator. */
  function Small(o: string, m: string, id: string): Event {
    Event("", o, KIND_DEFINITION, 0, [["h", id], ["d", id], ["p", o, "", ADMIN], ["p", m, "", MODERATOR]], "")
  }

  lemma SmallPersons(o: string, m: string, id: string, v: string, more: seq<Tag>)
    requires o != m && forall i :: 0 <= i < |more| ==> Key(more[i]) != "p"
    ensures Persons(Small(o, m, id).tags + more, v) ==
            if v == o then [["p", o, "", ADMIN]] else if v == m then [["p", m, "", MODERATOR]] else []
  {
    hide Select;
    var h, d, po, pm := ["h", id], ["d", id], ["p", o, "", ADMIN], ["p", m, "", MODERATOR];
    var p := IsPerson(v);
    SelectNone([h, d], p);
    SelectNone(more, p);
    SelectTwo(po, pm, p);
    SelectConcat([h, d], [po, pm], p);
    SelectConcat([h, d] + [po, pm], more, p);
    assert Small(o, m, id).tags == [h, d] + [po, pm];
    assert [] + ([po] + []) + [] == [po] && [] + ([] + [pm]) + [] == [pm];
  }

  lemma SmallRoles(o: string, m: string, id: string, v: string, more: seq<Tag>, e: Event)
    requires o != m && (forall i :: 0 <= i < |more| ==> Key(more[i]) != "p") && e.tags == Small(o, m, id).tags + more
    requires MasterKey(e) != v
    ensures RoleOf(v, e) == if v == o then ADMIN else if v == m then MODERATOR else REGULAR
  {
    hide MasterKey, RoleOf, Persons;
    var small := Small(o, m, id).tags;
    assert AllFourFields(small);
    forall i | 0 <= i < |e.tags|
      ensures FourFields(e.tags[i])
    {
      assert e.tags[i] == if i < |small| then small[i] else more[i - |small|];
    }
    RoleIsOwn(v, e);
    SmallPersons(o, m, id, v, more);
  }

  lemma SmallHasNoB(o: string, m: string, id: string, more: seq<Tag>)
    ensures GetTag(Small(o, m, id).tags + more, "b") == GetTag(more, "b")
  {
    hide GetTag;
    var h, d, po, pm := ["h", id], ["d", id], ["p", o, "", ADMIN], ["p", m, "", MODERATOR];
    TagBehind([h], [d] + ([po] + ([pm] + more)), "b");
    TagBehind([d], [po] + ([pm] + more), "b");
    TagBehind([po], [pm] + more, "b");
    TagBehind([pm], more, "b");
    assert Small(o, m, id).tags + more == [h] + ([d] + ([po] + ([pm] + more)));
  }

  lemma OnlyB(m: string)
    ensures GetTag([], "b") == [] && GetTag([["b", m]], "b") == ["b", m]
  {
  }

  lemma BringFolds(tags: seq<Tag>, h: Tag, m: string)
    requires Key(h) == "h"
    ensures Sound([ChangeOf(h, ["b", m])]) && Folded(tags, [ChangeOf(h, ["b", m])]) == tags + [["b", m]]
  {
    var e, b := ChangeOf(h, ["b", m]), ["b", m];
    OnePatch(e);
    hide Switch, TimeOrder, AllTags;
    assert e.tags[..1] == [h] && [h][..0] == [];
    assert ApplyTags(tags, [h]) == ApplyTag(tags, h) == tags;
    assert ApplyTags(tags, e.tags) == ApplyTag(tags, b);
  }

  /** Tags that pass the checks on roles, flags, users and `b` tags. */
  predicate PassesChecks(tags: seq<Tag>) {
    GivesRoles(tags) && NoClash(tags) && T.UniqueP(tags) && T.OneB(tags)
  }

  lemma SmallPasses(o: string, m: string, id: string)
    requires o != m
    ensures PassesChecks(Small(o, m, id).tags) && PassesChecks(ChangeOf(["h", id], ["b", m]).tags)
  {
    OneFlagNoClash(ChangeOf(["h", id], ["b", m]).tags);
  }

  /** The owner signs with the master key and no `b` tag; the moderator's patch, made by a device on the moderator's
      behalf, carries one. Folded in, it makes the moderator the owner, and the owner an admin. */
  lemma BringsOwner(o: string, m: string, id: string)
    requires o != m && m != ""
    ensures var definition, patch := Small(o, m, id), ChangeOf(["h", id], ["b", m]);
            && PassesChecks(definition.tags) && PassesChecks(patch.tags) && ByModerator(patch, definition)
            && RoleOf(o, definition) == OWNER && RoleOf(m, definition) == MODERATOR && Sound([patch])
            && RoleOf(m, After(definition, [patch])) == OWNER && RoleOf(o, After(definition, [patch])) == ADMIN
  {
    var definition, h := Small(o, m, id), ["h", id];
    var patch := ChangeOf(h, ["b", m]);
    SmallPasses(o, m, id);
    hide GetTag, Folded, ByModerator, PassesChecks, ChangeOf, FirstRole, Select;
    OnlyB(m);
    SmallHasNoB(o, m, id, []);
    SmallHasNoB(o, m, id, [["b", m]]);
    BringFolds(definition.tags, h, m);
    assert definition.tags + [] == definition.tags;
    assert MasterKey(definition) == o && MasterKey(After(definition, [patch])) == m;
    SmallRoles(o, m, id, m, [], definition);
    SmallRoles(o, m, id, o, [["b", m]], After(definition, [patch]));
    MayBring(definition, h, m, definition);
  }

  /** Exactly when moderators cannot change who owns and who administers a community, whatever patches came before: when
      the definition carries its own `b` tag. A `b` tag that only a patch brought is not enough, as an earlier patch can
      come before it. */
  lemma RanksExactly(rules: map<int, T.Table>, checks: Tag -> bool, definition: Event)
    requires DeclaresCommunity(rules) && Admits(checks) && Accepted(rules, checks, definition, KIND_DEFINITION)
    ensures (forall patches, run :: AllAccepted(rules, checks, patches) &&
                                    ModeratorRun(rules, checks, definition, patches, run) ==>
                                    RanksKept(definition, patches, run)) <==> HasOwnB(definition)
  {
    hide DeclaresCommunity, Admits, Accepted, AllAccepted, ModeratorRun, RanksKept;
    if HasOwnB(definition) {
      forall patches, run | AllAccepted(rules, checks, patches) && ModeratorRun(rules, checks, definition, patches, run)
        ensures RanksKept(definition, patches, run)
      {
        ModeratorsKeepRanks(rules, checks, definition, patches, run);
      }
    } else {
      var patches, run := OwnerIsReplaced(rules, checks, definition);
    }
  }
}
