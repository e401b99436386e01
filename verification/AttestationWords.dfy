/** Attestation tags in their own words: which lists of tags are in order, and what they grant, said of the texts alone. */
module AttestationWords {
  import opened Optional
  import opened Nostr
  import opened Strconv
  import opened Text
  import opened AttestationString

  /** The tag attests to the device. */
  predicate Names(tag: Tag, device: string) {
    |tag| >= 4 && tag[0] == "p" && tag[1] == device
  }

  /** What it says, if it can be read: `<word>:<time>[:<kind>,...]` in its fourth field. */
  function Said(tag: Tag): Option<Attestation> {
    if |tag| < 4 then None else ParseAttestationString(tag[3])
  }

  predicate Says(tag: Tag, device: string, word: string) {
    Names(tag, device) && Said(tag).Some? && Said(tag).value.action == word
  }

  /** One attestation of a device may come after another: it ends, renews or revokes it, and no earlier. */
  predicate MayFollow(a: Attestation, b: Attestation) {
    && (a.action, b.action) in {("active", "inactive"), ("active", "revoked"), ("inactive", "active"), ("inactive", "revoked")}
    && a.ts <= b.ts
  }

  predicate InOrderTag(tag: Tag, owner: string) {
    tag != [] && tag[0] == "p" ==>
      && |tag| >= 4 && tag[1] != "" && tag[1] != owner && Said(tag).Some?
      && Said(tag).value.action in {"active", "inactive", "revoked"}
  }

  /** Every attestation can be read, and each device's follow one another. */
  predicate InOrder(tags: seq<Tag>, owner: string) {
    && (forall i :: 0 <= i < |tags| ==> InOrderTag(tags[i], owner))
    && forall i, j :: 0 <= i < j < |tags| && Next(tags, i, j) ==> MayFollow(Said(tags[i]).value, Said(tags[j]).value)
  }

  /** Two attestations of one device, with none of it between. */
  predicate Next(tags: seq<Tag>, i: int, j: int) {
    && 0 <= i < j < |tags| && |tags[i]| >= 4 && Names(tags[i], tags[i][1]) && Names(tags[j], tags[i][1])
    && Said(tags[i]).Some? && Said(tags[j]).Some?
    && forall k :: i < k < j ==> !(Names(tags[k], tags[i][1]) && Said(tags[k]).Some?)
  }

  predicate LastActivation(tags: seq<Tag>, device: string, i: int) {
    0 <= i < |tags| && Says(tags[i], device, "active") && forall j :: i < j < |tags| ==> !Says(tags[j], device, "active")
  }

  /** The device's last "active" has begun and permits the kind, no "inactive" after it is over, and no "revoked" after
      it has come. Attestations themselves are never granted. */
  predicate Grants(tags: seq<Tag>, device: string, kind: int, now: int) {
    && kind != 10100
    && exists i :: 0 <= i < |tags| && GrantsFrom(tags, device, kind, now, i)
  }

  predicate GrantsFrom(tags: seq<Tag>, device: string, kind: int, now: int, i: int) {
    && LastActivation(tags, device, i)
    && Said(tags[i]).value.ts <= now
    && (kind < 0 || Said(tags[i]).value.kinds == [] || kind in Said(tags[i]).value.kinds)
    && (forall j :: i < j < |tags| && Says(tags[j], device, "inactive") ==> now <= Said(tags[j]).value.ts)
    && (forall j :: i < j < |tags| && Says(tags[j], device, "revoked") ==> now < Said(tags[j]).value.ts)
  }

  // ---- Tags as a client writes them

  predicate AllFit(t: int, kinds: seq<int>) {
    Fits(t) && forall i :: 0 <= i < |kinds| ==> Fits(kinds[i])
  }

  /** A tag as a client writes it. */
  function Write(device: string, word: string, t: int, kinds: seq<int>): Tag {
    ["p", device, "", Render(Attestation(word, t, kinds))]
  }

  lemma WrittenIsSaid(device: string, word: string, t: int, kinds: seq<int>)
    requires Free(word, ':') && AllFit(t, kinds)
    ensures Names(Write(device, word, t, kinds), device)
    ensures Said(Write(device, word, t, kinds)) == Some(Attestation(word, t, kinds))
  {
    hide ParseAttestationString, Render, Free;
    assert forall i :: 0 <= i < |kinds| ==> Fits(kinds[i]);
    ParseRender(Attestation(word, t, kinds));
  }

  lemma Words()
    ensures Free("active", ':') && Free("inactive", ':') && Free("revoked", ':')
  {
  }

  predicate Opens(a: Attestation, kind: int, now: int) {
    a.ts <= now && kind != 10100 && (kind < 0 || a.kinds == [] || kind in a.kinds)
  }

  lemma OneTag(a: Tag, device: string, owner: string, kind: int, now: int)
    requires Says(a, device, "active") && device != "" && device != owner
    ensures InOrder([a], owner)
    ensures Grants([a], device, kind, now) <==> Opens(Said(a).value, kind, now)
  {
    hide Said;
    var tags := [a];
    assert tags[0] == a;
    if Opens(Said(a).value, kind, now) {
      assert GrantsFrom(tags, device, kind, now, 0);
    }
  }

  lemma TwoTags(a: Tag, b: Tag, word: string, device: string, owner: string, kind: int, now: int)
    requires Says(a, device, "active") && Says(b, device, word) && word in {"inactive", "revoked"}
    requires device != "" && device != owner && Said(a).value.ts <= Said(b).value.ts
    ensures InOrder([a, b], owner)
    ensures Grants([a, b], device, kind, now) <==>
              Opens(Said(a).value, kind, now) && if word == "inactive" then now <= Said(b).value.ts else now < Said(b).value.ts
  {
    hide Said;
    var tags := [a, b];
    assert tags[0] == a && tags[1] == b;
    TwoInOrder(a, b, word, device, owner);
    if Opens(Said(a).value, kind, now) && if word == "inactive" then now <= Said(b).value.ts else now < Said(b).value.ts {
      assert GrantsFrom(tags, device, kind, now, 0);
    }
    if i :| 0 <= i < |tags| && GrantsFrom(tags, device, kind, now, i) {
      assert i == 0;
    }
  }

  lemma TwoInOrder(a: Tag, b: Tag, word: string, device: string, owner: string)
    requires Says(a, device, "active") && Says(b, device, word) && word in {"inactive", "revoked"}
    requires device != "" && device != owner && Said(a).value.ts <= Said(b).value.ts
    ensures InOrder([a, b], owner)
  {
    hide Said;
    var tags := [a, b];
    assert tags[0] == a && tags[1] == b;
    assert MayFollow(Said(a).value, Said(b).value);
  }

  /** One activation: the kinds it permits, from its time on. */
  lemma ActiveGrants(device: string, owner: string, t: int, kinds: seq<int>, kind: int, now: int)
    requires device != "" && device != owner && AllFit(t, kinds)
    ensures var tags := [["p", device, "", Render(Attestation("active", t, kinds))]];
            && InOrder(tags, owner)
            && (Grants(tags, device, kind, now) <==>
                  t <= now && kind != 10100 && (kind < 0 || kinds == [] || kind in kinds))
  {
    hide Said, Render, InOrder, Grants, Free;
    Words();
    WrittenIsSaid(device, "active", t, kinds);
    OneTag(Write(device, "active", t, kinds), device, owner, kind, now);
  }

  /** A later "inactive" ends it after its time. */
  lemma InactiveEnds(device: string, owner: string, t: int, kinds: seq<int>, u: int, kind: int, now: int)
    requires device != "" && device != owner && AllFit(t, kinds) && Fits(u) && t <= u
    ensures var tags := [["p", device, "", Render(Attestation("active", t, kinds))],
                         ["p", device, "", Render(Attestation("inactive", u, []))]];
            && InOrder(tags, owner)
            && (Grants(tags, device, kind, now) <==>
                  t <= now <= u && kind != 10100 && (kind < 0 || kinds == [] || kind in kinds))
  {
    hide Said, Render, InOrder, Grants, Free;
    Words();
    WrittenIsSaid(device, "active", t, kinds);
    WrittenIsSaid(device, "inactive", u, []);
    TwoTags(Write(device, "active", t, kinds), Write(device, "inactive", u, []), "inactive", device, owner, kind, now);
  }

  /** A later "revoked" ends it from its time on. */
  lemma RevokedEnds(device: string, owner: string, t: int, kinds: seq<int>, u: int, kind: int, now: int)
    requires device != "" && device != owner && AllFit(t, kinds) && Fits(u) && t <= u
    ensures var tags := [["p", device, "", Render(Attestation("active", t, kinds))],
                         ["p", device, "", Render(Attestation("revoked", u, []))]];
            && InOrder(tags, owner)
            && (Grants(tags, device, kind, now) <==>
                  t <= now < u && kind != 10100 && (kind < 0 || kinds == [] || kind in kinds))
  {
    hide Said, Render, InOrder, Grants, Free;
    Words();
    WrittenIsSaid(device, "active", t, kinds);
    WrittenIsSaid(device, "revoked", u, []);
    TwoTags(Write(device, "active", t, kinds), Write(device, "revoked", u, []), "revoked", device, owner, kind, now);
  }

  /** The text of an attestation, and of its kinds. */
  lemma TextIs(word: string, t: int, kinds: seq<int>)
    ensures Render(Attestation(word, t, [])) == word + ":" + Itoa(t)
    ensures kinds != [] ==> Render(Attestation(word, t, kinds)) == word + ":" + Itoa(t) + ":" + Join(RenderKinds(kinds), ',')
  {
    hide Itoa, RenderKinds, Join;
  }

  lemma KindsText(k: int, l: int)
    ensures Join(RenderKinds([k]), ',') == Itoa(k)
    ensures Join(RenderKinds([k, l]), ',') == Itoa(k) + "," + Itoa(l)
  {
    hide Itoa;
    assert [k][..0] == [] && [k, l][..1] == [k];
    assert RenderKinds([k]) == [] + [Itoa(k)] == [Itoa(k)];
    var both := [Itoa(k), Itoa(l)];
    assert RenderKinds([k, l]) == [Itoa(k)] + [Itoa(l)] == both;
    assert both[1..] == [Itoa(l)] && Join([Itoa(l)], ',') == Itoa(l);
  }
}
