/** Tag validation by a per-kind table (`validation/validate.go`): what a table demands of an event's tags, the
    counting validator proved to decide it, and the builder that declares tables. */
module TagTable {
  import opened Nostr

  datatype Rule =
    | Allowed | Required | RequiredWith(others: seq<string>) | Forbidden
    | OneOf(group: seq<string>) | OneOfSingle(group: seq<string>)

  type Table = map<string, Rule>

  const COMMON_TAGS := ["t", "l", "L", "nonce", "imeta", "expiration", "b", "settings", "encrypted"]

  /** Kinds that may name the same user in several `p` tags. */
  const REPEATS_P: set<int> := {KIND_ATTESTATION}

  // ---- What a table demands

  predicate Has(tags: seq<Tag>, k: string) {
    exists i :: 0 <= i < |tags| && Key(tags[i]) == k
  }

  function Count(tags: seq<Tag>, k: string): (n: nat)
    ensures n > 0 <==> Has(tags, k)
  {
    if tags == [] then 0
    else
      var init, last := tags[..|tags| - 1], tags[|tags| - 1];
      assert Has(init, k) ==> Has(tags, k) by {
        if i :| 0 <= i < |init| && Key(init[i]) == k {
          assert Key(tags[i]) == k;
        }
      }
      Count(init, k) + if Key(last) == k then 1 else 0
  }

  /** A tag the table lists and does not forbid; events of unknown kinds may carry any tag, and addressable ones a
      `d` tag. */
  predicate MayCarry(e: Event, known: bool, table: Table, tag: Tag) {
    if Key(tag) in table then table[Key(tag)] != Forbidden
    else known ==> Key(tag) == "d" && IsAddressable(e.kind)
  }

  /** Exactly one tag name of the group is used. */
  predicate ExactlyOne(tags: seq<Tag>, group: seq<string>) {
    exists k :: k in group && Has(tags, k) && forall l :: l in group && Has(tags, l) ==> l == k
  }

  predicate Satisfies(tags: seq<Tag>, name: string, rule: Rule) {
    match rule
    case Allowed => true
    case Forbidden => true
    case Required => Has(tags, name)
    case RequiredWith(others) => Has(tags, name) ==> forall k :: k in others ==> Has(tags, k)
    case OneOf(group) => ExactlyOne(tags, group)
    case OneOfSingle(group) => ExactlyOne(tags, group) && forall k :: k in group ==> Count(tags, k) <= 1
  }

  /** No `b` tag follows one that has a value. */
  predicate OneB(tags: seq<Tag>) {
    forall i, j :: 0 <= i < j < |tags| && Key(tags[i]) == "b" && Key(tags[j]) == "b" ==> Value(tags[i]) == ""
  }

  predicate UniqueP(tags: seq<Tag>) {
    forall i, j :: 0 <= i < j < |tags| && Key(tags[i]) == "p" && Key(tags[j]) == "p" ==> Value(tags[i]) != Value(tags[j])
  }

  function TableOf(rules: map<int, Table>, kind: int): Table {
    if kind in rules then rules[kind] else map[]
  }

  /** `checks` stands for the checks of single tags. */
  predicate Accepts(rules: map<int, Table>, e: Event, checks: Tag -> bool) {
    var table := TableOf(rules, e.kind);
    && (forall i :: 0 <= i < |e.tags| ==> MayCarry(e, e.kind in rules, table, e.tags[i]) && checks(e.tags[i]))
    && OneB(e.tags)
    && (e.kind in REPEATS_P || UniqueP(e.tags))
    && (forall k :: k in table ==> Satisfies(e.tags, k, table[k]))
    && (IsAddressable(e.kind) ==> Value(GetTag(e.tags, "d")) != "")
  }

  // ---- The counting validator

  ghost predicate Counts(current: map<string, nat>, tags: seq<Tag>) {
    && (forall k :: k in current <==> Has(tags, k))
    && (forall k :: k in current ==> current[k] == Count(tags, k))
  }

  lemma CountsSnoc(current: map<string, nat>, tags: seq<Tag>, tag: Tag)
    requires Counts(current, tags)
    ensures Counts(current[Key(tag) := (if Key(tag) in current then current[Key(tag)] else 0) + 1], tags + [tag])
  {
    var more := tags + [tag];
    assert more[..|tags|] == tags && more[|tags|] == tag;
    assert forall k :: Count(more, k) == Count(tags, k) + if Key(tag) == k then 1 else 0;
  }

  /** The values of the `p` tags so far, with how often each was seen. */
  ghost predicate CountsP(seen: map<string, nat>, tags: seq<Tag>) {
    && (forall v :: v in seen <==> HasP(tags, v))
    && (forall v :: v in seen ==> seen[v] > 0)
    && (UniqueP(tags) <==> forall v :: v in seen ==> seen[v] <= 1)
  }

  predicate HasP(tags: seq<Tag>, v: string) {
    exists i :: 0 <= i < |tags| && Key(tags[i]) == "p" && Value(tags[i]) == v
  }

  lemma UniquePSnoc(tags: seq<Tag>, tag: Tag)
    ensures UniqueP(tags + [tag]) <==> UniqueP(tags) && (Key(tag) == "p" ==> !HasP(tags, Value(tag)))
  {
    var more := tags + [tag];
    assert more[|tags|] == tag;
    assert forall i :: 0 <= i < |tags| ==> more[i] == tags[i];
    if UniqueP(more) {
      forall i, j | 0 <= i < j < |tags| && Key(tags[i]) == "p" && Key(tags[j]) == "p"
        ensures Value(tags[i]) != Value(tags[j])
      {
        assert Value(more[i]) != Value(more[j]);
      }
    }
  }

  lemma CountsPSnoc(seen: map<string, nat>, tags: seq<Tag>, tag: Tag)
    requires CountsP(seen, tags)
    ensures Key(tag) != "p" ==> CountsP(seen, tags + [tag])
    ensures Key(tag) == "p" ==>
              CountsP(seen[Value(tag) := (if Value(tag) in seen then seen[Value(tag)] else 0) + 1], tags + [tag])
  {
    hide UniqueP, HasP;
    UniquePSnoc(tags, tag);
    HasPSnoc(tags, tag);
    if Key(tag) == "p" {
      var after := seen[Value(tag) := (if Value(tag) in seen then seen[Value(tag)] else 0) + 1];
      assert after[Value(tag)] <= 1 <==> Value(tag) !in seen;
      assert forall v :: v in seen && v != Value(tag) ==> after[v] == seen[v];
    }
  }

  lemma HasPSnoc(tags: seq<Tag>, tag: Tag)
    ensures forall v :: HasP(tags + [tag], v) <==> HasP(tags, v) || (Key(tag) == "p" && Value(tag) == v)
  {
    hide Key, Value;
    var more := tags + [tag];
    forall v
      ensures HasP(more, v) <==> HasP(tags, v) || (Key(tag) == "p" && Value(tag) == v)
    {
      if HasP(tags, v) {
        var i :| 0 <= i < |tags| && Key(tags[i]) == "p" && Value(tags[i]) == v;
        assert Key(more[i]) == "p" && Value(more[i]) == v;
      }
      assert Key(more[|tags|]) == Key(tag) && Value(more[|tags|]) == Value(tag);
    }
  }

  /** The value of the last `b` tag. */
  function LastB(tags: seq<Tag>): string {
    if tags == [] then ""
    else if Key(tags[|tags| - 1]) == "b" then Value(tags[|tags| - 1])
    else LastB(tags[..|tags| - 1])
  }

  predicate NoB(tags: seq<Tag>) {
    forall i :: 0 <= i < |tags| && Key(tags[i]) == "b" ==> Value(tags[i]) == ""
  }

  lemma NoBSnoc(tags: seq<Tag>, tag: Tag)
    ensures NoB(tags + [tag]) <==> NoB(tags) && (Key(tag) == "b" ==> Value(tag) == "")
    ensures OneB(tags + [tag]) <==> OneB(tags) && (Key(tag) == "b" ==> NoB(tags))
  {
    var more := tags + [tag];
    assert more[|tags|] == tag;
    assert forall i :: 0 <= i < |tags| ==> more[i] == tags[i];
    if OneB(more) {
      forall i, j | 0 <= i < j < |tags| && Key(tags[i]) == "b" && Key(tags[j]) == "b"
        ensures Value(tags[i]) == ""
      {
        assert Key(more[i]) == "b" && Key(more[j]) == "b";
      }
      if Key(tag) == "b" {
        forall i | 0 <= i < |tags| && Key(tags[i]) == "b"
          ensures Value(tags[i]) == ""
        {
          assert Key(more[i]) == "b" && Key(more[|tags|]) == "b";
        }
      }
    }
    if NoB(more) {
      forall i | 0 <= i < |tags| && Key(tags[i]) == "b"
        ensures Value(tags[i]) == ""
      {
        assert Key(more[i]) == "b";
      }
    }
  }

  /** While at most one `b` tag has a value, the last one's value tells whether any has. */
  lemma {:induction false} LastBIsAny(tags: seq<Tag>)
    requires OneB(tags)
    ensures LastB(tags) == "" <==> NoB(tags)
  {
    if tags != [] {
      var init, last := tags[..|tags| - 1], tags[|tags| - 1];
      assert init + [last] == tags;
      NoBSnoc(init, last);
      LastBIsAny(init);
    }
  }

  lemma OneBSnoc(tags: seq<Tag>, tag: Tag)
    requires OneB(tags)
    ensures OneB(tags + [tag]) <==> (Key(tag) == "b" ==> LastB(tags) == "")
    ensures LastB(tags + [tag]) == if Key(tag) == "b" then Value(tag) else LastB(tags)
  {
    hide OneB, NoB;
    NoBSnoc(tags, tag);
    LastBIsAny(tags);
    assert (tags + [tag])[..|tags|] == tags;
  }

  lemma OneBPrefix(tags: seq<Tag>, i: nat)
    requires i <= |tags| && OneB(tags)
    ensures OneB(tags[..i])
  {
  }

  /** What the loop over the tags has established once it is through the first `i` of them. */
  ghost predicate Scanned(e: Event, known: bool, table: Table, checks: Tag -> bool, i: nat)
    requires i <= |e.tags|
  {
    && (forall j :: 0 <= j < i ==> MayCarry(e, known, table, e.tags[j]) && checks(e.tags[j]))
    && OneB(e.tags[..i])
  }

  /** One tag: whether it is acceptable after the ones before it. */
  method ScanTag(e: Event, known: bool, table: Table, checks: Tag -> bool, i: nat, bTag: string)
    returns (ok: bool, nextB: string)
    requires i < |e.tags| && Scanned(e, known, table, checks, i) && bTag == LastB(e.tags[..i])
    ensures ok <==> Scanned(e, known, table, checks, i + 1)
    ensures nextB == LastB(e.tags[..i + 1])
  {
    hide OneB, LastB;
    var tag := e.tags[i];
    assert e.tags[..i + 1] == e.tags[..i] + [tag];
    OneBSnoc(e.tags[..i], tag);
    nextB := if Key(tag) == "b" then Value(tag) else bTag;
    if known && Key(tag) !in table {
      if !(Key(tag) == "d" && IsAddressable(e.kind)) {
        return false, nextB;
      }
    } else if Key(tag) in table && table[Key(tag)] == Forbidden {
      return false, nextB;
    }
    if !checks(tag) || (Key(tag) == "b" && bTag != "") {
      return false, nextB;
    }
    ok := true;
  }

  method CheckRepeats(pTags: map<string, nat>) returns (ok: bool)
    ensures ok <==> forall v :: v in pTags ==> pTags[v] <= 1
  {
    var left := pTags.Keys;
    while left != {}
      invariant left <= pTags.Keys && forall v :: v in pTags && v !in left ==> pTags[v] <= 1
      decreases |left|
    {
      var v :| v in left;
      if pTags[v] > 1 {
        return false;
      }
      left := left - {v};
    }
    return true;
  }

  method AllPresent(current: map<string, nat>, names: seq<string>) returns (ok: bool)
    ensures ok <==> forall k :: k in names ==> k in current
  {
    for i := 0 to |names|
      invariant forall k :: k in names[..i] ==> k in current
    {
      if names[i] !in current {
        return false;
      }
    }
    assert names[..|names|] == names;
    return true;
  }

  method Found(current: map<string, nat>, group: seq<string>) returns (found: set<string>)
    ensures forall k :: k in found <==> k in group && k in current
  {
    found := {};
    for i := 0 to |group|
      invariant forall k :: k in found <==> k in group[..i] && k in current
    {
      if group[i] in current {
        found := found + {group[i]};
      }
    }
    assert group[..|group|] == group;
  }

  lemma OneFound(found: set<string>, tags: seq<Tag>, group: seq<string>)
    requires forall k :: k in found <==> k in group && Has(tags, k)
    ensures |found| == 1 <==> ExactlyOne(tags, group)
  {
    if |found| == 1 {
      var k :| k in found;
      assert |found - {k}| == 0;
      forall l | l in found
        ensures l == k
      {
        assert l !in found - {k};
      }
    }
    if ExactlyOne(tags, group) {
      var k :| k in group && Has(tags, k) && forall l :: l in group && Has(tags, l) ==> l == k;
      assert found == {k};
    }
  }

  method CheckRule(current: map<string, nat>, name: string, rule: Rule, ghost tags: seq<Tag>) returns (ok: bool)
    requires Counts(current, tags)
    ensures ok <==> Satisfies(tags, name, rule)
  {
    hide Has;
    match rule
    case Allowed => return true;
    case Forbidden => return true;
    case Required => return name in current;
    case RequiredWith(others) =>
      if name !in current {
        return true;
      }
      ok := AllPresent(current, others);
    case OneOf(group) =>
      var found := Found(current, group);
      OneFound(found, tags, group);
      return |found| == 1;
    case OneOfSingle(group) =>
      var found := Found(current, group);
      OneFound(found, tags, group);
      if |found| != 1 {
        return false;
      }
      var k :| k in found;
      OnlyFound(found, k);
      assert forall l :: l in group ==> l == k || Count(tags, l) == 0;
      return current[k] <= 1;
  }

  lemma OnlyFound(found: set<string>, k: string)
    requires |found| == 1 && k in found
    ensures found == {k}
  {
    assert |found - {k}| == 0;
  }

  /** The rules, in whatever order the table is iterated. */
  method CheckRules(current: map<string, nat>, table: Table, ghost tags: seq<Tag>) returns (ok: bool)
    requires Counts(current, tags)
    ensures ok <==> forall k :: k in table ==> Satisfies(tags, k, table[k])
  {
    hide Satisfies, Counts;
    var left := table.Keys;
    while left != {}
      invariant left <= table.Keys && forall k :: k in table && k !in left ==> Satisfies(tags, k, table[k])
      decreases |left|
    {
      var k :| k in left;
      var good := CheckRule(current, k, table[k], tags);
      if !good {
        return false;
      }
      left := left - {k};
    }
    return true;
  }

  /** The validator accepts exactly what the declared table accepts, in one pass over the tags and one over the
      rules, whatever the order of the maps. */
  method ValidateEventTags(rules: map<int, Table>, e: Event, checks: Tag -> bool) returns (ok: bool)
    ensures ok <==> Accepts(rules, e, checks)
  {
    hide OneB, LastB, MayCarry, Satisfies, UniqueP, Counts, CountsP, GetTag, IsAddressable;
    var known, table := e.kind in rules, TableOf(rules, e.kind);
    var current, pTags, bTag := map[], map[], "";
    NothingScanned(e);
    for i := 0 to |e.tags|
      invariant Scanned(e, known, table, checks, i)
      invariant bTag == LastB(e.tags[..i]) && Counts(current, e.tags[..i]) && CountsP(pTags, e.tags[..i])
    {
      var tag := e.tags[i];
      assert e.tags[..i + 1] == e.tags[..i] + [tag];
      var good;
      good, bTag := ScanTag(e, known, table, checks, i, bTag);
      if !good {
        ScannedPrefix(e, known, table, checks, i + 1);
        return false;
      }
      CountsSnoc(current, e.tags[..i], tag);
      CountsPSnoc(pTags, e.tags[..i], tag);
      if Key(tag) == "p" {
        pTags := pTags[Value(tag) := (if Value(tag) in pTags then pTags[Value(tag)] else 0) + 1];
      }
      current := current[Key(tag) := (if Key(tag) in current then current[Key(tag)] else 0) + 1];
    }
    assert e.tags[..|e.tags|] == e.tags;
    ScannedPrefix(e, known, table, checks, |e.tags|);
    UniqueByCounts(pTags, e.tags);
    if e.kind !in REPEATS_P {
      var unique := CheckRepeats(pTags);
      if !unique {
        return false;
      }
    }
    var satisfied := CheckRules(current, table, e.tags);
    if !satisfied {
      return false;
    }
    return !(IsAddressable(e.kind) && Value(GetTag(e.tags, "d")) == "");
  }

  lemma UniqueByCounts(pTags: map<string, nat>, tags: seq<Tag>)
    requires CountsP(pTags, tags)
    ensures UniqueP(tags) <==> forall v :: v in pTags ==> pTags[v] <= 1
  {
  }

  lemma NothingScanned(e: Event)
    ensures e.tags[..0] == [] && OneB([]) && LastB([]) == "" && Counts(map[], []) && CountsP(map[], [])
  {
  }

  lemma ScannedPrefix(e: Event, known: bool, table: Table, checks: Tag -> bool, i: nat)
    requires i <= |e.tags|
    ensures Scanned(e, known, table, checks, |e.tags|) ==> Scanned(e, known, table, checks, i)
    ensures Scanned(e, known, table, checks, |e.tags|) <==>
              (forall j :: 0 <= j < |e.tags| ==> MayCarry(e, known, table, e.tags[j]) && checks(e.tags[j])) && OneB(e.tags)
  {
    hide MayCarry;
    assert e.tags[..|e.tags|] == e.tags;
    if OneB(e.tags) {
      OneBPrefix(e.tags, i);
    }
  }

  // ---- Declaring tables

  /** The table with one rule declared for several names; a later declaration of a name replaces an earlier one. */
  function Declare(table: Table, names: seq<string>, rule: Rule): Table {
    if names == [] then table else Declare(table, names[..|names| - 1], rule)[names[|names| - 1] := rule]
  }

  lemma {:induction false} DeclareMeans(table: Table, names: seq<string>, rule: Rule)
    ensures Declare(table, names, rule).Keys == table.Keys + set k | k in names
    ensures forall k :: k in Declare(table, names, rule) ==>
              Declare(table, names, rule)[k] == if k in names then rule else table[k]
  {
    if names != [] {
      var init, last := names[..|names| - 1], names[|names| - 1];
      assert names == init + [last];
      DeclareMeans(table, init, rule);
    }
  }

  class KindValidatorBuilder {
    var tags: Table

    constructor (common: seq<string>)
      ensures tags == Declare(map[], common, Allowed)
    {
      tags := map[];
      new;
      Put(common, Allowed);
    }

    method Put(names: seq<string>, rule: Rule)
      modifies this
      ensures tags == Declare(old(tags), names, rule)
    {
      for i := 0 to |names|
        invariant tags == Declare(old(tags), names[..i], rule)
      {
        assert names[..i + 1][..i] == names[..i];
        tags := tags[names[i] := rule];
      }
      assert names[..|names|] == names;
    }

    /** A root listed among its own companions ends up merely allowed. */
    method DeclareRequiredWith(root: string, others: seq<string>)
      modifies this
      ensures tags == Declare(Declare(old(tags), [root], RequiredWith(others)), others, Allowed)
      ensures tags.Keys == old(tags).Keys + {root} + set k | k in others
      ensures tags[root] == if root in others then Allowed else RequiredWith(others)
      ensures forall k :: k in others ==> tags[k] == Allowed
      ensures forall k :: k in old(tags) && k != root && k !in others ==> tags[k] == old(tags)[k]
    {
      DeclareMeans(tags, [root], RequiredWith(others));
      DeclareMeans(Declare(tags, [root], RequiredWith(others)), others, Allowed);
      tags := tags[root := RequiredWith(others)];
      assert [root][..0] == [];
      Put(others, Allowed);
    }

    method DeclareOneOf(group: seq<string>)
      modifies this
      ensures tags == Declare(old(tags), group, OneOf(group))
    {
      Put(group, OneOf(group));
    }
  }

  /** The table of a kind that merely lists names besides the common ones. */
  function TagsTable(names: seq<string>): Table {
    Declare(Declare(map[], COMMON_TAGS, Allowed), names, Allowed)
  }

  method BuildTagsTable(names: seq<string>) returns (table: Table)
    ensures table == TagsTable(names)
  {
    var builder := new KindValidatorBuilder(COMMON_TAGS);
    builder.Put(names, Allowed);
    return builder.tags;
  }

  /** The table of generic reposts. */
  function RepostTable(): Table {
    Declare(Declare(TagsTable(["h"]), ["p", "k"], Required), ["e", "a"], OneOf(["e", "a"]))
  }

  method BuildRepostTable() returns (table: Table)
    ensures table == RepostTable()
  {
    var builder := new KindValidatorBuilder(COMMON_TAGS);
    builder.Put(["h"], Allowed);
    builder.Put(["p", "k"], Required);
    builder.DeclareOneOf(["e", "a"]);
    return builder.tags;
  }

  /** An accepted generic repost names its author and the kind reposted, and refers to an event or to an address, not
      to both. */
  lemma AcceptedReposts(rules: map<int, Table>, e: Event, checks: Tag -> bool)
    requires e.kind == KIND_GENERIC_REPOST && e.kind in rules && rules[e.kind] == RepostTable() && Accepts(rules, e, checks)
    ensures Has(e.tags, "p") && Has(e.tags, "k") && UniqueP(e.tags)
    ensures Has(e.tags, "e") <==> !Has(e.tags, "a")
  {
    RepostRules();
    RuleHolds(rules, e, checks, "p");
    RuleHolds(rules, e, checks, "k");
    RuleHolds(rules, e, checks, "e");
    hide RepostTable, MayCarry, OneB, Has, Count, GetTag, UniqueP;
    var group := ["e", "a"];
    assert group[0] == "e" && group[1] == "a";
  }

  lemma RuleHolds(rules: map<int, Table>, e: Event, checks: Tag -> bool, k: string)
    requires Accepts(rules, e, checks) && k in TableOf(rules, e.kind)
    ensures Satisfies(e.tags, k, TableOf(rules, e.kind)[k])
  {
    hide Satisfies, MayCarry, OneB, UniqueP, GetTag;
  }

  lemma RepostRules()
    ensures var table := RepostTable();
            && "p" in table && table["p"] == Required && "k" in table && table["k"] == Required
            && "e" in table && table["e"] == OneOf(["e", "a"])
  {
    var plain, group, required := TagsTable(["h"]), ["e", "a"], ["p", "k"];
    var named := Declare(plain, required, Required);
    DeclareMeans(plain, required, Required);
    DeclareMeans(named, group, OneOf(group));
    hide Declare;
    assert required[0] == "p" && required[1] == "k" && group[0] == "e";
  }

  /** An event of a kind whose table declares a group `OneOf`, and nothing later about its members, is accepted
      only with exactly one of them. */
  lemma OneOfIsExclusive(rules: map<int, Table>, e: Event, checks: Tag -> bool, table: Table,
                                            group: seq<string>)
    requires e.kind in rules && rules[e.kind] == Declare(table, group, OneOf(group)) && group != []
    requires Accepts(rules, e, checks)
    ensures ExactlyOne(e.tags, group)
  {
    var declared := rules[e.kind];
    assert TableOf(rules, e.kind) == declared;
    DeclareMeans(table, group, OneOf(group));
    hide Declare, MayCarry, OneB, UniqueP, ExactlyOne, Has, Count, GetTag;
    assert group[0] in declared && declared[group[0]] == OneOf(group);
    assert Satisfies(e.tags, group[0], OneOf(group));
  }

  /** A table that forbids a tag refuses every event that carries it. */
  lemma ForbiddenIsRefused(rules: map<int, Table>, e: Event, checks: Tag -> bool, table: Table,
                                              names: seq<string>, k: string)
    requires e.kind in rules && rules[e.kind] == Declare(table, names, Forbidden) && k in names && Has(e.tags, k)
    ensures !Accepts(rules, e, checks)
  {
    DeclareMeans(table, names, Forbidden);
    hide Declare, OneB, UniqueP, Satisfies, GetTag;
    var i :| 0 <= i < |e.tags| && Key(e.tags[i]) == k;
    assert !MayCarry(e, true, rules[e.kind], e.tags[i]);
  }

  /** A kind whose table merely lists names accepts exactly the events whose tags pass their checks and are of listed or
      common names, addressable events also with a `d` of some value; with no `b` after one that names somebody, and
      nobody named twice unless to attest devices. */
  lemma ListedKindsExactly(rules: map<int, Table>, e: Event, checks: Tag -> bool, names: seq<string>)
    requires e.kind in rules && rules[e.kind] == TagsTable(names)
    ensures Accepts(rules, e, checks) <==>
              && (forall t :: t in e.tags ==> checks(t))
              && (forall t :: t in e.tags && !(Key(t) == "d" && 30000 <= e.kind < 40000) ==>
                    Key(t) in names || Key(t) in ["t", "l", "L", "nonce", "imeta", "expiration", "b", "settings", "encrypted"])
              && (forall i, j :: 0 <= i < j < |e.tags| && Key(e.tags[i]) == "b" && Key(e.tags[j]) == "b" ==> Value(e.tags[i]) == "")
              && (e.kind != 10100 ==> forall i, j ::
                    0 <= i < j < |e.tags| && Key(e.tags[i]) == "p" && Key(e.tags[j]) == "p" ==> Value(e.tags[i]) != Value(e.tags[j]))
              && (30000 <= e.kind < 40000 ==> Value(GetTag(e.tags, "d")) != "")
  {
    var table := TagsTable(names);
    ListedNames(names);
    hide TagsTable, Key, Value, GetTag;
    assert TableOf(rules, e.kind) == table;
    forall t
      ensures MayCarry(e, true, table, t) <==>
                (Key(t) in names || (Key(t) == "d" && 30000 <= e.kind < 40000) || Key(t) in COMMON_TAGS)
    {
    }
    assert forall k :: k in table ==> Satisfies(e.tags, k, table[k]);
    hide MayCarry, Satisfies;
    assert forall t :: t in e.tags ==> exists i :: 0 <= i < |e.tags| && e.tags[i] == t;
  }

  lemma ListedNames(names: seq<string>)
    ensures forall k :: k in TagsTable(names) <==> k in names || k in COMMON_TAGS
    ensures forall k :: k in TagsTable(names) ==> TagsTable(names)[k] == Allowed
  {
    DeclareMeans(map[], COMMON_TAGS, Allowed);
    DeclareMeans(Declare(map[], COMMON_TAGS, Allowed), names, Allowed);
    hide Declare;
  }
}
