/** The tag part of an event's system ID (`database/query/query.go`, `writeGenericTagsSystemID`): tags sorted by
    key, repeats dropped, the rest fed to a running digest. */
module SystemId {
  import opened Nostr
  import opened Seqs
  import opened Dedup

  // ---- Order of keys

  /** Go's `strings.Compare(a, b) <= 0`. */
  predicate Leq(a: string, b: string) {
    a == [] || (b != [] && (a[0] < b[0] || (a[0] == b[0] && Leq(a[1..], b[1..]))))
  }

  lemma {:induction false} LeqTotal(a: string, b: string)
    ensures Leq(a, b) || Leq(b, a)
    ensures Leq(a, b) && Leq(b, a) ==> a == b
  {
    if a != [] && b != [] && a[0] == b[0] {
      LeqTotal(a[1..], b[1..]);
      assert a == [a[0]] + a[1..] && b == [b[0]] + b[1..];
    }
  }

  lemma {:induction false} LeqTransitive(a: string, b: string, c: string)
    requires Leq(a, b) && Leq(b, c)
    ensures Leq(a, c)
  {
    if a != [] && a[0] == b[0] && b[0] == c[0] {
      LeqTransitive(a[1..], b[1..], c[1..]);
    }
  }

  // ---- Stable sorting

  predicate SortedByKey(q: seq<Tag>) {
    forall i, j :: 0 <= i < j < |q| ==> Leq(Key(q[i]), Key(q[j]))
  }

  function KeyIs(k: string): Tag -> bool {
    (t: Tag) => Key(t) == k
  }

  /** Puts a tag after every tag whose key is not greater. */
  function Insert(q: seq<Tag>, t: Tag): seq<Tag> {
    if q == [] || Leq(Key(q[|q| - 1]), Key(t)) then q + [t]
    else Insert(q[..|q| - 1], t) + [q[|q| - 1]]
  }

  function StableSort(q: seq<Tag>): seq<Tag> {
    if q == [] then [] else Insert(StableSort(q[..|q| - 1]), q[|q| - 1])
  }

  lemma {:induction false} InsertMembers(q: seq<Tag>, t: Tag)
    ensures forall x :: x in Insert(q, t) <==> x in q || x == t
  {
    if !(q == [] || Leq(Key(q[|q| - 1]), Key(t))) {
      InsertMembers(q[..|q| - 1], t);
      assert q == q[..|q| - 1] + [q[|q| - 1]];
    }
  }

  lemma {:induction false} InsertSorts(q: seq<Tag>, t: Tag)
    requires SortedByKey(q)
    ensures SortedByKey(Insert(q, t))
  {
    hide Leq, Key;
    if q != [] {
      var init, last := q[..|q| - 1], q[|q| - 1];
      LeqTotal(Key(last), Key(t));
      if Leq(Key(last), Key(t)) {
        forall i | 0 <= i < |q|
          ensures Leq(Key(q[i]), Key(t))
        {
          if i < |init| {
            LeqTransitive(Key(q[i]), Key(last), Key(t));
          }
        }
      } else {
        InsertSorts(init, t);
        InsertMembers(init, t);
        var most := Insert(init, t);
        forall i | 0 <= i < |most|
          ensures Leq(Key(most[i]), Key(last))
        {
          assert most[i] in most;
          if most[i] in init {
            var j :| 0 <= j < |init| && init[j] == most[i];
            assert q[j] == init[j];
          }
        }
      }
    }
  }

  /** Insertion leaves the order within every key alone and puts the tag last of its key. */
  lemma {:induction false} InsertStable(q: seq<Tag>, t: Tag, k: string)
    requires SortedByKey(q)
    ensures Select(Insert(q, t), KeyIs(k)) == if Key(t) == k then Select(q, KeyIs(k)) + [t] else Select(q, KeyIs(k))
  {
    hide Leq, Key, Select, Insert;
    InsertStep(q, t);
    if q == [] || Leq(Key(q[|q| - 1]), Key(t)) {
      SelectSnoc(q, t, KeyIs(k));
    } else {
      var init, last := q[..|q| - 1], q[|q| - 1];
      InsertStable(init, t, k);
      assert init + [last] == q;
      SelectSnoc(init, last, KeyIs(k));
      SelectSnoc(Insert(init, t), last, KeyIs(k));
      assert Key(t) != Key(last) by {
        LeqTotal(Key(last), Key(t));
        LeqItself(Key(t));
      }
    }
  }

  lemma InsertStep(q: seq<Tag>, t: Tag)
    ensures Insert(q, t) ==
            if q == [] || Leq(Key(q[|q| - 1]), Key(t)) then q + [t] else Insert(q[..|q| - 1], t) + [q[|q| - 1]]
  {
    hide Leq, Key;
  }

  lemma LeqItself(a: string)
    ensures Leq(a, a)
  {
    LeqTotal(a, a);
  }

  lemma {:induction false} SortSorts(q: seq<Tag>)
    ensures SortedByKey(StableSort(q))
  {
    if q != [] {
      SortSorts(q[..|q| - 1]);
      InsertSorts(StableSort(q[..|q| - 1]), q[|q| - 1]);
    }
  }

  lemma {:induction false} SortStable(q: seq<Tag>, k: string)
    ensures Select(StableSort(q), KeyIs(k)) == Select(q, KeyIs(k))
  {
    hide Select, Insert;
    if q == [] {
      assert q == [];
    } else {
      var init, last := q[..|q| - 1], q[|q| - 1];
      SortStable(init, k);
      SortSorts(init);
      InsertStable(StableSort(init), last, k);
      SelectSnoc(init, last, KeyIs(k));
      assert init + [last] == q;
    }
  }

  /** The same tags, with the same order among tags of one key. */
  ghost predicate SameByKey(q: seq<Tag>, r: seq<Tag>) {
    forall k :: Select(q, KeyIs(k)) == Select(r, KeyIs(k))
  }

  lemma HeadByKey(q: seq<Tag>)
    requires q != []
    ensures Select(q, KeyIs(Key(q[0]))) == [q[0]] + Select(q[1..], KeyIs(Key(q[0])))
  {
  }

  lemma OccursByKey(q: seq<Tag>, r: seq<Tag>, t: Tag)
    requires SameByKey(q, r) && t in q
    ensures t in r
  {
    SelectMembers(q, KeyIs(Key(t)));
    SelectMembers(r, KeyIs(Key(t)));
  }

  lemma SameHead(q: seq<Tag>, r: seq<Tag>)
    requires SortedByKey(q) && SortedByKey(r) && SameByKey(q, r) && q != [] && r != []
    ensures q[0] == r[0]
  {
    hide Leq, Key, Select;
    OccursByKey(q, r, q[0]);
    OccursByKey(r, q, r[0]);
    var i :| 0 <= i < |r| && r[i] == q[0];
    var j :| 0 <= j < |q| && q[j] == r[0];
    LeqItself(Key(q[0]));
    LeqItself(Key(r[0]));
    LeqTotal(Key(q[0]), Key(r[0]));
    HeadByKey(q);
    HeadByKey(r);
    assert Select(q, KeyIs(Key(q[0])))[0] == q[0] && Select(r, KeyIs(Key(r[0])))[0] == r[0];
  }

  lemma SameTail(q: seq<Tag>, r: seq<Tag>)
    requires SameByKey(q, r) && q != [] && r != [] && q[0] == r[0]
    ensures SameByKey(q[1..], r[1..])
  {
    hide Key;
    forall k
      ensures Select(q[1..], KeyIs(k)) == Select(r[1..], KeyIs(k))
    {
      assert Select(q, KeyIs(k)) == Select(r, KeyIs(k));
      if Key(q[0]) == k {
        var a, b := Select(q[1..], KeyIs(k)), Select(r[1..], KeyIs(k));
        assert ([q[0]] + a)[1..] == a && ([q[0]] + b)[1..] == b;
      } else {
        assert [] + Select(q[1..], KeyIs(k)) == Select(q[1..], KeyIs(k));
        assert [] + Select(r[1..], KeyIs(k)) == Select(r[1..], KeyIs(k));
      }
    }
  }

  /** A list sorted by key is determined by its tags of each key. */
  lemma {:induction false} SortedUnique(q: seq<Tag>, r: seq<Tag>)
    requires SortedByKey(q) && SortedByKey(r) && SameByKey(q, r)
    ensures q == r
  {
    hide Leq, Key, Select, SameByKey;
    BothEmpty(q, r);
    if q != [] {
      SameHead(q, r);
      SameTail(q, r);
      SortedUnique(q[1..], r[1..]);
      assert q == [q[0]] + q[1..] && r == [r[0]] + r[1..];
    }
  }

  lemma BothEmpty(q: seq<Tag>, r: seq<Tag>)
    requires SameByKey(q, r)
    ensures q == [] <==> r == []
  {
    if q != [] {
      OccursByKey(q, r, q[0]);
    }
    if r != [] {
      OccursByKey(r, q, r[0]);
    }
  }

  // ---- The digest's input

  function Flat(t: Tag): string {
    if t == [] then "" else Flat(t[..|t| - 1]) + t[|t| - 1]
  }

  function Flatten(q: seq<Tag>): string {
    if q == [] then "" else Flatten(q[..|q| - 1]) + Flat(q[|q| - 1])
  }

  function HashOf<H>(hash: string -> H): Tag -> H {
    (t: Tag) => hash(Flat(t))
  }

  /** What the tags feed to the digest: each text once, in order of key. */
  function SystemText<H(==)>(tags: seq<Tag>, hash: string -> H): string {
    Flatten(DedupBy(StableSort(tags), HashOf(hash)))
  }

  /** Reordering tags without reordering those of one key does not change the digest. */
  lemma OrderDoesNotMatter<H>(tags: seq<Tag>, others: seq<Tag>, hash: string -> H)
    requires SameByKey(tags, others)
    ensures SystemText(tags, hash) == SystemText(others, hash)
  {
    SortSorts(tags);
    SortSorts(others);
    forall k
      ensures Select(StableSort(tags), KeyIs(k)) == Select(StableSort(others), KeyIs(k))
    {
      SortStable(tags, k);
      SortStable(others, k);
    }
    SortedUnique(StableSort(tags), StableSort(others));
  }

  /** Where an inserted tag ends up. */
  lemma {:induction false} InsertSplits(q: seq<Tag>, t: Tag) returns (before: seq<Tag>, after: seq<Tag>)
    ensures q == before + after && Insert(q, t) == before + [t] + after
    ensures forall x :: x in after ==> !Leq(Key(x), Key(t))
  {
    if q == [] || Leq(Key(q[|q| - 1]), Key(t)) {
      before, after := q, [];
    } else {
      var init, last := q[..|q| - 1], q[|q| - 1];
      var b, a := InsertSplits(init, t);
      before, after := b, a + [last];
      assert q == init + [last];
    }
  }

  /** An element whose key has occurred before it can be left out. */
  lemma {:induction false} DedupSkips<H>(before: seq<Tag>, t: Tag, after: seq<Tag>, key: Tag -> H)
    requires Occurs(DedupBy(before, key), key, key(t))
    ensures DedupBy(before + [t] + after, key) == DedupBy(before + after, key)
  {
    if after == [] {
      assert before + [t] + after == before + [t] && before + after == before;
      assert (before + [t])[..|before|] == before;
    } else {
      var init, last := after[..|after| - 1], after[|after| - 1];
      DedupSkips(before, t, init, key);
      assert (before + [t] + after)[..|before| + |after|] == before + [t] + init;
      assert (before + after)[..|before| + |after| - 1] == before + init;
    }
  }

  /** Appending a repeat of a tag already present does not change the digest. */
  lemma RepeatDoesNotMatter<H(!new)>(tags: seq<Tag>, t: Tag, hash: string -> H)
    requires t in tags
    ensures SystemText(tags + [t], hash) == SystemText(tags, hash)
  {
    var sorted := StableSort(tags);
    assert (tags + [t])[..|tags|] == tags;
    var before, after := InsertSplits(sorted, t);
    SortedMembers(tags);
    LeqItself(Key(t));
    assert t in before;
    DedupDistinct(before, HashOf(hash));
    DedupSkips(before, t, after, HashOf(hash));
  }

  lemma {:induction false} SortedMembers(q: seq<Tag>)
    ensures forall x :: x in StableSort(q) <==> x in q
  {
    if q != [] {
      var init, last := q[..|q| - 1], q[|q| - 1];
      SortedMembers(init);
      InsertMembers(StableSort(init), last);
      assert q == init + [last];
    }
  }

  // ---- The method

  class Digest {
    var text: string

    constructor ()
      ensures text == ""
    {
      text := "";
    }

    method Reset()
      modifies this
      ensures text == ""
    {
      text := "";
    }

    method WriteString(s: string)
      modifies this
      ensures text == old(text) + s
    {
      text := text + s;
    }

    method WriteTag(t: Tag)
      modifies this
      ensures text == old(text) + Flat(t)
    {
      for i := 0 to |t|
        invariant text == old(text) + Flat(t[..i])
      {
        assert t[..i + 1][..i] == t[..i];
        WriteString(t[i]);
      }
      assert t[..|t|] == t;
    }
  }

  lemma InsertFrom(q: seq<Tag>, t: Tag, j: nat)
    requires j <= |q|
    ensures j == 0 || Leq(Key(q[j - 1]), Key(t)) ==> Insert(q[..j], t) == q[..j] + [t]
    ensures j > 0 && !Leq(Key(q[j - 1]), Key(t)) ==> Insert(q[..j], t) == Insert(q[..j - 1], t) + [q[j - 1]]
  {
    hide Leq, Key;
    if j > 0 {
      assert q[..j][..j - 1] == q[..j - 1];
    }
  }

  /** Moves the element at `i` down to its place among the ones before it, past all of greater key. */
  method SinkInto(a: array<Tag>, i: nat)
    requires i < a.Length
    modifies a
    ensures a[..] == Insert(old(a[..i]), old(a[i])) + old(a[i + 1..])
  {
    hide Leq, Key, Insert;
    ghost var q, t, tail := a[..i], a[i], a[i + 1..];
    var j := i;
    assert q[..i] == q && q[i..] == [];
    assert a[..] == Sinking(q, t, tail, j);
    while j > 0 && !Leq(Key(a[j - 1]), Key(a[j]))
      invariant j <= i && |q| == i && |tail| == a.Length - i - 1
      invariant a[..] == Sinking(q, t, tail, j)
      invariant Insert(q, t) == Insert(q[..j], t) + q[j..]
    {
      hide Sinking;
      SinkingAt(q, t, tail, j);
      assert a[..][j] == t && a[..][j - 1] == q[j - 1];
      InsertFrom(q, t, j);
      assert q[j - 1..] == [q[j - 1]] + q[j..];
      ghost var before := a[..];
      a[j - 1], a[j] := a[j], a[j - 1];
      assert a[..] == before[j - 1 := t][j := q[j - 1]];
      j := j - 1;
    }
    SinkingAt(q, t, tail, j);
    assert a[..][j] == t && (j > 0 ==> a[..][j - 1] == q[j - 1]);
    InsertFrom(q, t, j);
  }

  /** The tag sunk to place `j` among `q`, before a tail. */
  ghost function Sinking(q: seq<Tag>, t: Tag, tail: seq<Tag>, j: nat): seq<Tag>
    requires j <= |q|
  {
    q[..j] + [t] + q[j..] + tail
  }

  lemma SinkingAt(q: seq<Tag>, t: Tag, tail: seq<Tag>, j: nat)
    requires j <= |q|
    ensures var now := Sinking(q, t, tail, j);
            && |now| == |q| + 1 + |tail| && now[j] == t
            && (j > 0 ==> now[j - 1] == q[j - 1] && now[j - 1 := t][j := q[j - 1]] == Sinking(q, t, tail, j - 1))
  {
  }

  /** The library's stable sort, in place. */
  method SortStableFunc(a: array<Tag>)
    modifies a
    ensures a[..] == StableSort(old(a[..]))
  {
    hide Insert, StableSort;
    ghost var all := a[..];
    NothingSorted();
    for i := 0 to a.Length
      invariant a[..] == StableSort(all[..i]) + all[i..]
      invariant |StableSort(all[..i])| == i
    {
      assert all[..i + 1] == all[..i] + [all[i]];
      SortSnoc(all[..i], all[i]);
      assert a[..i] == StableSort(all[..i]) && a[i] == all[i] && a[i + 1..] == all[i + 1..];
      SinkInto(a, i);
    }
    assert all[..a.Length] == all && a[..] == StableSort(all) + [];
  }

  lemma NothingSorted()
    ensures StableSort([]) == []
  {
  }

  lemma SortSnoc(q: seq<Tag>, t: Tag)
    ensures StableSort(q + [t]) == Insert(StableSort(q), t)
    ensures |StableSort(q + [t])| == |StableSort(q)| + 1
  {
    assert (q + [t])[..|q|] == q;
    InsertSize(StableSort(q), t);
  }

  lemma {:induction false} InsertSize(q: seq<Tag>, t: Tag)
    ensures |Insert(q, t)| == |q| + 1
  {
    hide Leq, Key;
    if q != [] {
      InsertSize(q[..|q| - 1], t);
    }
  }

  /** Feeds the digest; the caller's tags are left as they are, since only a clone is sorted. */
  method WriteGenericTagsSystemID<H(==,!new)>(digest: Digest, tags: array<Tag>, hash: string -> H)
    modifies digest
    ensures digest.text == old(digest.text) + SystemText(tags[..], hash)
    ensures tags[..] == old(tags[..])
  {
    hide DedupBy, Occurs, Flatten, Flat, StableSort, HashOf;
    var clone := new Tag[tags.Length](i requires 0 <= i < tags.Length reads tags => tags[i]);
    assert clone[..] == tags[..];
    SortStableFunc(clone);
    var sortedTags := clone[..];
    NothingWritten(HashOf(hash));
    var seen: set<H> := {};
    var tagDigest := new Digest();
    ghost var kept: seq<Tag> := [];
    for i := 0 to |sortedTags|
      invariant Kept(sortedTags[..i], kept, seen, hash) && digest.text == old(digest.text) + Flatten(kept)
    {
      var t := sortedTags[i];
      assert sortedTags[..i + 1] == sortedTags[..i] + [t];
      OneMoreTag(sortedTags[..i], kept, seen, hash, t);
      hide Kept;
      tagDigest.Reset();
      tagDigest.WriteTag(t);
      assert tagDigest.text == Flat(t);
      var h := hash(tagDigest.text);
      if h !in seen {
        seen := seen + {h};
        digest.WriteTag(t);
        assert digest.text == old(digest.text) + (Flatten(kept) + Flat(t));
        kept := kept + [t];
      }
    }
    assert sortedTags[..|sortedTags|] == sortedTags;
  }

  /** What has been written of the first tags, and the hashes of these. */
  ghost predicate Kept<H(!new)>(tags: seq<Tag>, kept: seq<Tag>, seen: set<H>, hash: string -> H) {
    kept == DedupBy(tags, HashOf(hash)) && forall h :: h in seen <==> Occurs(kept, HashOf(hash), h)
  }

  lemma OneMoreTag<H(!new)>(tags: seq<Tag>, kept: seq<Tag>, seen: set<H>, hash: string -> H, t: Tag)
    requires Kept(tags, kept, seen, hash)
    ensures Flatten(kept + [t]) == Flatten(kept) + Flat(t)
    ensures if hash(Flat(t)) in seen then Kept(tags + [t], kept, seen, hash)
            else Kept(tags + [t], kept + [t], seen + {hash(Flat(t))}, hash)
  {
    hide DedupBy, Occurs, Flatten, Flat;
    DedupSnoc(tags, t, HashOf(hash));
    OccursSnoc(kept, HashOf(hash), t);
    FlattenSnoc(kept, t);
  }

  lemma NothingWritten<H(!new)>(key: Tag -> H)
    ensures DedupBy([], key) == [] && Flatten([]) == "" && forall h :: !Occurs([], key, h)
  {
  }

  lemma DedupSnoc<H>(q: seq<Tag>, t: Tag, key: Tag -> H)
    ensures DedupBy(q + [t], key) == if Occurs(DedupBy(q, key), key, key(t)) then DedupBy(q, key) else DedupBy(q, key) + [t]
  {
    assert (q + [t])[..|q|] == q;
  }

  lemma FlattenSnoc(q: seq<Tag>, t: Tag)
    ensures Flatten(q + [t]) == Flatten(q) + Flat(t)
  {
    assert (q + [t])[..|q|] == q;
  }

  /** Two tags are fed field by field, the smaller key first, in whatever order they come. */
  lemma TwoTagsText<H>(a: string, v: string, b: string, w: string, hash: string -> H)
    requires !Leq(b, a) && hash(a + v) != hash(b + w)
    ensures SystemText([[a, v], [b, w]], hash) == a + v + b + w && SystemText([[b, w], [a, v]], hash) == a + v + b + w
  {
    LeqTotal(a, b);
    TwoFields(a, v);
    TwoFields(b, w);
    TwoSorted([a, v], [b, w]);
    hide Leq, Flat, StableSort, Flatten, DedupBy;
    TwoKept([a, v], [b, w], hash);
    assert a + v + (b + w) == a + v + b + w;
  }

  lemma TwoSorted(s: Tag, t: Tag)
    requires Leq(Key(s), Key(t)) && !Leq(Key(t), Key(s))
    ensures StableSort([s, t]) == [s, t] && StableSort([t, s]) == [s, t]
  {
    hide Leq;
    assert [s, t][..1] == [s] && [t, s][..1] == [t] && [s][..0] == [] && [t][..0] == [];
    assert StableSort([s]) == [s] && StableSort([t]) == [t];
    assert Insert([t], s) == Insert([], s) + [t] && Insert([], s) == [s];
  }

  lemma TwoFields(a: string, v: string)
    ensures Flat([a, v]) == a + v
  {
    assert [a, v][..1] == [a] && [a][..0] == [] && Flat([a]) == "" + a;
  }

  lemma TwoKept<H>(s: Tag, t: Tag, hash: string -> H)
    requires hash(Flat(s)) != hash(Flat(t))
    ensures Flatten(DedupBy([s, t], HashOf(hash))) == Flat(s) + Flat(t)
  {
    hide Flat;
    assert [s, t][..1] == [s] && [s][..0] == [];
    assert DedupBy([s], HashOf(hash)) == [s];
    assert DedupBy([s, t], HashOf(hash)) == [s, t];
    assert Flatten([s]) == "" + Flat(s);
  }
}
