/** Positional overrides of an event's content (`model/content.go`, `ReplacePMO`). A string is its bytes. */
module Splice {
  import opened Optional
  import opened Strconv
  import opened Text
  import opened Nostr
  import opened Seqs
  import opened Community

  datatype Override = Override(start: nat, end: nat, text: string)

  /** The callback's answer: None leaves the text alone, an empty string keeps the override's own text. */
  type Replacer = (string, string) -> Option<string>

  datatype Outcome = Replaced(content: string) | Invalid | SliceOutOfRange

  // ---- Reading the tags

  function ParseOverride(tag: Tag, n: nat): (o: Option<Override>)
    ensures o.Some? ==> o.value.start <= o.value.end <= n
  {
    if |tag| < 3 then None
    else
      var parts := Split(Value(tag), ':');
      if |parts| != 2 then None
      else
        match (Atoi(parts[0]), Atoi(parts[1]))
        case (Some(start), Some(end)) =>
          if start < 0 || end < start || start > n || end > n then None else Some(Override(start, end, tag[2]))
        case _ => None
  }

  function IsPmo(): Tag -> bool {
    (t: Tag) => StartsWith(t, ["pmo"])
  }

  /** Every tag's override, in order, or nothing if one of them is malformed. */
  function ParseOverrides(tags: seq<Tag>, n: nat): (r: Option<seq<Override>>)
    ensures r.Some? ==> |r.value| == |tags| && InRange(r.value, n)
  {
    if tags == [] then Some([])
    else
      match (ParseOverrides(tags[..|tags| - 1], n), ParseOverride(tags[|tags| - 1], n))
      case (Some(before), Some(o)) => Some(before + [o])
      case _ => None
  }

  predicate InRange(q: seq<Override>, n: nat) {
    forall i :: 0 <= i < |q| ==> q[i].start <= q[i].end <= n
  }

  // ---- Sorting by start, last first

  predicate Descending(q: seq<Override>) {
    forall i, j :: 0 <= i < j < |q| ==> q[i].start >= q[j].start
  }

  function Insert(q: seq<Override>, o: Override): (r: seq<Override>)
    ensures multiset(r) == multiset(q) + multiset{o}
  {
    if q == [] || q[0].start <= o.start then
      assert [o] + q == [o] + q;
      [o] + q
    else
      assert q == [q[0]] + q[1..];
      [q[0]] + Insert(q[1..], o)
  }

  function Sort(q: seq<Override>): (r: seq<Override>)
    ensures multiset(r) == multiset(q)
  {
    if q == [] then []
    else
      assert q == q[..|q| - 1] + [q[|q| - 1]];
      Insert(Sort(q[..|q| - 1]), q[|q| - 1])
  }

  lemma InMultiset<T>(q: seq<T>, x: T)
    ensures x in q <==> x in multiset(q)
  {
  }

  lemma {:induction false} InsertDescends(q: seq<Override>, o: Override)
    requires Descending(q)
    ensures Descending(Insert(q, o))
  {
    if q != [] && q[0].start > o.start {
      InsertDescends(q[1..], o);
      var rest := Insert(q[1..], o);
      forall i | 0 <= i < |rest|
        ensures rest[i].start <= q[0].start
      {
        InMultiset(rest, rest[i]);
        assert rest[i] in multiset(q[1..]) + multiset{o};
        InMultiset(q[1..], rest[i]);
      }
    }
  }

  lemma {:induction false} SortDescends(q: seq<Override>)
    ensures Descending(Sort(q))
  {
    if q != [] {
      SortDescends(q[..|q| - 1]);
      InsertDescends(Sort(q[..|q| - 1]), q[|q| - 1]);
    }
  }

  /** What the library's sort may return: the same overrides by descending start, ties in any order. */
  ghost predicate IsSorting(q: seq<Override>, sorted: seq<Override>) {
    multiset(sorted) == multiset(q) && Descending(sorted)
  }

  method SortOverrides(q: seq<Override>) returns (sorted: seq<Override>)
    ensures IsSorting(q, sorted)
  {
    SortDescends(q);
    sorted := Sort(q);
  }

  lemma SortingMembers(q: seq<Override>, sorted: seq<Override>)
    requires IsSorting(q, sorted)
    ensures forall x :: x in sorted <==> x in q
  {
    forall x
      ensures x in sorted <==> x in q
    {
      InMultiset(sorted, x);
      InMultiset(q, x);
    }
  }

  /** Lists of overrides that are apart: no common start, no overlap. */
  predicate Apart(o: Override, p: Override) {
    o.start != p.start && (o.end <= p.start || p.end <= o.start)
  }

  predicate AllApart(q: seq<Override>) {
    forall i, j :: 0 <= i < j < |q| ==> Apart(q[i], q[j])
  }

  /** Apart in the order they are in, last first. */
  predicate Falling(q: seq<Override>) {
    forall i, j :: 0 <= i < j < |q| ==> q[i].start > q[j].start && q[j].end <= q[i].start
  }

  lemma InsertMembers(q: seq<Override>, o: Override)
    ensures forall x :: x in Insert(q, o) <==> x in q || x == o
  {
    forall x
      ensures x in Insert(q, o) <==> x in q || x == o
    {
      InMultiset(Insert(q, o), x);
      InMultiset(q, x);
    }
  }

  lemma {:induction false} InsertFalls(q: seq<Override>, o: Override)
    requires Falling(q) && o.start <= o.end && InOrder(q) && forall x :: x in q ==> Apart(x, o)
    ensures Falling(Insert(q, o))
  {
    if q != [] {
      assert Apart(q[0], o);
      if q[0].start > o.start {
        InsertFalls(q[1..], o);
        InsertMembers(q[1..], o);
        var rest := Insert(q[1..], o);
        forall i | 0 <= i < |rest|
          ensures q[0].start > rest[i].start && rest[i].end <= q[0].start
        {
          assert rest[i] in rest;
        }
      } else {
        forall i | 0 <= i < |q|
          ensures o.start > q[i].start && q[i].end <= o.start
        {
          assert Apart(q[i], o);
        }
      }
    }
  }

  predicate InOrder(q: seq<Override>) {
    forall i :: 0 <= i < |q| ==> q[i].start <= q[i].end
  }

  lemma SortMembers(q: seq<Override>)
    ensures forall x :: x in Sort(q) <==> x in q
  {
    forall x
      ensures x in Sort(q) <==> x in q
    {
      InMultiset(Sort(q), x);
      InMultiset(q, x);
    }
  }

  lemma {:induction false} SortFalls(q: seq<Override>)
    requires AllApart(q) && InOrder(q)
    ensures Falling(Sort(q)) && InOrder(Sort(q))
  {
    SortMembers(q);
    if q != [] {
      var init, last := q[..|q| - 1], q[|q| - 1];
      SortFalls(init);
      SortMembers(init);
      forall x | x in Sort(init)
        ensures Apart(x, last)
      {
        var i :| 0 <= i < |init| && init[i] == x;
        assert Apart(q[i], q[|q| - 1]);
      }
      InsertFalls(Sort(init), last);
    }
    forall i | 0 <= i < |Sort(q)|
      ensures Sort(q)[i].start <= Sort(q)[i].end
    {
      assert Sort(q)[i] in q;
    }
  }

  /** A falling list is determined by its members. */
  lemma {:induction false} FallingUnique(a: seq<Override>, b: seq<Override>)
    requires Falling(a) && Falling(b) && forall x :: x in a <==> x in b
    ensures a == b
  {
    BothEmpty(a, b);
    if a != [] {
      assert a[0] in b && b[0] in a;
      var i :| 0 <= i < |b| && b[i] == a[0];
      var j :| 0 <= j < |a| && a[j] == b[0];
      assert i == 0 && a[0] == b[0];
      TailMembers(a);
      TailMembers(b);
      FallingUnique(a[1..], b[1..]);
      assert a == [a[0]] + a[1..] && b == [b[0]] + b[1..];
    }
  }

  lemma BothEmpty(a: seq<Override>, b: seq<Override>)
    requires forall x :: x in a <==> x in b
    ensures a == [] <==> b == []
  {
    if a != [] {
      assert a[0] in b;
    }
    if b != [] {
      assert b[0] in a;
    }
  }

  lemma TailMembers(q: seq<Override>)
    requires q != [] && Falling(q)
    ensures forall x :: x in q[1..] <==> x in q && x != q[0]
  {
    assert q == [q[0]] + q[1..];
    forall i | 0 <= i < |q[1..]|
      ensures q[1..][i] != q[0]
    {
      assert q[1..][i] == q[i + 1];
    }
  }

  lemma {:induction false} OnceEach(q: seq<Override>, x: Override)
    requires AllApart(q)
    ensures multiset(q)[x] <= 1
  {
    if q != [] {
      var init, last := q[..|q| - 1], q[|q| - 1];
      assert q == init + [last];
      OnceEach(init, x);
      forall i | 0 <= i < |init|
        ensures init[i] != last
      {
        assert Apart(q[i], q[|q| - 1]);
      }
    }
  }

  lemma TwiceThere(q: seq<Override>, i: nat, j: nat)
    requires i < j < |q| && q[i] == q[j]
    ensures multiset(q)[q[i]] >= 2
  {
    assert q == q[..j] + q[j..];
    assert q[..j][i] == q[i] && q[j..][0] == q[j];
    assert q[i] in multiset(q[..j]) && q[i] in multiset(q[j..]);
  }

  lemma SortingApart(q: seq<Override>, sorted: seq<Override>, i: nat, j: nat)
    requires AllApart(q) && IsSorting(q, sorted) && i < j < |sorted|
    ensures Apart(sorted[i], sorted[j])
  {
    SortingMembers(q, sorted);
    OnceEach(q, sorted[i]);
    if sorted[i] == sorted[j] {
      TwiceThere(sorted, i, j);
    } else {
      assert sorted[i] in q && sorted[j] in q;
      var k :| 0 <= k < |q| && q[k] == sorted[i];
      var l :| 0 <= l < |q| && q[l] == sorted[j];
      assert k < l || l < k;
    }
  }

  /** Overrides that are apart have only one sorting. */
  lemma SortingUnique(q: seq<Override>, sorted: seq<Override>)
    requires AllApart(q) && InOrder(q) && IsSorting(q, sorted)
    ensures sorted == Sort(q) && InOrder(sorted)
  {
    SortingMembers(q, sorted);
    SortMembers(q);
    SortFalls(q);
    forall i, j | 0 <= i < j < |sorted|
      ensures sorted[i].start > sorted[j].start && sorted[j].end <= sorted[i].start
    {
      SortingApart(q, sorted, i, j);
      InOrderAt(q, sorted[i]);
    }
    FallingUnique(sorted, Sort(q));
  }

  lemma InOrderAt(q: seq<Override>, o: Override)
    requires InOrder(q) && o in q
    ensures o.start <= o.end
  {
  }

  /** Whatever order the tags come in, overrides that are apart are processed in one order. */
  lemma SortedAlike(q: seq<Override>, r: seq<Override>)
    requires AllApart(q) && InOrder(q) && AllApart(r) && InOrder(r) && forall x :: x in q <==> x in r
    ensures Sort(q) == Sort(r)
  {
    SortFalls(q);
    SortFalls(r);
    SortMembers(q);
    SortMembers(r);
    FallingUnique(Sort(q), Sort(r));
  }

  // ---- The splice loop

  /** What replaces an override's stretch of text. */
  function Piece(text: string, o: Override, replace: Replacer): string {
    match replace(text, o.text)
    case None => text
    case Some(t) => if t != "" then t else o.text
  }

  function Splices(result: string, q: seq<Override>, replace: Replacer): Outcome
    requires InOrder(q)
    decreases |q|
  {
    if q == [] then Replaced(result)
    else
      var o := q[0];
      if o.end > |result| then SliceOutOfRange
      else Splices(result[..o.start] + Piece(result[o.start..o.end], o, replace) + result[o.end..], q[1..], replace)
  }

  /** Reads the content once, left to right, copying it up to each override and putting its piece in. */
  function LeftToRight(content: string, ascending: seq<Override>, from: nat, replace: Replacer): string
    decreases |ascending|
  {
    if ascending == [] then (if from <= |content| then content[from..] else "")
    else
      var o := ascending[0];
      if !(from <= o.start <= o.end <= |content|) then ""
      else
        content[from..o.start] + Piece(content[o.start..o.end], o, replace) +
        LeftToRight(content, ascending[1..], o.end, replace)
  }

  function Reversed(q: seq<Override>): seq<Override> {
    if q == [] then [] else [q[|q| - 1]] + Reversed(q[..|q| - 1])
  }

  /** `from` lies before the first of the overrides. */
  predicate Before(from: nat, content: string, ascending: seq<Override>) {
    from <= if ascending == [] then |content| else ascending[0].start
  }

  lemma Regroup(a: string, b: string, c: string)
    ensures a + (b + c) == a + b + c
  {
  }

  lemma Upto(content: string, from: nat, to: nat)
    requires from <= to <= |content|
    ensures content[..from] + content[from..to] == content[..to]
  {
  }

  lemma FirstPiece(content: string, ascending: seq<Override>, from: nat, replace: Replacer)
    requires ascending != [] && from <= ascending[0].start <= ascending[0].end <= |content|
    ensures var o := ascending[0];
            LeftToRight(content, ascending, from, replace) ==
            content[from..o.start] + (Piece(content[o.start..o.end], o, replace) + LeftToRight(content, ascending[1..], o.end, replace))
  {
    hide Piece;
    var o := ascending[0];
    Regroup(content[from..o.start], Piece(content[o.start..o.end], o, replace), LeftToRight(content, ascending[1..], o.end, replace));
  }

  lemma LaterStart(content: string, ascending: seq<Override>, from: nat, to: nat, replace: Replacer)
    requires from <= to && Before(to, content, ascending) && (ascending != [] ==> ascending[0].start <= ascending[0].end <= |content|)
    ensures to <= |content|
    ensures content[..from] + LeftToRight(content, ascending, from, replace) ==
            content[..to] + LeftToRight(content, ascending, to, replace)
  {
    if ascending == [] {
      Upto(content, from, |content|);
      Upto(content, to, |content|);
    } else {
      var o := ascending[0];
      FirstPiece(content, ascending, from, replace);
      FirstPiece(content, ascending, to, replace);
      Upto(content, from, o.start);
      Upto(content, to, o.start);
      hide LeftToRight, Piece;
      var rest := Piece(content[o.start..o.end], o, replace) + LeftToRight(content, ascending[1..], o.end, replace);
      Regroup(content[..from], content[from..o.start], rest);
      Regroup(content[..to], content[to..o.start], rest);
    }
  }

  lemma Around(content: string, start: nat, end: nat, tail: string)
    requires start <= end <= |content|
    ensures var result := content[..end] + tail;
            result[..start] == content[..start] && result[start..end] == content[start..end] && result[end..] == tail
  {
  }

  /** One splice on a text that is still original up to where it works. */
  lemma SpliceStep(content: string, done: seq<Override>, o: Override, replace: Replacer)
    requires o.start <= o.end && Before(o.end, content, done) && (done != [] ==> done[0].start <= done[0].end <= |content|)
    ensures o.end <= |content|
    ensures var result := content[..o.end] + LeftToRight(content, done, o.end, replace);
            && result[o.start..o.end] == content[o.start..o.end]
            && result[..o.start] + Piece(result[o.start..o.end], o, replace) + result[o.end..] ==
               content[..o.start] + LeftToRight(content, [o] + done, o.start, replace)
  {
    hide LeftToRight, Piece;
    var tail := LeftToRight(content, done, o.end, replace);
    var piece := Piece(content[o.start..o.end], o, replace);
    Around(content, o.start, o.end, tail);
    assert ([o] + done)[1..] == done;
    FirstPiece(content, [o] + done, o.start, replace);
    Regroup(content[..o.start], piece, tail);
    assert content[o.start..o.start] + (piece + tail) == piece + tail;
  }

  /** The text so far is original up to `to`, and finished after it. */
  ghost predicate Partway(result: string, content: string, done: seq<Override>, to: nat, replace: Replacer) {
    to <= |content| && result == content[..to] + LeftToRight(content, done, to, replace)
  }

  /** Where the next splice works: the end of the next override, or the start of the text when none is left. */
  function WorksAt(q: seq<Override>): nat {
    if q == [] then 0 else q[0].end
  }

  lemma Restart(result: string, content: string, done: seq<Override>, to: nat, q: seq<Override>, replace: Replacer)
    requires Partway(result, content, done, to, replace) && WorksAt(q) <= to && Before(to, content, done)
    requires done != [] ==> done[0].start <= done[0].end <= |content|
    ensures Partway(result, content, done, WorksAt(q), replace)
  {
    hide LeftToRight;
    LaterStart(content, done, WorksAt(q), to, replace);
  }

  lemma {:induction false} SplicesFrom(result: string, content: string, done: seq<Override>, q: seq<Override>,
                                       replace: Replacer)
    requires InOrder(q) && Falling(q) && (done != [] ==> done[0].start <= done[0].end <= |content|)
    requires Partway(result, content, done, WorksAt(q), replace) && Before(WorksAt(q), content, done)
    ensures Splices(result, q, replace) == Replaced(LeftToRight(content, Reversed(q) + done, 0, replace))
    decreases |q|
  {
    hide LeftToRight, Splices, Piece, Reversed;
    if q == [] {
      ReversedNothing(q);
      assert Reversed(q) + done == done && content[..0] + LeftToRight(content, done, 0, replace) == LeftToRight(content, done, 0, replace);
      SplicesUnfold(result, q, replace);
    } else {
      var o, rest := q[0], q[1..];
      SplicesUnfold(result, q, replace);
      SpliceStep(content, done, o, replace);
      var next := result[..o.start] + Piece(result[o.start..o.end], o, replace) + result[o.end..];
      assert Partway(next, content, [o] + done, o.start, replace);
      assert rest != [] ==> rest[0] == q[1];
      Restart(next, content, [o] + done, o.start, rest, replace);
      SplicesFrom(next, content, [o] + done, rest, replace);
      ReversedFirst(q);
      assert Reversed(rest) + ([o] + done) == Reversed(q) + done;
    }
  }

  lemma SplicesUnfold(result: string, q: seq<Override>, replace: Replacer)
    requires InOrder(q)
    ensures Splices(result, q, replace) ==
            if q == [] then Replaced(result)
            else if q[0].end > |result| then SliceOutOfRange
            else
              Splices(result[..q[0].start] + Piece(result[q[0].start..q[0].end], q[0], replace) + result[q[0].end..],
                      q[1..], replace)
  {
  }

  lemma ReversedNothing(q: seq<Override>)
    requires q == []
    ensures Reversed(q) == []
  {
  }

  lemma {:induction false} ReversedFirst(q: seq<Override>)
    requires q != []
    ensures Reversed(q) == Reversed(q[1..]) + [q[0]]
  {
    if |q| > 1 {
      var init := q[..|q| - 1];
      ReversedFirst(init);
      assert q[1..][..|q| - 2] == init[1..];
    }
  }

  /** For overrides in range and apart, the right-to-left splices never leave the text, hand every callback the
      original stretch, and give the left-to-right substitution. */
  lemma SplicesSubstitute(content: string, q: seq<Override>, replace: Replacer)
    requires InRange(q, |content|) && AllApart(q)
    ensures InOrder(Sort(q)) && Falling(Sort(q))
    ensures Splices(content, Sort(q), replace) == Replaced(LeftToRight(content, Reversed(Sort(q)), 0, replace))
  {
    SortFalls(q);
    SortMembers(q);
    var sorted := Sort(q);
    if sorted != [] {
      assert sorted[0] in q;
    }
    assert content[..WorksAt(sorted)] + content[WorksAt(sorted)..] == content;
    SplicesFrom(content, content, [], sorted, replace);
    assert Reversed(sorted) + [] == Reversed(sorted);
  }

  /** The result does not depend on the order of the tags. */
  lemma OrderDoesNotMatter(content: string, q: seq<Override>, r: seq<Override>, replace: Replacer)
    requires InRange(q, |content|) && AllApart(q) && InRange(r, |content|) && AllApart(r)
    requires forall x :: x in q <==> x in r
    ensures InOrder(Sort(q)) && InOrder(Sort(r))
    ensures Splices(content, Sort(q), replace) == Splices(content, Sort(r), replace)
  {
    SortedAlike(q, r);
    SortFalls(q);
  }

  /** Overlapping overrides can drive the loop out of the text: the later one shortens what the earlier one spans. */
  lemma OverlapFails(replace: Replacer)
    requires forall text: string, t: string :: replace(text, t) == Some("x")
    ensures var q := [Override(0, 4, ""), Override(1, 4, "")];
            && InRange(q, 4) && InOrder(Sort(q)) && Splices("abcd", Sort(q), replace) == SliceOutOfRange
  {
    var a, b := Override(0, 4, ""), Override(1, 4, "");
    assert [a, b][..1] == [a] && [a][..0] == [];
    assert Sort([a]) == Insert([], a) == [a];
    assert Sort([a, b]) == Insert([a], b) == [b, a];
    var q := [b, a];
    var result := "abcd"[..1] + Piece("abcd"[1..4], b, replace) + "abcd"[4..];
    assert |result| == 2;
    assert q[1..] == [a];
    assert Splices(result, [a], replace) == SliceOutOfRange;
  }

  // ---- Exactly when the callbacks see the original text

  /** Every splice stays within the text and hands its callback the original stretch. */
  predicate HandsOriginal(result: string, q: seq<Override>, content: string, replace: Replacer)
    requires InRange(q, |content|)
    decreases |q|
  {
    q == [] ||
    var o := q[0];
    && o.end <= |result| && result[o.start..o.end] == content[o.start..o.end]
    && HandsOriginal(result[..o.start] + Piece(result[o.start..o.end], o, replace) + result[o.end..],
                     q[1..], content, replace)
  }

  /** Each override ends where or before the one processed just before it starts. */
  predicate StepsBack(q: seq<Override>) {
    forall j :: 0 < j < |q| ==> q[j].end <= q[j - 1].start
  }

  lemma {:induction false} HandsFrom(result: string, q: seq<Override>, content: string, to: nat, replace: Replacer)
    requires InRange(q, |content|) && StepsBack(q)
    requires to <= |result| && to <= |content| && result[..to] == content[..to] && (q != [] ==> q[0].end <= to)
    ensures HandsOriginal(result, q, content, replace)
    decreases |q|
  {
    if q != [] {
      hide Piece;
      var o, rest := q[0], q[1..];
      assert q[..|q|] == q;
      SamePrefix(result, content, to, o.start, o.end);
      var next := result[..o.start] + Piece(result[o.start..o.end], o, replace) + result[o.end..];
      assert next[..o.start] == result[..o.start];
      StepsBackRest(q, |q|);
      HandsFrom(next, rest, content, o.start, replace);
    }
  }

  lemma SamePrefix(a: string, b: string, to: nat, i: nat, j: nat)
    requires to <= |a| && to <= |b| && a[..to] == b[..to] && i <= j <= to
    ensures a[i..j] == b[i..j] && a[..i] == b[..i]
  {
    forall k | 0 <= k < to
      ensures a[k] == b[k]
    {
      assert a[..to][k] == b[..to][k];
    }
  }

  lemma StepsBackRest(q: seq<Override>, j: nat)
    requires 0 < j <= |q| && StepsBack(q[..j])
    ensures StepsBack(q[1..][..j - 1]) && q[1..][..j - 1] == q[1..j]
    ensures j == |q| ==> StepsBack(q[1..])
    ensures j > 1 ==> q[1].end <= q[0].start
  {
    var all, rest := q[..j], q[1..][..j - 1];
    forall k | 0 < k < |rest|
      ensures rest[k].end <= rest[k - 1].start
    {
      assert rest[k] == all[k + 1] && rest[k - 1] == all[k];
    }
    if j > 1 {
      assert all[1] == q[1] && all[0] == q[0];
    }
    if j == |q| {
      assert rest == q[1..];
    }
  }

  function Always(c: char): Replacer {
    (text: string, own: string) => Some([c])
  }

  /** Where an override reaches past the start of the one before it, a callback that writes another character there
      is found out. */
  lemma {:induction false} ReachesBack(result: string, q: seq<Override>, content: string, to: nat, j: nat, c: char)
    requires InRange(q, |content|) && Descending(q) && 0 < j < |q|
    requires StepsBack(q[..j]) && q[j].end > q[j - 1].start && c != content[q[j - 1].start]
    requires to <= |result| && to <= |content| && result[..to] == content[..to] && q[0].end <= to
    ensures !HandsOriginal(result, q, content, Always(c))
    decreases |q|
  {
    var o, rest := q[0], q[1..];
    assert Piece(result[o.start..o.end], o, Always(c)) == [c];
    var next := result[..o.start] + [c] + result[o.end..];
    SamePrefix(result, content, to, o.start, o.end);
    assert next[..o.start] == result[..o.start];
    if j == 1 {
      Caught(next, rest, content, o.start, c);
    } else {
      StepsBackRest(q, j);
      ReachesBack(next, rest, content, o.start, j - 1, c);
    }
  }

  lemma Caught(result: string, q: seq<Override>, content: string, at: nat, c: char)
    requires InRange(q, |content|) && q != [] && q[0].start <= at < q[0].end
    requires at < |result| && result[at] == c && c != content[at]
    ensures !HandsOriginal(result, q, content, Always(c))
  {
    var o := q[0];
    if o.end <= |result| {
      assert result[o.start..o.end][at - o.start] == c;
      assert content[o.start..o.end][at - o.start] == content[at];
    }
  }

  /** For overrides in range, in any order the sort may put them: whatever the callback answers, it is always handed
      the original text and no splice leaves the text, if and only if no override reaches past the start of the one
      processed before it. */
  lemma OriginalExactly(content: string, q: seq<Override>, sorted: seq<Override>)
    requires InRange(q, |content|) && IsSorting(q, sorted)
    ensures InRange(sorted, |content|)
    ensures (forall replace :: HandsOriginal(content, sorted, content, replace)) <==> StepsBack(sorted)
  {
    SortingMembers(q, sorted);
    forall i | 0 <= i < |sorted|
      ensures sorted[i].start <= sorted[i].end <= |content|
    {
      InRangeAt(q, |content|, sorted[i]);
    }
    HandsExactly(content, sorted);
  }

  lemma InRangeAt(q: seq<Override>, n: nat, o: Override)
    requires InRange(q, n) && o in q
    ensures o.start <= o.end <= n
  {
  }

  lemma HandsExactly(content: string, q: seq<Override>)
    requires InRange(q, |content|) && Descending(q)
    ensures (forall replace :: HandsOriginal(content, q, content, replace)) <==> StepsBack(q)
  {
    if StepsBack(q) {
      forall replace
        ensures HandsOriginal(content, q, content, replace)
      {
        HandsFrom(content, q, content, |content|, replace);
      }
    } else {
      var j := FirstReach(q);
      var s := q[j - 1].start;
      var c := if content[s] == 'x' then 'y' else 'x';
      ReachesBack(content, q, content, |content|, j, c);
      assert !HandsOriginal(content, q, content, Always(c));
    }
  }

  lemma {:induction false} FirstReach(q: seq<Override>) returns (j: nat)
    requires !StepsBack(q)
    ensures 0 < j < |q| && q[j].end > q[j - 1].start && StepsBack(q[..j])
  {
    var init := q[..|q| - 1];
    if StepsBack(init) {
      j := |q| - 1;
    } else {
      j := FirstReach(init);
      assert init[..j] == q[..j];
    }
  }

  // ---- The method

  method ReplacePMO(content: string, tags: seq<Tag>, replace: Replacer) returns (r: Outcome)
    ensures var pmos := Select(tags, IsPmo());
            var overrides := ParseOverrides(pmos, |content|);
            && (overrides.None? ==> r == Invalid)
            && (overrides.Some? ==> SplicedInOrder(content, overrides.value, replace, r))
            && (overrides.Some? && AllApart(overrides.value) ==>
                  InOrder(Sort(overrides.value)) && r == Splices(content, Sort(overrides.value), replace))
    ensures r.Replaced? && Select(tags, IsPmo()) == [] ==> r.content == content
  {
    hide ParseOverrides, Splices, Select, AllApart, IsSorting;
    var pmos := Select(tags, IsPmo());
    if |pmos| == 0 {
      NothingToSplice(content, replace);
      return Replaced(content);
    }
    var overrides := ReadOverrides(pmos, |content|);
    if overrides.None? {
      return Invalid;
    }
    var sorted := SortOverrides(overrides.value);
    SortingInOrder(overrides.value, sorted);
    r := Run(content, sorted, replace);
    if AllApart(overrides.value) {
      SortingUnique(overrides.value, sorted);
    }
  }

  method ReadOverrides(pmos: seq<Tag>, n: nat) returns (r: Option<seq<Override>>)
    ensures r == ParseOverrides(pmos, n)
  {
    hide ParseOverride;
    var overrides: seq<Override> := [];
    for i := 0 to |pmos|
      invariant ParseOverrides(pmos[..i], n) == Some(overrides)
    {
      assert pmos[..i + 1][..i] == pmos[..i];
      var o := ParseOverride(pmos[i], n);
      if o.None? {
        OneMalformed(pmos, i, n);
        return None;
      }
      overrides := overrides + [o.value];
    }
    assert pmos[..|pmos|] == pmos;
    return Some(overrides);
  }

  lemma NothingToSplice(content: string, replace: Replacer)
    ensures ParseOverrides([], |content|) == Some([]) && Sort([]) == []
    ensures IsSorting([], []) && Splices(content, [], replace) == Replaced(content)
  {
  }

  /** Some order of the overrides by descending start gives the outcome. */
  ghost predicate SplicedInOrder(content: string, q: seq<Override>, replace: Replacer, r: Outcome) {
    exists sorted :: IsSorting(q, sorted) && InOrder(sorted) && r == Splices(content, sorted, replace)
  }

  method Run(content: string, sorted: seq<Override>, replace: Replacer) returns (r: Outcome)
    requires InOrder(sorted)
    ensures r == Splices(content, sorted, replace)
  {
    hide Splices;
    var result := content;
    for i := 0 to |sorted|
      invariant Splices(result, sorted[i..], replace) == Splices(content, sorted, replace)
    {
      var o := sorted[i];
      assert sorted[i..][0] == o && sorted[i..][1..] == sorted[i + 1..];
      if o.end > |result| {
        SplicesUnfold(result, sorted[i..], replace);
        return SliceOutOfRange;
      }
      SplicesUnfold(result, sorted[i..], replace);
      var answer := replace(result[o.start..o.end], o.text);
      var text := o.text;
      if answer.Some? {
        if answer.value != "" {
          text := answer.value;
        }
        result := result[..o.start] + text + result[o.end..];
      } else {
        assert result[..o.start] + result[o.start..o.end] + result[o.end..] == result;
      }
    }
    SplicesUnfold(result, sorted[|sorted|..], replace);
    return Replaced(result);
  }

  lemma SortingInOrder(q: seq<Override>, sorted: seq<Override>)
    requires InOrder(q) && IsSorting(q, sorted)
    ensures InOrder(sorted)
  {
    SortingMembers(q, sorted);
    forall i | 0 <= i < |sorted|
      ensures sorted[i].start <= sorted[i].end
    {
      InOrderAt(q, sorted[i]);
    }
  }

  lemma {:induction false} OneMalformed(tags: seq<Tag>, i: nat, n: nat)
    requires i < |tags| && ParseOverride(tags[i], n).None?
    ensures ParseOverrides(tags, n).None?
  {
    if i < |tags| - 1 {
      OneMalformed(tags[..|tags| - 1], i, n);
    }
  }
}
