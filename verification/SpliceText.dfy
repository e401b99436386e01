/** Overrides as their tags are written: `["pmo", "<start>:<end>", <text>]`. */
module SpliceText {
  import opened Optional
  import opened Strconv
  import opened Text
  import opened Nostr
  import opened Seqs
  import opened Community
  import opened AttestationString
  import opened Splice

  function Written(start: int, end: int, text: string): Tag {
    ["pmo", Itoa(start) + ":" + Itoa(end), text]
  }

  lemma TwoParts(a: string, b: string)
    requires Free(a, ':') && Free(b, ':')
    ensures Split(a + ":" + b, ':') == [a, b]
  {
    var parts := [a, b];
    assert parts[1..] == [b] && Join([b], ':') == b;
    assert Join(parts, ':') == a + ":" + b;
    SplitJoin(parts, ':');
  }

  /** A tag as it is written is read as the override it writes, if its positions lie in order within the content. */
  lemma WrittenIsRead(start: int, end: int, text: string, n: nat)
    requires Fits(start) && Fits(end)
    ensures ParseOverride(Written(start, end, text), n) ==
            if 0 <= start <= end <= n then Some(Override(start, end, text)) else None
  {
    hide Itoa, Atoi, Split, Free;
    NumbersHaveNoSeparators(start);
    NumbersHaveNoSeparators(end);
    TwoParts(Itoa(start), Itoa(end));
    AtoiItoa(start);
    AtoiItoa(end);
  }

  /** What the answer puts in the place of a stretch of text: an answer that is not empty, else the override's own
      text, and nothing new when there is no answer. */
  function Put(between: string, text: string, replace: Replacer): string {
    if replace(between, text).None? then between
    else if replace(between, text).value == "" then text
    else replace(between, text).value
  }

  lemma OneSplice(content: string, start: nat, end: nat, text: string, replace: Replacer)
    requires start <= end <= |content|
    ensures AllApart([Override(start, end, text)]) && InOrder([Override(start, end, text)])
    ensures Splices(content, [Override(start, end, text)], replace) ==
            Replaced(content[..start] + Put(content[start..end], text, replace) + content[end..])
  {
    var q := [Override(start, end, text)];
    assert q[0] == Override(start, end, text) && q[1..] == [];
    assert Splices(content[..start] + Piece(content[start..end], q[0], replace) + content[end..], [], replace) ==
           Replaced(content[..start] + Piece(content[start..end], q[0], replace) + content[end..]);
  }

  /** One override, from the tag to the new content: ReplacePMO's contract read off a single `pmo` tag. */
  lemma OneTagSpliced(content: string, start: nat, end: nat, text: string, replace: Replacer, sorted: seq<Override>)
    requires start <= end <= |content| && Fits(|content|)
    ensures var overrides := ParseOverrides(Select([Written(start, end, text)], IsPmo()), |content|);
            && overrides == Some([Override(start, end, text)])
            && (IsSorting(overrides.value, sorted) && InOrder(sorted) ==>
                  Splices(content, sorted, replace) ==
                  Replaced(content[..start] + Put(content[start..end], text, replace) + content[end..]))
  {
    var tag := Written(start, end, text);
    WrittenIsRead(start, end, text, |content|);
    assert StartsWith(tag, ["pmo"]);
    assert [tag][1..] == [] && Select([tag], IsPmo()) == [tag];
    assert [tag][..0] == [] && ParseOverrides([tag], |content|) == Some([] + [Override(start, end, text)]);
    assert [] + [Override(start, end, text)] == [Override(start, end, text)];
    OneSplice(content, start, end, text, replace);
    var q := [Override(start, end, text)];
    if IsSorting(q, sorted) && InOrder(sorted) {
      OnlySorting(q, sorted);
    }
  }

  lemma OnlySorting(q: seq<Override>, sorted: seq<Override>)
    requires |q| == 1 && IsSorting(q, sorted)
    ensures sorted == q
  {
    SortingMembers(q, sorted);
    assert |sorted| == |multiset(sorted)| == |multiset(q)| == 1;
    assert q[0] in q && sorted[0] in sorted;
  }
}
