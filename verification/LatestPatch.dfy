/** The latest of a community's patches, of those that satisfy a condition: newest, ties going to the later in the list. */
module LatestPatch {
  import opened Optional
  import opened Nostr
  import opened Community

  /** No patch that satisfies the condition is newer, nor as new and further on in the list. */
  predicate IsLatestOf(patches: seq<Event>, q: Event -> bool, i: int) {
    && 0 <= i < |patches| && q(patches[i])
    && forall j :: 0 <= j < |patches| && q(patches[j]) ==>
         patches[j].createdAt < patches[i].createdAt || (patches[j].createdAt == patches[i].createdAt && j <= i)
  }

  /** The last in the list. */
  function LastOf(patches: seq<Event>, q: Event -> bool): (e: Option<Event>)
    ensures e.Some? ==> q(e.value)
  {
    if patches == [] then None
    else if q(patches[|patches| - 1]) then Some(patches[|patches| - 1])
    else LastOf(patches[..|patches| - 1], q)
  }

  predicate InTimeOrder(patches: seq<Event>) {
    forall i, j :: 0 <= i < j < |patches| ==> patches[i].createdAt <= patches[j].createdAt
  }

  lemma {:induction false} InsertKeepsOrder(sorted: seq<Event>, e: Event)
    requires InTimeOrder(sorted)
    ensures InTimeOrder(Insert(sorted, e))
  {
    if sorted != [] && sorted[|sorted| - 1].createdAt > e.createdAt {
      var init := sorted[..|sorted| - 1];
      InsertKeepsOrder(init, e);
      InsertMembers(init, e);
      var longer := Insert(init, e);
      forall i | 0 <= i < |longer|
        ensures longer[i].createdAt <= sorted[|sorted| - 1].createdAt
      {
        assert longer[i] in longer;
      }
    }
  }

  lemma {:induction false} LastOfIsThere(sorted: seq<Event>, q: Event -> bool)
    ensures var n := LastOf(sorted, q);
            n.Some? ==> exists i :: 0 <= i < |sorted| && sorted[i] == n.value && q(sorted[i])
  {
    if sorted != [] && !q(sorted[|sorted| - 1]) {
      LastOfIsThere(sorted[..|sorted| - 1], q);
    }
  }

  lemma {:induction false} LastOfInsert(sorted: seq<Event>, e: Event, q: Event -> bool)
    requires InTimeOrder(sorted)
    ensures var n := LastOf(sorted, q);
            LastOf(Insert(sorted, e), q) ==
            if q(e) && (n.None? || n.value.createdAt <= e.createdAt) then Some(e) else n
  {
    if sorted == [] || sorted[|sorted| - 1].createdAt <= e.createdAt {
      assert (sorted + [e])[..|sorted|] == sorted;
      LastOfIsThere(sorted, q);
    } else {
      var init, last := sorted[..|sorted| - 1], sorted[|sorted| - 1];
      LastOfInsert(init, e, q);
      assert (Insert(init, e) + [last])[..|Insert(init, e)|] == Insert(init, e);
    }
  }

  /** In time order, stable on ties, the last patch is the latest one. */
  lemma {:induction false} LastOfIsLatest(patches: seq<Event>, q: Event -> bool)
    ensures InTimeOrder(TimeOrder(patches))
    ensures LastOf(TimeOrder(patches), q).None? <==> forall i :: 0 <= i < |patches| ==> !q(patches[i])
    ensures LastOf(TimeOrder(patches), q).Some? ==>
              exists i :: 0 <= i < |patches| && IsLatestOf(patches, q, i) && LastOf(TimeOrder(patches), q) == Some(patches[i])
  {
    hide IsLatestOf;
    if patches != [] {
      var init, e := patches[..|patches| - 1], patches[|patches| - 1];
      assert patches == init + [e];
      LastOfIsLatest(init, q);
      InsertKeepsOrder(TimeOrder(init), e);
      LastOfInsert(TimeOrder(init), e, q);
      var n := LastOf(TimeOrder(init), q);
      var i := -1;
      if n.Some? {
        i :| 0 <= i < |init| && IsLatestOf(init, q, i) && n == Some(init[i]);
      }
      LatestStep(init, e, q, i);
      assert n.Some? ==> patches[i] == init[i];
    }
  }

  /** Which patch is the latest once one more is listed. */
  lemma LatestStep(init: seq<Event>, e: Event, q: Event -> bool, i: int)
    requires if i < 0 then forall j :: 0 <= j < |init| ==> !q(init[j]) else IsLatestOf(init, q, i)
    ensures i < 0 || 0 <= i < |init|
    ensures var patches := init + [e];
            if q(e) && (i < 0 || init[i].createdAt <= e.createdAt) then IsLatestOf(patches, q, |init|)
            else if i >= 0 then IsLatestOf(patches, q, i)
            else forall j :: 0 <= j < |patches| ==> !q(patches[j])
    ensures i >= 0 ==> exists j :: 0 <= j < |init| && q(init[j])
  {
    var patches := init + [e];
    assert forall j :: 0 <= j < |init| ==> patches[j] == init[j];
    assert i >= 0 ==> q(init[i]);
  }

  lemma OneLatestOf(patches: seq<Event>, q: Event -> bool, i: int)
    requires IsLatestOf(patches, q, i)
    ensures 0 <= i < |patches| && q(patches[i])
    ensures forall k :: IsLatestOf(patches, q, k) ==> k == i
  {
  }
}
