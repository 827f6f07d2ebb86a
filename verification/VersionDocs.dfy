/**
 * The documented readings of version tags: which of them hold at every version,
 * and for those that do not, exactly where they fail.
 */
module VersionDocs {
  import opened VersionOrder
  import opened VersionTags
  import opened VersionLaws
  import opened VersionClosedForm
  import opened VersionOneSign

  // ----- Evaluation is a function of the set of tags -----

  /** Neither the order of the tags nor repetition matters. */
  lemma OrderAndRepetitionDoNotMatter(a: seq<Tag>, b: seq<Tag>, v: Version)
    requires |v| > 0 && a != [] && b != []
    requires forall t :: t in a <==> t in b
    requires forall t :: t in a ==> t.ver != []
    ensures Evaluation(a, v) == Evaluation(b, v)
  {
    if forall t :: t in a ==> |t.ver| <= |v| {
      assert PaddedSet(a, |v|) == PaddedSet(b, |v|);
    }
  }

  // ----- Note 3: the branches of the tags -----

  /**
   * Note 3 of the documentation: one tag, the highest of the shortest, covers the branches without
   * tags that follow it, and any tag the later releases of its own branch.
   */
  ghost predicate NoteThree(tags: set<Tag>, top: Tag, v: Version)
    requires |v| > 0 && Uniform(tags, |v|)
  {
    || !Gap(tags, v)
    || ((exists t :: t in tags && Branch(t.ver) == Branch(v)) && LastOfItsBranch(tags, v))
    || ((forall t :: t in tags ==> Branch(t.ver) != Branch(v)) && Less(top.ver, v))
  }

  /** A version of a branch without tags, after some tag and before the top one. */
  ghost predicate BetweenBranches(tags: set<Tag>, top: Tag, v: Version)
    requires |v| > 0 && Uniform(tags, |v|)
  {
    && (exists t :: t in tags && Less(t.ver, v))
    && Less(v, top.ver)
    && (forall t :: t in tags ==> Branch(t.ver) != Branch(v))
  }

  /** The highest of the shortest tags, as they are written. */
  ghost predicate IsTop(tags: seq<Tag>, top: Tag) {
    top in tags && forall t :: t in tags ==> |top.ver| <= |t.ver| && (|t.ver| == |top.ver| ==> AtMost(t.ver, top.ver))
  }

  lemma {:induction false} TopExists(tags: seq<Tag>) returns (top: Tag)
    requires tags != []
    ensures IsTop(tags, top)
  {
    var rest, last := tags[..|tags|-1], tags[|tags|-1];
    assert forall t :: t in tags <==> t in rest || t == last;
    if rest == [] {
      top := last;
    } else {
      top := TopExists(rest);
      Trichotomy(last.ver, top.ver);
      if |last.ver| < |top.ver| || (|last.ver| == |top.ver| && Less(top.ver, last.ver)) {
        forall t | t in rest && |t.ver| == |last.ver| ensures AtMost(t.ver, last.ver) { AtMostTransitive(t.ver, top.ver, last.ver); }
        top := last;
      }
    }
  }

  /** The evaluation also accepts the branches between the tags; nothing else but a misplaced stop differs from note 3. */
  lemma NoteThreeExactly(tags: set<Tag>, top: Tag, v: Version)
    requires |v| > 0 && Uniform(tags, |v|) && OnlyOp(tags, Ge) && top in tags
    ensures Accepted(tags, v) <==> ((NoteThree(tags, top, v) || BetweenBranches(tags, top, v)) != Misplaced(tags, v))
    ensures !(NoteThree(tags, top, v) && BetweenBranches(tags, top, v)) && (Misplaced(tags, v) ==> |v| == 2)
  {
    PlusTagsExactly(tags, v);
    forall t | t in tags && t.ver != v ensures Less(t.ver, v) <==> !Less(v, t.ver) { Trichotomy(t.ver, v); }
    Trichotomy(top.ver, v);
  }

  /** The same for a list of "+=" tags as written, of any lengths up to that of the version. */
  lemma NoteThreeAsWritten(tags: seq<Tag>, top: Tag, v: Version)
    requires |v| > 0 && (forall t :: t in tags ==> t.op.Ge? && 0 < |t.ver| <= |v|) && IsTop(tags, top)
    ensures var P, t := PaddedSet(tags, |v|), Padded(top, |v|);
            Evaluation(tags, v) == Verdict((NoteThree(P, t, v) || BetweenBranches(P, t, v)) != Misplaced(P, v))
  {
    assert Padded(top, |v|) in PaddedSet(tags, |v|);
    NoteThreeExactly(PaddedSet(tags, |v|), Padded(top, |v|), v);
  }

  /** A version of a branch between those of two "+=" tags is accepted, which note 3 does not say. */
  lemma AcceptedBetween(s: Tag, t: Tag, v: Version)
    requires |s.ver| == |t.ver| == |v| > 2 && s.op.Ge? && t.op.Ge? && Less(s.ver, v) && Less(v, t.ver)
    requires Branch(s.ver) != Branch(v) && Branch(t.ver) != Branch(v)
    ensures IsTop([s, t], t) && Uniform({s, t}, |v|) && Evaluation([s, t], v) == Verdict(true) && !NoteThree({s, t}, t, v)
  {
    PaddedPair(s, t, |v|);
    Transitive(s.ver, v, t.ver);
    assert s in {s, t} && BetweenBranches({s, t}, t, v);
    NoteThreeExactly({s, t}, t, v);
    assert t in [s, t];
    NoteThreeAsWritten([s, t], t, v);
  }

  /** So "+=1.26.4 +=1.28.2" accepts 1.27.0, which note 3 does not cover. */
  lemma NoteThreeFails()
    ensures var s, t, v := Tag(Ge, [1, 26, 4]), Tag(Ge, [1, 28, 2]), [1, 27, 0];
            IsTop([s, t], t) && Evaluation([s, t], v) == Verdict(true) && !NoteThree({s, t}, t, v)
  {
    var s, t, v := Tag(Ge, [1, 26, 4]), Tag(Ge, [1, 28, 2]), [1, 27, 0];
    assert Branch(v)[1] == 27 && Branch(s.ver)[1] == 26 && Branch(t.ver)[1] == 28;
    assert Less(s.ver, v) && Less(v, t.ver) by {
      assert v[1..] == [27, 0] && s.ver[1..] == [26, 4] && t.ver[1..] == [28, 2];
    }
    AcceptedBetween(s, t, v);
  }

  // ----- Ranges and holes -----

  /** Strictly increasing versions, each with "+=" or "-=", no two in a row of the same sign. */
  ghost predicate Alternating(tags: seq<Tag>, l: nat) {
    && (forall t :: t in tags ==> |t.ver| == l && t.op.Inclusive())
    && (forall i, j :: 0 <= i < j < |tags| ==> Less(tags[i].ver, tags[j].ver))
    && (forall i :: 0 < i < |tags| ==> tags[i-1].op != tags[i].op)
  }

  /** The i-th interval: from the "+=" before position i, if any, to the "-=" at position i, if any. */
  predicate InInterval(tags: seq<Tag>, v: Version, i: nat)
    requires i <= |tags|
  {
    && (i > 0 ==> tags[i-1].op.Ge? && AtMost(tags[i-1].ver, v))
    && (i < |tags| ==> tags[i].op.Le? && AtMost(v, tags[i].ver))
  }

  lemma AlternatingHasNoStops(tags: seq<Tag>, l: nat)
    requires l > 0 && Alternating(tags, l)
    ensures Uniform(Elements(tags), l) && Stops(Elements(tags), l) == {}
  {
    if x :| x in Stops(Elements(tags), l) {
      var s, t := StopOrigin(Elements(tags), l, x);
      var k := AdjacentIsConsecutive(tags, s, t);
      assert false;
    }
  }

  /** The place of a version among increasing tags: at one of them, or between two. */
  lemma Position(tags: seq<Tag>, v: Version) returns (i: nat)
    requires forall i, j :: 0 <= i < j < |tags| ==> Less(tags[i].ver, tags[j].ver)
    ensures i <= |tags|
    ensures forall k :: 0 <= k < i ==> Less(tags[k].ver, v)
    ensures forall k :: i <= k < |tags| ==> AtMost(v, tags[k].ver) && (k > i ==> Less(v, tags[k].ver))
  {
    TotalOrder();
    i := 0;
    while i < |tags| && Less(tags[i].ver, v)
      invariant i <= |tags| && forall k :: 0 <= k < i ==> Less(tags[k].ver, v)
    {
      i := i + 1;
    }
  }

  /** Alternating tags accept exactly the union of the closed intervals from each "+=" to the next "-=". */
  lemma AlternatingRanges(tags: seq<Tag>, v: Version)
    requires |v| > 0 && Alternating(tags, |v|)
    ensures Uniform(Elements(tags), |v|)
    ensures Accepted(Elements(tags), v) <==> exists i :: 0 <= i <= |tags| && InInterval(tags, v, i)
  {
    var P := Elements(tags);
    AlternatingHasNoStops(tags, |v|);
    assert P + Stops(P, |v|) == P;
    var i := Position(tags, v);
    if i < |tags| && tags[i].ver == v {
      AtTagVersion(P, v, tags[i]);
      assert InInterval(tags, v, if tags[i].op.Le? then i else i + 1);
    } else {
      GapBetween(tags, v, i);
      if j :| 0 <= j <= |tags| && InInterval(tags, v, j) {
        assert j == i by { TotalOrder(); }
      }
    }
  }

  lemma LowInGap(tags: seq<Tag>, v: Version, i: nat)
    requires i <= |tags| && forall i, j :: 0 <= i < j < |tags| ==> Less(tags[i].ver, tags[j].ver)
    requires forall k :: 0 <= k < i ==> Less(tags[k].ver, v)
    requires forall k :: i <= k < |tags| ==> Less(v, tags[k].ver)
    ensures forall u :: IsLow(Elements(tags), v, u) <==> i > 0 && u == tags[i-1]
  {
    BeforeIsTotalOrder();
    TotalOrder();
    assert i > 0 ==> IsLow(Elements(tags), v, tags[i-1]);
  }

  lemma HighInGap(tags: seq<Tag>, v: Version, i: nat)
    requires i <= |tags| && forall i, j :: 0 <= i < j < |tags| ==> Less(tags[i].ver, tags[j].ver)
    requires forall k :: 0 <= k < i ==> Less(tags[k].ver, v)
    requires forall k :: i <= k < |tags| ==> Less(v, tags[k].ver)
    ensures forall u :: IsHigh(Elements(tags), v, u) <==> i < |tags| && u == tags[i]
  {
    BeforeIsTotalOrder();
    TotalOrder();
    assert i < |tags| ==> IsHigh(Elements(tags), v, tags[i]);
  }

  lemma InclusiveInGap(t: Tag, v: Version)
    requires t.op.Inclusive() && t.ver != v
    ensures Satisfied(t, v) <==> if t.op.Ge? then Less(t.ver, v) else Less(v, t.ver)
  {
  }

  lemma GapBetween(tags: seq<Tag>, v: Version, i: nat)
    requires |v| > 0 && i <= |tags| && forall t :: t in tags ==> t.op.Inclusive()
    requires forall i, j :: 0 <= i < j < |tags| ==> Less(tags[i].ver, tags[j].ver)
    requires forall k :: 0 <= k < i ==> Less(tags[k].ver, v)
    requires forall k :: i <= k < |tags| ==> Less(v, tags[k].ver)
    ensures NearestSatisfied(Elements(tags), v) <==> InInterval(tags, v, i)
  {
    LowInGap(tags, v, i);
    HighInGap(tags, v, i);
    var low := i > 0 ==> Satisfied(tags[i-1], v);
    var high := i < |tags| ==> Satisfied(tags[i], v);
    assert NearestSatisfied(Elements(tags), v) <==> low && high;
    assert low <==> (i > 0 ==> tags[i-1].op.Ge? && AtMost(tags[i-1].ver, v)) by {
      if i > 0 {
        assert tags[i-1].op.Inclusive();
        Trichotomy(tags[i-1].ver, v);
        InclusiveInGap(tags[i-1], v);
      }
    }
    assert high <==> (i < |tags| ==> tags[i].op.Le? && AtMost(v, tags[i].ver)) by {
      if i < |tags| {
        assert tags[i].op.Inclusive();
        Trichotomy(v, tags[i].ver);
        InclusiveInGap(tags[i], v);
      }
    }
  }
}
