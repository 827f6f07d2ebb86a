/**
 * The closed form of the evaluation, for any tags and any version: what the sorted list with all
 * its stops decides, read off the tags around the version and the branches that are stopped.
 */
module VersionClosedForm {
  import opened VersionOrder
  import opened VersionTags
  import opened VersionLaws

  // ----- Stops by branch -----

  /** A "-" stop stands on the first release of the branch. */
  ghost predicate Floored(stops: set<Tag>, b: Version) {
    exists x :: x in stops && x.ver != [] && !x.op.Plus() && Branch(x.ver) == b
  }

  /** A "+" stop stands on the last release of the branch. */
  ghost predicate Capped(stops: set<Tag>, b: Version) {
    exists x :: x in stops && x.ver != [] && x.op.Plus() && Branch(x.ver) == b
  }

  /** "-" stops stand on first releases, "+" stops on last ones, all of branches that have tags. */
  ghost predicate WellStopped(tags: set<Tag>, stops: set<Tag>, l: nat) {
    && l > 0 && Uniform(tags, l) && Uniform(stops, l)
    && (forall x :: x in stops ==> x.ver == if x.op.Plus() then Last(x.ver) else First(x.ver))
    && (forall x :: x in stops ==> exists t :: t in tags && Branch(t.ver) == Branch(x.ver))
  }

  lemma SameBranchOfFirst(v: Version)
    requires |v| > 0
    ensures Branch(First(v)) == Branch(v) && First(First(v)) == First(v)
  {
    assert First(v)[..Keep(|v|)] == v[..Keep(|v|)];
  }

  lemma SameBranchOfLast(v: Version)
    requires |v| > 0
    ensures Branch(Last(v)) == Branch(v) && Last(Last(v)) == Last(v)
  {
    assert Last(v)[..Keep(|v|)] == v[..Keep(|v|)];
  }

  lemma FloorIsThere(tags: set<Tag>, stops: set<Tag>, v: Version)
    requires |v| > 0 && WellStopped(tags, stops, |v|) && Floored(stops, Branch(v))
    ensures exists x :: x in stops && x.ver == First(v) && !x.op.Plus()
  {
    var x :| x in stops && x.ver != [] && !x.op.Plus() && Branch(x.ver) == Branch(v);
    SameBranchSameEnds(x.ver, v);
  }

  lemma CapIsThere(tags: set<Tag>, stops: set<Tag>, v: Version)
    requires |v| > 0 && WellStopped(tags, stops, |v|) && Capped(stops, Branch(v))
    ensures exists x :: x in stops && x.ver == Last(v) && x.op.Plus()
  {
    var x :| x in stops && x.ver != [] && x.op.Plus() && Branch(x.ver) == Branch(v);
    SameBranchSameEnds(x.ver, v);
  }

  /** Versions of different branches compare as their branches do. */
  lemma AcrossBranches(a: Version, b: Version)
    requires |a| == |b| > 0 && Branch(a) != Branch(b)
    ensures Less(a, b) <==> Less(Branch(a), Branch(b))
  {
    var k := Keep(|a|);
    assert a == a[..k] + a[k..] && b == b[..k] + b[k..];
    LessByPrefix(a[..k], a[k..], b[..k], b[k..]);
  }

  /** A version between two of one branch is in that branch. */
  lemma Between(a: Version, b: Version, c: Version)
    requires |a| == |b| == |c| > 0 && Less(a, b) && Less(b, c) && Branch(a) == Branch(c)
    ensures Branch(b) == Branch(a)
  {
    if Branch(b) != Branch(a) {
      AcrossBranches(a, b);
      AcrossBranches(b, c);
      Trichotomy(Branch(a), Branch(b));
    }
  }

  /** The next tag below is of the version's branch if any tag below is. */
  lemma BelowOfBranch(tags: set<Tag>, v: Version, t: Tag) returns (lo: Tag)
    requires |v| > 0 && Uniform(tags, |v|) && t in tags && Branch(t.ver) == Branch(v) && Less(t.ver, v)
    ensures Below(tags, v, lo) && Branch(lo.ver) == Branch(v)
  {
    lo := BelowExists(tags, v, t);
    assert NotAfter(t, lo);
    if t.ver != lo.ver { Between(t.ver, lo.ver, v); }
  }

  lemma AboveOfBranch(tags: set<Tag>, v: Version, t: Tag) returns (hi: Tag)
    requires |v| > 0 && Uniform(tags, |v|) && t in tags && Branch(t.ver) == Branch(v) && Less(v, t.ver)
    ensures Above(tags, v, hi) && Branch(hi.ver) == Branch(v)
  {
    hi := AboveExists(tags, v, t);
    assert NotAfter(hi, t);
    if t.ver != hi.ver { Between(v, hi.ver, t.ver); }
  }

  // ----- The nearest element on each side -----

  /** At the greatest version below, the sign is "+" if any element there is. */
  lemma TopBelow(M: set<Tag>, v: Version, w: Version)
    requires Less(w, v) && (exists u :: u in M && u.ver == w) && forall u :: u in M && Less(u.ver, v) ==> AtMost(u.ver, w)
    ensures (forall x :: Below(M, v, x) ==> x.op.Plus()) <==> exists u :: u in M && u.ver == w && u.op.Plus()
  {
    var y :| y in M && y.ver == w;
    var x := BelowExists(M, v, y);
    assert x.ver == w by {
      assert NotAfter(y, x);
      Trichotomy(x.ver, w);
    }
    NeighboursAreUnique(M, v);
    if u :| u in M && u.ver == w && u.op.Plus() {
      assert NotAfter(u, x);
      Trichotomy(w, w);
    }
  }

  lemma BottomAbove(M: set<Tag>, v: Version, w: Version)
    requires Less(v, w) && (exists u :: u in M && u.ver == w) && forall u :: u in M && Less(v, u.ver) ==> AtMost(w, u.ver)
    ensures (forall x :: Above(M, v, x) ==> !x.op.Plus()) <==> exists u :: u in M && u.ver == w && !u.op.Plus()
  {
    var y :| y in M && y.ver == w;
    var x := AboveExists(M, v, y);
    assert x.ver == w by {
      assert NotAfter(x, y);
      Trichotomy(w, x.ver);
    }
    NeighboursAreUnique(M, v);
    if u :| u in M && u.ver == w && !u.op.Plus() {
      assert NotAfter(x, u);
      Trichotomy(w, w);
    }
  }

  /** Where nothing stands on the version, the signs of its neighbours decide. */
  lemma SignsDecide(M: set<Tag>, v: Version)
    requires Gap(M, v)
    ensures NearestSatisfied(M, v) <==>
            (forall x :: Below(M, v, x) ==> x.op.Plus()) && (forall x :: Above(M, v, x) ==> !x.op.Plus())
  {
    TotalOrder();
    assert forall x :: IsLow(M, v, x) <==> Below(M, v, x);
    assert forall x :: IsHigh(M, v, x) <==> Above(M, v, x);
  }

  // ----- What lies below -----

  /** No tag of the version's branch lies between its end and the version. */
  ghost predicate NonePast(tags: set<Tag>, v: Version)
    requires |v| > 0 && Uniform(tags, |v|)
  {
    forall t :: t in tags && Branch(t.ver) == Branch(v) && Less(t.ver, v) ==> AtMost(t.ver, Last(v))
  }

  /** The stop at the end of the version's own branch is the nearest below: the version is past it, and no tag of the branch is. */
  ghost predicate BehindStop(tags: set<Tag>, stops: set<Tag>, v: Version)
    requires |v| > 0 && Uniform(tags, |v|)
  {
    Capped(stops, Branch(v)) && Less(Last(v), v) && NonePast(tags, v)
  }

  /** Seen from below, the version is open. */
  ghost predicate OpenBelow(tags: set<Tag>, stops: set<Tag>, v: Version)
    requires |v| > 0 && Uniform(tags, |v|)
  {
    || BehindStop(tags, stops, v)
    || if exists lo :: Below(tags, v, lo) && Branch(lo.ver) == Branch(v)
       then forall lo :: Below(tags, v, lo) ==> lo.op.Plus()
       else !Floored(stops, Branch(v))
            && forall lo :: Below(tags, v, lo) ==>
                              lo.op.Plus() || (Capped(stops, Branch(lo.ver)) && AtMost(lo.ver, Last(lo.ver)))
  }

  /** What shares a branch with a version at or below another shares the branch of that one too, or lies below it. */
  lemma BranchAtMost(x: Version, t: Version, lo: Version)
    requires |x| == |t| == |lo| > 0 && Branch(x) == Branch(t) && AtMost(t, lo)
    ensures Branch(x) == Branch(lo) || Less(x, lo)
  {
    if Branch(t) != Branch(lo) {
      AcrossBranches(t, lo);
      AcrossBranches(x, lo);
    }
  }

  lemma BranchAtLeast(x: Version, t: Version, hi: Version)
    requires |x| == |t| == |hi| > 0 && Branch(x) == Branch(t) && AtMost(hi, t)
    ensures Branch(x) == Branch(hi) || Less(hi, x)
  {
    if Branch(t) != Branch(hi) {
      AcrossBranches(hi, t);
      AcrossBranches(hi, x);
    }
  }

  /** A stop below the version, of another branch, has a tag below the version in that branch. */
  lemma StopOfLowerBranch(tags: set<Tag>, stops: set<Tag>, v: Version, x: Tag)
    requires |v| > 0 && WellStopped(tags, stops, |v|) && x in stops && Less(x.ver, v) && Branch(x.ver) != Branch(v)
    ensures exists lo :: Below(tags, v, lo)
    ensures forall lo :: Below(tags, v, lo) ==> Branch(x.ver) == Branch(lo.ver) || Less(x.ver, lo.ver)
  {
    var t :| t in tags && Branch(t.ver) == Branch(x.ver);
    AcrossBranches(x.ver, v);
    AcrossBranches(t.ver, v);
    var low := BelowExists(tags, v, t);
    forall lo | Below(tags, v, lo) ensures Branch(x.ver) == Branch(lo.ver) || Less(x.ver, lo.ver) {
      assert NotAfter(t, lo);
      BranchAtMost(x.ver, t.ver, lo.ver);
    }
  }

  lemma StopOfHigherBranch(tags: set<Tag>, stops: set<Tag>, v: Version, x: Tag)
    requires |v| > 0 && WellStopped(tags, stops, |v|) && x in stops && Less(v, x.ver) && Branch(x.ver) != Branch(v)
    ensures exists hi :: Above(tags, v, hi)
    ensures forall hi :: Above(tags, v, hi) ==> Branch(x.ver) == Branch(hi.ver) || Less(hi.ver, x.ver)
  {
    var t :| t in tags && Branch(t.ver) == Branch(x.ver);
    AcrossBranches(v, x.ver);
    AcrossBranches(v, t.ver);
    var high := AboveExists(tags, v, t);
    forall hi | Above(tags, v, hi) ensures Branch(x.ver) == Branch(hi.ver) || Less(hi.ver, x.ver) {
      assert NotAfter(hi, t);
      BranchAtLeast(x.ver, t.ver, hi.ver);
    }
  }

  lemma SameBranchSameEnds(a: Version, b: Version)
    requires |a| == |b| > 0 && Branch(a) == Branch(b)
    ensures First(a) == First(b) && Last(a) == Last(b)
  {
  }

  lemma FirstBeforeLast(v: Version)
    requires |v| > 0
    ensures AtMost(First(v), v) && AtMost(First(v), Last(v))
  {
    FirstOfBranch(v, v);
    SameBranchOfLast(v);
    FirstOfBranch(v, Last(v));
    SameBranchSameEnds(v, Last(v));
  }

  /** What is to be shown of each mark below: it is at most w. */
  lemma MarksBelow(tags: set<Tag>, stops: set<Tag>, v: Version, w: Version)
    requires |v| == |w| > 0 && WellStopped(tags, stops, |v|)
    requires forall lo :: Below(tags, v, lo) ==>
                            AtMost(lo.ver, w) && (Branch(lo.ver) != Branch(v) ==> AtMost(First(lo.ver), w) && (Capped(stops, Branch(lo.ver)) ==> AtMost(Last(lo.ver), w)))
    requires Floored(stops, Branch(v)) && Less(First(v), v) ==> AtMost(First(v), w)
    requires Capped(stops, Branch(v)) && Less(Last(v), v) ==> AtMost(Last(v), w)
    ensures forall u :: u in tags + stops && Less(u.ver, v) ==> AtMost(u.ver, w)
  {
    forall u | u in tags + stops && Less(u.ver, v) ensures AtMost(u.ver, w) {
      if u in tags {
        var lo := BelowExists(tags, v, u);
        assert NotAfter(u, lo);
        AtMostTransitive(u.ver, lo.ver, w);
      } else {
        if Branch(u.ver) == Branch(v) {
          SameBranchSameEnds(u.ver, v);
        } else {
          StopOfLowerBranch(tags, stops, v, u);
          var lo :| Below(tags, v, lo);
          if Branch(u.ver) == Branch(lo.ver) {
            SameBranchSameEnds(u.ver, lo.ver);
          } else {
            AtMostTransitive(u.ver, lo.ver, w);
          }
        }
      }
    }
  }

  ghost predicate PlusBelow(tags: set<Tag>, stops: set<Tag>, v: Version)
    requires |v| > 0 && Uniform(tags, |v|)
  {
    forall x :: Below(tags + stops, v, x) ==> x.op.Plus()
  }

  /** The marks at a version below, once it is known to be the greatest. */
  lemma PlusAtTop(tags: set<Tag>, stops: set<Tag>, v: Version, w: Version)
    requires |v| == |w| > 0 && WellStopped(tags, stops, |v|) && Less(w, v)
    requires forall u :: u in tags + stops && Less(u.ver, v) ==> AtMost(u.ver, w)
    requires exists u :: u in tags + stops && u.ver == w
    ensures PlusBelow(tags, stops, v) <==> (exists u :: u in tags && u.ver == w && u.op.Plus()) || (w == Last(w) && Capped(stops, Branch(w)))
  {
    var M := tags + stops;
    TopBelow(M, v, w);
    if u :| u in M && u.ver == w && u.op.Plus() {
      if u !in tags { assert u in stops; }
    }
    if w == Last(w) && Capped(stops, Branch(w)) {
      CapIsThere(tags, stops, w);
    }
  }

  lemma BelowBehindStop(tags: set<Tag>, stops: set<Tag>, v: Version)
    requires |v| > 0 && WellStopped(tags, stops, |v|) && BehindStop(tags, stops, v)
    ensures PlusBelow(tags, stops, v)
  {
    var w := Last(v);
    FirstBeforeLast(v);
    forall lo | Below(tags, v, lo)
      ensures AtMost(lo.ver, w)
      ensures Branch(lo.ver) != Branch(v) ==> AtMost(First(lo.ver), w) && AtMost(Last(lo.ver), w)
    {
      if Branch(lo.ver) != Branch(v) { LowerBranchEnds(lo.ver, v, w); }
    }
    MarksBelow(tags, stops, v, w);
    CapIsThere(tags, stops, v);
    SameBranchOfLast(v);
    PlusAtTop(tags, stops, v, w);
  }

  /** A lower branch lies below everything of a branch. */
  lemma LowerBranchEnds(a: Version, v: Version, w: Version)
    requires |a| == |v| == |w| > 0 && Branch(a) != Branch(v) && Branch(w) == Branch(v) && Less(a, v)
    ensures Less(a, w) && Less(First(a), w) && Less(Last(a), w)
  {
    SameBranchOfFirst(a);
    SameBranchOfLast(a);
    AcrossBranches(a, v);
    AcrossBranches(a, w);
    AcrossBranches(First(a), w);
    AcrossBranches(Last(a), w);
  }

  /** A tag of the branch past the stop at its end keeps that stop from being the nearest. */
  lemma NotBehind(tags: set<Tag>, v: Version, lo: Tag)
    requires |v| > 0 && Uniform(tags, |v|) && !NonePast(tags, v) && Below(tags, v, lo)
    ensures Less(Last(v), lo.ver) && lo.ver != Last(v)
  {
    var t :| t in tags && Branch(t.ver) == Branch(v) && Less(t.ver, v) && !AtMost(t.ver, Last(v));
    assert NotAfter(t, lo);
    PastBound(Last(v), t.ver, lo.ver);
  }

  lemma PastBound(w: Version, t: Version, lo: Version)
    requires !AtMost(t, w) && AtMost(t, lo)
    ensures Less(w, lo) && lo != w
  {
    Trichotomy(t, w);
    if t != lo { Transitive(w, t, lo); }
    Trichotomy(w, lo);
  }

  /** The greatest tag below is a "+" tag if any tag of its version is. */
  lemma PlusOfVersion(tags: set<Tag>, v: Version, lo: Tag)
    requires Below(tags, v, lo)
    ensures (exists u :: u in tags && u.ver == lo.ver && u.op.Plus()) <==> lo.op.Plus()
  {
    Trichotomy(lo.ver, lo.ver);
    if u :| u in tags && u.ver == lo.ver && u.op.Plus() {
      assert NotAfter(u, lo);
    }
  }

  lemma MinusOfVersion(tags: set<Tag>, v: Version, hi: Tag)
    requires Above(tags, v, hi)
    ensures (exists u :: u in tags && u.ver == hi.ver && !u.op.Plus()) <==> !hi.op.Plus()
  {
    Trichotomy(hi.ver, hi.ver);
    if u :| u in tags && u.ver == hi.ver && !u.op.Plus() {
      assert NotAfter(hi, u);
    }
  }

  /** With a tag of the version's own branch next below, that tag decides. */
  lemma BelowInBranch(tags: set<Tag>, stops: set<Tag>, v: Version, lo: Tag)
    requires |v| > 0 && WellStopped(tags, stops, |v|) && !BehindStop(tags, stops, v) && Below(tags, v, lo) && Branch(lo.ver) == Branch(v)
    ensures PlusBelow(tags, stops, v) <==> lo.op.Plus()
  {
    NeighboursAreUnique(tags, v);
    SameBranchSameEnds(lo.ver, v);
    FirstBeforeLast(lo.ver);
    if Capped(stops, Branch(v)) && Less(Last(v), v) { NotBehind(tags, v, lo); }
    MarksBelow(tags, stops, v, lo.ver);
    PlusAtTop(tags, stops, v, lo.ver);
    PlusOfVersion(tags, v, lo);
  }

  /** With a stop on the first release of the version's branch next below, the version is closed. */
  lemma BelowAfterStop(tags: set<Tag>, stops: set<Tag>, v: Version)
    requires |v| > 0 && WellStopped(tags, stops, |v|) && !BehindStop(tags, stops, v) && Gap(tags + stops, v)
    requires forall lo :: Below(tags, v, lo) ==> Branch(lo.ver) != Branch(v)
    requires Floored(stops, Branch(v))
    ensures !PlusBelow(tags, stops, v)
  {
    var w := First(v);
    FloorIsThere(tags, stops, v);
    FirstBeforeLast(v);
    NothingOfBranchBelow(tags, v);
    SameBranchOfFirst(v);
    SameBranchSameEnds(w, v);
    forall lo | Below(tags, v, lo) ensures AtMost(lo.ver, w) && AtMost(First(lo.ver), w) && AtMost(Last(lo.ver), w) {
      LowerBranchEnds(lo.ver, v, w);
    }
    MarksBelow(tags, stops, v, w);
    PlusAtTop(tags, stops, v, w);
  }

  lemma NothingOfBranchBelow(tags: set<Tag>, v: Version)
    requires |v| > 0 && Uniform(tags, |v|)
    requires forall lo :: Below(tags, v, lo) ==> Branch(lo.ver) != Branch(v)
    ensures forall t :: t in tags && Branch(t.ver) == Branch(v) ==> !Less(t.ver, v)
  {
    forall t | t in tags && Branch(t.ver) == Branch(v) ensures !Less(t.ver, v) {
      if Less(t.ver, v) {
        var lo := BelowExists(tags, v, t);
        assert NotAfter(t, lo);
        if lo.ver != t.ver { AcrossBranches(lo.ver, v); AcrossBranches(t.ver, lo.ver); Trichotomy(Branch(lo.ver), Branch(v)); }
      }
    }
  }

  lemma BelowOtherBranch(tags: set<Tag>, stops: set<Tag>, v: Version, lo: Tag)
    requires |v| > 0 && WellStopped(tags, stops, |v|) && !BehindStop(tags, stops, v) && Below(tags, v, lo) && Branch(lo.ver) != Branch(v)
    requires !Floored(stops, Branch(v))
    ensures PlusBelow(tags, stops, v) <==> lo.op.Plus() || (Capped(stops, Branch(lo.ver)) && AtMost(lo.ver, Last(lo.ver)))
  {
    NeighboursAreUnique(tags, v);
    NothingOfBranchBelow(tags, v);
    FirstBeforeLast(lo.ver);
    if Capped(stops, Branch(lo.ver)) && AtMost(lo.ver, Last(lo.ver)) {
      LowerBranchEnds(lo.ver, v, v);
      SameBranchOfLast(lo.ver);
      CapIsThere(tags, stops, lo.ver);
      MarksBelow(tags, stops, v, Last(lo.ver));
      PlusAtTop(tags, stops, v, Last(lo.ver));
    } else {
      Trichotomy(lo.ver, Last(lo.ver));
      MarksBelow(tags, stops, v, lo.ver);
      PlusAtTop(tags, stops, v, lo.ver);
      PlusOfVersion(tags, v, lo);
    }
  }

  lemma BelowNothing(tags: set<Tag>, stops: set<Tag>, v: Version)
    requires |v| > 0 && WellStopped(tags, stops, |v|) && !BehindStop(tags, stops, v)
    requires (forall lo :: !Below(tags, v, lo)) && !Floored(stops, Branch(v))
    ensures PlusBelow(tags, stops, v)
  {
    NothingOfBranchBelow(tags, v);
    forall x | x in tags + stops ensures !Less(x.ver, v) {
      if Less(x.ver, v) {
        if x in tags {
          var lo := BelowExists(tags, v, x);
        } else {
          if Branch(x.ver) == Branch(v) { SameBranchSameEnds(x.ver, v); } else { StopOfLowerBranch(tags, stops, v, x); }
        }
      }
    }
  }

  lemma OpenBelowMeaning(tags: set<Tag>, stops: set<Tag>, v: Version)
    requires |v| > 0 && WellStopped(tags, stops, |v|) && Gap(tags + stops, v)
    ensures PlusBelow(tags, stops, v) <==> OpenBelow(tags, stops, v)
  {
    NeighboursAreUnique(tags, v);
    if BehindStop(tags, stops, v) {
      BelowBehindStop(tags, stops, v);
    } else if lo :| Below(tags, v, lo) && Branch(lo.ver) == Branch(v) {
      BelowInBranch(tags, stops, v, lo);
    } else if Floored(stops, Branch(v)) {
      BelowAfterStop(tags, stops, v);
    } else if lo :| Below(tags, v, lo) {
      BelowOtherBranch(tags, stops, v, lo);
    } else {
      BelowNothing(tags, stops, v);
    }
  }

  // ----- What lies above -----

  /** No tag of the version's branch lies between the version and the end of its branch. */
  ghost predicate NoneUpTo(tags: set<Tag>, v: Version)
    requires |v| > 0 && Uniform(tags, |v|)
  {
    forall t :: t in tags && Branch(t.ver) == Branch(v) && Less(v, t.ver) ==> Less(Last(v), t.ver)
  }

  /** The stop at the end of the version's own branch is the nearest above. */
  ghost predicate BeforeStop(tags: set<Tag>, stops: set<Tag>, v: Version)
    requires |v| > 0 && Uniform(tags, |v|)
  {
    Capped(stops, Branch(v)) && Less(v, Last(v)) && NoneUpTo(tags, v)
  }

  /** Seen from above, the version is open. */
  ghost predicate OpenAbove(tags: set<Tag>, stops: set<Tag>, v: Version)
    requires |v| > 0 && Uniform(tags, |v|)
  {
    && !BeforeStop(tags, stops, v)
    && forall hi :: Above(tags, v, hi) ==>
         if Branch(hi.ver) == Branch(v) then !hi.op.Plus()
         else Floored(stops, Branch(hi.ver))
              || (!hi.op.Plus() && !(Capped(stops, Branch(hi.ver)) && Less(Last(hi.ver), hi.ver)))
  }

  ghost predicate MinusAbove(tags: set<Tag>, stops: set<Tag>, v: Version)
    requires |v| > 0 && Uniform(tags, |v|)
  {
    forall x :: Above(tags + stops, v, x) ==> !x.op.Plus()
  }

  lemma MarksAbove(tags: set<Tag>, stops: set<Tag>, v: Version, w: Version)
    requires |v| == |w| > 0 && WellStopped(tags, stops, |v|)
    requires forall hi :: Above(tags, v, hi) ==>
                            AtMost(w, hi.ver) && (Floored(stops, Branch(hi.ver)) && Branch(hi.ver) != Branch(v) ==> AtMost(w, First(hi.ver)))
                            && (Capped(stops, Branch(hi.ver)) && Branch(hi.ver) != Branch(v) ==> AtMost(w, Last(hi.ver)))
    requires Capped(stops, Branch(v)) && Less(v, Last(v)) ==> AtMost(w, Last(v))
    ensures forall u :: u in tags + stops && Less(v, u.ver) ==> AtMost(w, u.ver)
  {
    forall u | u in tags + stops && Less(v, u.ver) ensures AtMost(w, u.ver) {
      if u in tags {
        var hi := AboveExists(tags, v, u);
        assert NotAfter(hi, u);
        AtMostTransitive(w, hi.ver, u.ver);
      } else {
        if Branch(u.ver) == Branch(v) {
          SameBranchSameEnds(u.ver, v);
          FirstBeforeLast(v);
          Trichotomy(v, First(v));
        } else {
          StopOfHigherBranch(tags, stops, v, u);
          var hi :| Above(tags, v, hi);
          if Branch(u.ver) == Branch(hi.ver) {
            SameBranchSameEnds(u.ver, hi.ver);
          } else {
            AtMostTransitive(w, hi.ver, u.ver);
          }
        }
      }
    }
  }

  lemma MinusAtBottom(tags: set<Tag>, stops: set<Tag>, v: Version, w: Version)
    requires |v| == |w| > 0 && WellStopped(tags, stops, |v|) && Less(v, w)
    requires forall u :: u in tags + stops && Less(v, u.ver) ==> AtMost(w, u.ver)
    requires exists u :: u in tags + stops && u.ver == w
    ensures MinusAbove(tags, stops, v) <==> (exists u :: u in tags && u.ver == w && !u.op.Plus()) || (w == First(w) && Floored(stops, Branch(w)))
  {
    var M := tags + stops;
    BottomAbove(M, v, w);
    if u :| u in M && u.ver == w && !u.op.Plus() {
      if u !in tags { assert u in stops; }
    }
    if w == First(w) && Floored(stops, Branch(w)) {
      FloorIsThere(tags, stops, w);
    }
  }

  /** A higher branch lies above everything of a branch. */
  lemma HigherBranchEnds(v: Version, w: Version, b: Version)
    requires |b| == |v| == |w| > 0 && Branch(b) != Branch(v) && Branch(w) == Branch(v) && Less(v, b)
    ensures Less(w, b) && Less(w, First(b)) && Less(w, Last(b))
  {
    SameBranchOfFirst(b);
    SameBranchOfLast(b);
    AcrossBranches(v, b);
    AcrossBranches(w, b);
    AcrossBranches(w, First(b));
    AcrossBranches(w, Last(b));
  }

  /** The first release of a branch is above no version of the branch. */
  lemma NotBeforeFirst(v: Version, w: Version)
    requires |v| == |w| > 0 && Branch(v) == Branch(w) && Less(v, w)
    ensures w != First(w)
  {
    SameBranchSameEnds(v, w);
    FirstBeforeLast(v);
    Trichotomy(v, w);
  }

  lemma AboveBeforeStop(tags: set<Tag>, stops: set<Tag>, v: Version)
    requires |v| > 0 && WellStopped(tags, stops, |v|) && BeforeStop(tags, stops, v)
    ensures !MinusAbove(tags, stops, v)
  {
    var w := Last(v);
    SameBranchOfLast(v);
    forall hi | Above(tags, v, hi)
      ensures AtMost(w, hi.ver) && (Branch(hi.ver) != Branch(v) ==> AtMost(w, First(hi.ver)) && AtMost(w, Last(hi.ver)))
    {
      if Branch(hi.ver) != Branch(v) { HigherBranchEnds(v, w, hi.ver); }
    }
    MarksAbove(tags, stops, v, w);
    CapIsThere(tags, stops, v);
    MinusAtBottom(tags, stops, v, w);
    NotBeforeFirst(v, w);
    Trichotomy(w, w);
  }

  /** A tag of the branch up to the stop at its end keeps that stop from being the nearest. */
  lemma NotBefore(tags: set<Tag>, v: Version, hi: Tag)
    requires |v| > 0 && Uniform(tags, |v|) && !NoneUpTo(tags, v) && Above(tags, v, hi)
    ensures AtMost(hi.ver, Last(v))
  {
    var t :| t in tags && Branch(t.ver) == Branch(v) && Less(v, t.ver) && !Less(Last(v), t.ver);
    assert NotAfter(hi, t);
    Trichotomy(t.ver, Last(v));
    AtMostTransitive(hi.ver, t.ver, Last(v));
  }

  lemma AboveInBranch(tags: set<Tag>, stops: set<Tag>, v: Version, hi: Tag)
    requires |v| > 0 && WellStopped(tags, stops, |v|) && !BeforeStop(tags, stops, v) && Above(tags, v, hi) && Branch(hi.ver) == Branch(v)
    ensures MinusAbove(tags, stops, v) <==> !hi.op.Plus()
  {
    NeighboursAreUnique(tags, v);
    if Capped(stops, Branch(v)) && Less(v, Last(v)) { NotBefore(tags, v, hi); }
    MarksAbove(tags, stops, v, hi.ver);
    MinusAtBottom(tags, stops, v, hi.ver);
    NotBeforeFirst(v, hi.ver);
    MinusOfVersion(tags, v, hi);
  }

  lemma NothingOfBranchAbove(tags: set<Tag>, v: Version, hi: Tag)
    requires |v| > 0 && Uniform(tags, |v|) && Above(tags, v, hi) && Branch(hi.ver) != Branch(v)
    ensures forall t :: t in tags && Branch(t.ver) == Branch(v) ==> !Less(v, t.ver)
  {
    forall t | t in tags && Branch(t.ver) == Branch(v) ensures !Less(v, t.ver) {
      if Less(v, t.ver) {
        assert NotAfter(hi, t);
        AcrossBranches(v, hi.ver);
        AcrossBranches(hi.ver, t.ver);
        Trichotomy(Branch(hi.ver), Branch(v));
      }
    }
  }

  /** Seen from below, a higher branch starts with the stop on its first release. */
  lemma AbovePlusStop(tags: set<Tag>, stops: set<Tag>, v: Version, hi: Tag)
    requires |v| > 0 && WellStopped(tags, stops, |v|) && !BeforeStop(tags, stops, v) && Above(tags, v, hi) && Branch(hi.ver) != Branch(v)
    requires Floored(stops, Branch(hi.ver))
    ensures MinusAbove(tags, stops, v)
  {
    NeighboursAreUnique(tags, v);
    NothingOfBranchAbove(tags, v, hi);
    FirstBeforeLast(hi.ver);
    SameBranchOfFirst(hi.ver);
    HigherBranchEnds(v, v, hi.ver);
    FloorIsThere(tags, stops, hi.ver);
    MarksAbove(tags, stops, v, First(hi.ver));
    MinusAtBottom(tags, stops, v, First(hi.ver));
  }

  /** Or with the stop on its last release, if all its tags lie past that. */
  lemma AboveMinusStop(tags: set<Tag>, stops: set<Tag>, v: Version, hi: Tag)
    requires |v| > 0 && WellStopped(tags, stops, |v|) && !BeforeStop(tags, stops, v) && Above(tags, v, hi) && Branch(hi.ver) != Branch(v)
    requires !Floored(stops, Branch(hi.ver)) && Capped(stops, Branch(hi.ver)) && Less(Last(hi.ver), hi.ver)
    ensures !MinusAbove(tags, stops, v)
  {
    NeighboursAreUnique(tags, v);
    NothingOfBranchAbove(tags, v, hi);
    SameBranchOfLast(hi.ver);
    HigherBranchEnds(v, v, hi.ver);
    CapIsThere(tags, stops, hi.ver);
    MarksAbove(tags, stops, v, Last(hi.ver));
    MinusAtBottom(tags, stops, v, Last(hi.ver));
    forall u | u in tags ensures u.ver != Last(hi.ver) {
      if u.ver == Last(hi.ver) { assert NotAfter(hi, u); Trichotomy(Last(hi.ver), hi.ver); }
    }
  }

  /** Or else with its first tag. */
  lemma AboveTag(tags: set<Tag>, stops: set<Tag>, v: Version, hi: Tag)
    requires |v| > 0 && WellStopped(tags, stops, |v|) && !BeforeStop(tags, stops, v) && Above(tags, v, hi) && Branch(hi.ver) != Branch(v)
    requires !Floored(stops, Branch(hi.ver)) && !(Capped(stops, Branch(hi.ver)) && Less(Last(hi.ver), hi.ver))
    ensures MinusAbove(tags, stops, v) <==> !hi.op.Plus()
  {
    NeighboursAreUnique(tags, v);
    NothingOfBranchAbove(tags, v, hi);
    Trichotomy(Last(hi.ver), hi.ver);
    MarksAbove(tags, stops, v, hi.ver);
    MinusAtBottom(tags, stops, v, hi.ver);
    MinusOfVersion(tags, v, hi);
  }

  lemma AboveOtherBranch(tags: set<Tag>, stops: set<Tag>, v: Version, hi: Tag)
    requires |v| > 0 && WellStopped(tags, stops, |v|) && !BeforeStop(tags, stops, v) && Above(tags, v, hi) && Branch(hi.ver) != Branch(v)
    ensures MinusAbove(tags, stops, v) <==>
            Floored(stops, Branch(hi.ver)) || (!hi.op.Plus() && !(Capped(stops, Branch(hi.ver)) && Less(Last(hi.ver), hi.ver)))
  {
    if Floored(stops, Branch(hi.ver)) {
      AbovePlusStop(tags, stops, v, hi);
    } else if Capped(stops, Branch(hi.ver)) && Less(Last(hi.ver), hi.ver) {
      AboveMinusStop(tags, stops, v, hi);
    } else {
      AboveTag(tags, stops, v, hi);
    }
  }

  lemma AboveNothing(tags: set<Tag>, stops: set<Tag>, v: Version)
    requires |v| > 0 && WellStopped(tags, stops, |v|) && !BeforeStop(tags, stops, v) && forall hi :: !Above(tags, v, hi)
    ensures MinusAbove(tags, stops, v)
  {
    forall x | x in tags + stops ensures !Less(v, x.ver) {
      if Less(v, x.ver) {
        if x in tags {
          var hi := AboveExists(tags, v, x);
        } else {
          if Branch(x.ver) == Branch(v) {
            SameBranchSameEnds(x.ver, v);
            if x.ver == First(x.ver) { NotBeforeFirst(v, x.ver); }
            if t :| t in tags && Less(v, t.ver) { var hi := AboveExists(tags, v, t); }
          } else {
            StopOfHigherBranch(tags, stops, v, x);
          }
        }
      }
    }
  }

  lemma OpenAboveMeaning(tags: set<Tag>, stops: set<Tag>, v: Version)
    requires |v| > 0 && WellStopped(tags, stops, |v|)
    ensures MinusAbove(tags, stops, v) <==> OpenAbove(tags, stops, v)
  {
    NeighboursAreUnique(tags, v);
    if BeforeStop(tags, stops, v) {
      AboveBeforeStop(tags, stops, v);
    } else if hi :| Above(tags, v, hi) {
      if Branch(hi.ver) == Branch(v) { AboveInBranch(tags, stops, v, hi); } else { AboveOtherBranch(tags, stops, v, hi); }
    } else {
      AboveNothing(tags, stops, v);
    }
  }

  // ----- At a tag or a stop -----

  /** A tag whose stop is inclusive: the first release of its branch, written with "=". */
  predicate Touching(t: Tag)
    requires t.ver != []
  {
    t.op.Inclusive() && AllZero(t.ver[Keep(|t.ver|)..])
  }

  lemma ZeroTailIff(v: Version)
    requires |v| > 0
    ensures AllZero(v[Keep(|v|)..]) <==> v == First(v)
  {
    var k := Keep(|v|);
    if AllZero(v[k..]) { ZeroTail(v); }
    if v == First(v) {
      assert forall i :: 0 <= i < |v| - k ==> v[k..][i] == First(v)[k+i];
    }
  }

  /** All stops that stand on the version are inclusive. */
  ghost predicate StopsTouch(stops: set<Tag>, v: Version) {
    forall x :: x in stops && x.ver == v ==> x.op.Inclusive()
  }

  /** A tag or a stop stands on the version. */
  ghost predicate Marked(tags: set<Tag>, stops: set<Tag>, v: Version)
    requires |v| > 0 && Uniform(tags, |v|)
  {
    || (exists t :: t in tags && t.ver == v)
    || (v == First(v) && Floored(stops, Branch(v)))
    || (v == Last(v) && Capped(stops, Branch(v)))
  }

  lemma MarkedMeaning(tags: set<Tag>, stops: set<Tag>, v: Version)
    requires |v| > 0 && WellStopped(tags, stops, |v|)
    ensures Marked(tags, stops, v) <==> !Gap(tags + stops, v)
  {
    if u :| u in tags + stops && u.ver == v {
      if u !in tags { assert u in stops; }
    }
    if v == First(v) && Floored(stops, Branch(v)) { FloorIsThere(tags, stops, v); }
    if v == Last(v) && Capped(stops, Branch(v)) { CapIsThere(tags, stops, v); }
  }

  // ----- The closed form -----

  /** What the nearest of the tags and the stops decide, for any tags, any stops and any version. */
  ghost predicate ClosedMeaning(tags: set<Tag>, stops: set<Tag>, v: Version)
    requires |v| > 0 && Uniform(tags, |v|)
  {
    if Marked(tags, stops, v) then (forall t :: t in tags && t.ver == v ==> t.op.Inclusive()) && StopsTouch(stops, v)
    else OpenBelow(tags, stops, v) && OpenAbove(tags, stops, v)
  }

  lemma MarksForm(tags: set<Tag>, stops: set<Tag>, v: Version)
    requires |v| > 0 && WellStopped(tags, stops, |v|)
    ensures NearestSatisfied(tags + stops, v) <==> ClosedMeaning(tags, stops, v)
  {
    var M := tags + stops;
    MarkedMeaning(tags, stops, v);
    if Marked(tags, stops, v) {
      var u :| u in M && u.ver == v;
      AtTagVersion(M, v, u);
    } else {
      SignsDecide(M, v);
      OpenBelowMeaning(tags, stops, v);
      OpenAboveMeaning(tags, stops, v);
    }
  }

  // ----- The stops of the tags -----

  lemma StopShape(tags: set<Tag>, l: nat, s: Tag, t: Tag)
    requires l > 0 && Uniform(tags, l) && NeedsStop(tags, s, t, s.op.Plus())
    ensures var x, c := StopOf(s, t, l), if s.op.Plus() then t else s;
            && |x.ver| == l && x.op.Plus() == !s.op.Plus() && Branch(x.ver) == Branch(c.ver) && x in Stops(tags, l)
            && x.ver == (if x.op.Plus() then Last(x.ver) else First(x.ver))
            && (x.op.Inclusive() <==> Touching(c))
  {
    AuxVersion(s);
    AuxVersion(t);
    if s.op.Plus() { SameBranchOfFirst(t.ver); } else { SameBranchOfLast(s.ver); }
  }

  lemma StopsAreWell(tags: set<Tag>, l: nat)
    requires l > 0 && Uniform(tags, l)
    ensures WellStopped(tags, Stops(tags, l), l)
  {
    forall x | x in Stops(tags, l)
      ensures |x.ver| == l && x.ver == (if x.op.Plus() then Last(x.ver) else First(x.ver))
      ensures exists t :: t in tags && Branch(t.ver) == Branch(x.ver)
    {
      var s, t := StopOrigin(tags, l, x);
      StopShape(tags, l, s, t);
    }
  }

  /** A branch is stopped by a tag that directly follows one of its sign in another group, or is directly followed by one. */
  lemma StoppedBranches(tags: set<Tag>, l: nat, b: Version)
    requires l > 0 && Uniform(tags, l)
    ensures Floored(Stops(tags, l), b) <==> exists s, t :: NeedsStop(tags, s, t, true) && Branch(t.ver) == b
    ensures Capped(Stops(tags, l), b) <==> exists s, t :: NeedsStop(tags, s, t, false) && Branch(s.ver) == b
  {
    if x :| x in Stops(tags, l) && x.ver != [] && Branch(x.ver) == b {
      forall x | x in Stops(tags, l) && x.ver != [] && Branch(x.ver) == b
        ensures if x.op.Plus() then exists s, t :: NeedsStop(tags, s, t, false) && Branch(s.ver) == b
                else exists s, t :: NeedsStop(tags, s, t, true) && Branch(t.ver) == b
      {
        var s, t := StopOrigin(tags, l, x);
        StopShape(tags, l, s, t);
      }
    }
    if s, t :| NeedsStop(tags, s, t, true) && Branch(t.ver) == b { StopShape(tags, l, s, t); }
    if s, t :| NeedsStop(tags, s, t, false) && Branch(s.ver) == b { StopShape(tags, l, s, t); }
  }

  /** The tag that gives a pair its stop. */
  function Stopped(s: Tag, t: Tag): Tag {
    if s.op.Plus() then t else s
  }

  /** An exclusive stop on a version is that of a tag of its branch that is not its first release, or is exclusive itself. */
  lemma ExclusiveStop(tags: set<Tag>, v: Version) returns (s: Tag, t: Tag)
    requires |v| > 0 && Uniform(tags, |v|) && !StopsTouch(Stops(tags, |v|), v)
    ensures NeedsStop(tags, s, t, s.op.Plus()) && Branch(Stopped(s, t).ver) == Branch(v) && !Touching(Stopped(s, t))
    ensures v == if s.op.Plus() then First(v) else Last(v)
  {
    var x :| x in Stops(tags, |v|) && x.ver == v && !x.op.Inclusive();
    s, t := StopOrigin(tags, |v|, x);
    StopShape(tags, |v|, s, t);
  }

  lemma InclusiveStop(tags: set<Tag>, v: Version, s: Tag, t: Tag)
    requires |v| > 0 && Uniform(tags, |v|) && StopsTouch(Stops(tags, |v|), v)
    requires NeedsStop(tags, s, t, s.op.Plus()) && Branch(Stopped(s, t).ver) == Branch(v)
    requires v == if s.op.Plus() then First(v) else Last(v)
    ensures Touching(Stopped(s, t))
  {
    StopShape(tags, |v|, s, t);
    SameBranchSameEnds(StopOf(s, t, |v|).ver, v);
  }

  /** The closed form of the evaluation, for any tags and any version. */
  lemma ClosedForm(tags: set<Tag>, v: Version)
    requires |v| > 0 && Uniform(tags, |v|)
    ensures Accepted(tags, v) <==> ClosedMeaning(tags, Stops(tags, |v|), v)
  {
    StopsAreWell(tags, |v|);
    MarksForm(tags, Stops(tags, |v|), v);
  }

  // ----- Three components or more -----

  /** A version before the sentinel end of its branch. */
  predicate Ordinary(v: Version)
    requires |v| > 0
  {
    TailBounded(v) && v != Last(v)
  }

  /**
   * The signs and branches of the two neighbours: a "-" below needs another branch and a "-" above,
   * and a "+" above needs another branch and a "+" below.
   */
  ghost predicate NeighboursOpen(tags: set<Tag>, v: Version)
    requires |v| > 0 && Uniform(tags, |v|)
  {
    && (forall lo :: Below(tags, v, lo) ==>
                       lo.op.Plus() || (Branch(lo.ver) != Branch(v) && exists hi :: Above(tags, v, hi) && !hi.op.Plus()))
    && (forall hi :: Above(tags, v, hi) ==>
                       !hi.op.Plus() || (Branch(hi.ver) != Branch(v) && exists lo :: Below(tags, v, lo) && lo.op.Plus()))
  }

  lemma SameBranchAsGroup(s: Version, t: Version)
    requires |s| == |t| > 2
    ensures Group(s) == Group(t) <==> Branch(s) == Branch(t)
  {
  }

  /** The stopped pair of the branch of the next tag above, if that is another branch, is the pair around the version. */
  lemma PairBelow(tags: set<Tag>, v: Version, s: Tag, t: Tag, hi: Tag)
    requires |v| > 2 && Uniform(tags, |v|) && Gap(tags, v) && Above(tags, v, hi)
    requires Adjacent(tags, s, t) && Branch(s.ver) != Branch(t.ver) && Branch(t.ver) == Branch(hi.ver) && Less(v, t.ver)
    ensures t == hi && Below(tags, v, s)
  {
    assert NotAfter(hi, t);
    assert Before(s, hi) by {
      AcrossBranches(s.ver, t.ver);
      AcrossBranches(s.ver, hi.ver);
      BeforeIsTotalOrder();
    }
    assert t == hi by { BeforeIsTotalOrder(); }
    assert Less(s.ver, v) by {
      Trichotomy(s.ver, v);
      if Less(v, s.ver) { assert NotAfter(hi, s); BeforeIsTotalOrder(); }
    }
    AroundGap(tags, v, s, t);
  }

  lemma PairAbove(tags: set<Tag>, v: Version, s: Tag, t: Tag, lo: Tag)
    requires |v| > 2 && Uniform(tags, |v|) && Gap(tags, v) && Below(tags, v, lo)
    requires Adjacent(tags, s, t) && Branch(s.ver) != Branch(t.ver) && Branch(s.ver) == Branch(lo.ver) && Less(s.ver, v)
    ensures s == lo && Above(tags, v, t)
  {
    assert NotAfter(s, lo);
    assert Before(lo, t) by {
      AcrossBranches(s.ver, t.ver);
      AcrossBranches(lo.ver, t.ver);
      BeforeIsTotalOrder();
    }
    assert s == lo by { BeforeIsTotalOrder(); }
    assert Less(v, t.ver) by {
      Trichotomy(t.ver, v);
      if Less(t.ver, v) { assert NotAfter(t, lo); BeforeIsTotalOrder(); }
    }
    AroundGap(tags, v, s, t);
  }

  /** Neighbours of one sign, of which one is of another branch than the version, are a stopped pair. */
  lemma NeighboursAreStopped(tags: set<Tag>, v: Version, lo: Tag, hi: Tag)
    requires |v| > 2 && Uniform(tags, |v|) && Gap(tags, v) && Below(tags, v, lo) && Above(tags, v, hi)
    requires lo.op.Plus() == hi.op.Plus() && (Branch(lo.ver) != Branch(v) || Branch(hi.ver) != Branch(v))
    ensures NeedsStop(tags, lo, hi, lo.op.Plus())
  {
    AdjacentAcrossGap(tags, v, lo, hi);
    if Branch(lo.ver) == Branch(hi.ver) {
      AcrossBranches(lo.ver, v);
      AcrossBranches(v, hi.ver);
      Trichotomy(Branch(lo.ver), Branch(v));
    }
    SameBranchAsGroup(lo.ver, hi.ver);
  }

  lemma PlusStoppedAbove(tags: set<Tag>, v: Version, hi: Tag)
    requires |v| > 2 && Uniform(tags, |v|) && Gap(tags, v) && Above(tags, v, hi) && Branch(hi.ver) != Branch(v)
    ensures Floored(Stops(tags, |v|), Branch(hi.ver)) <==> hi.op.Plus() && exists lo :: Below(tags, v, lo) && lo.op.Plus()
  {
    StoppedBranches(tags, |v|, Branch(hi.ver));
    if s, t :| NeedsStop(tags, s, t, true) && Branch(t.ver) == Branch(hi.ver) {
      HigherBranchEnds(v, v, hi.ver);
      AcrossBranches(v, t.ver);
      AcrossBranches(v, hi.ver);
      SameBranchAsGroup(s.ver, t.ver);
      PairBelow(tags, v, s, t, hi);
    }
    if hi.op.Plus() {
      if lo :| Below(tags, v, lo) && lo.op.Plus() { NeighboursAreStopped(tags, v, lo, hi); }
    }
  }

  lemma MinusStoppedBelow(tags: set<Tag>, v: Version, lo: Tag)
    requires |v| > 2 && Uniform(tags, |v|) && Gap(tags, v) && Below(tags, v, lo) && Branch(lo.ver) != Branch(v)
    ensures Capped(Stops(tags, |v|), Branch(lo.ver)) <==> !lo.op.Plus() && exists hi :: Above(tags, v, hi) && !hi.op.Plus()
  {
    StoppedBranches(tags, |v|, Branch(lo.ver));
    if s, t :| NeedsStop(tags, s, t, false) && Branch(s.ver) == Branch(lo.ver) {
      AcrossBranches(s.ver, v);
      AcrossBranches(lo.ver, v);
      SameBranchAsGroup(s.ver, t.ver);
      PairAbove(tags, v, s, t, lo);
    }
    if !lo.op.Plus() {
      if hi :| Above(tags, v, hi) && !hi.op.Plus() { NeighboursAreStopped(tags, v, lo, hi); }
    }
  }

  /** The "-" stop of the version's own branch, with no tag of the branch below, belongs to a "+" tag of the branch next above. */
  lemma OwnPlusStop(tags: set<Tag>, v: Version)
    requires |v| > 2 && Uniform(tags, |v|) && Gap(tags, v) && Floored(Stops(tags, |v|), Branch(v))
    requires forall lo :: Below(tags, v, lo) ==> Branch(lo.ver) != Branch(v)
    ensures exists hi :: Above(tags, v, hi) && hi.op.Plus() && Branch(hi.ver) == Branch(v)
  {
    StoppedBranches(tags, |v|, Branch(v));
    var s, t :| NeedsStop(tags, s, t, true) && Branch(t.ver) == Branch(v);
    NothingOfBranchBelow(tags, v);
    Trichotomy(t.ver, v);
    var hi := AboveOfBranch(tags, v, t);
    SameBranchAsGroup(s.ver, t.ver);
    PairBelow(tags, v, s, t, hi);
  }

  /** A tag up to the end of the branch, with no tag between the version and that end, lies below the version. */
  lemma StopKeepsBelow(tags: set<Tag>, v: Version, s: Tag)
    requires |v| > 0 && Uniform(tags, |v|) && Gap(tags, v) && NoneUpTo(tags, v) && s in tags && Branch(s.ver) == Branch(v) && AtMost(s.ver, Last(v))
    ensures Less(s.ver, v)
  {
    Trichotomy(s.ver, v);
    Trichotomy(s.ver, Last(v));
  }

  /** The "+" stop of the version's own branch, next above, belongs to a "-" tag of the branch next below. */
  lemma OwnMinusStop(tags: set<Tag>, v: Version)
    requires |v| > 2 && Placed(tags, |v|) && Gap(tags, v) && BeforeStop(tags, Stops(tags, |v|), v)
    ensures exists lo :: Below(tags, v, lo) && !lo.op.Plus() && Branch(lo.ver) == Branch(v)
  {
    StoppedBranches(tags, |v|, Branch(v));
    var s, t :| NeedsStop(tags, s, t, false) && Branch(s.ver) == Branch(v);
    SameBranchSameEnds(s.ver, v);
    LastOfBranch(s.ver, s.ver);
    StopKeepsBelow(tags, v, s);
    var lo := BelowOfBranch(tags, v, s);
    SameBranchAsGroup(s.ver, t.ver);
    PairAbove(tags, v, s, t, lo);
  }

  lemma OrdinaryBelow(tags: set<Tag>, v: Version)
    requires |v| > 2 && Placed(tags, |v|) && Gap(tags, v) && Ordinary(v)
    requires !exists hi :: Above(tags, v, hi) && hi.op.Plus() && Branch(hi.ver) == Branch(v)
    ensures OpenBelow(tags, Stops(tags, |v|), v) <==>
            forall lo :: Below(tags, v, lo) ==> lo.op.Plus() || (Branch(lo.ver) != Branch(v) && exists hi :: Above(tags, v, hi) && !hi.op.Plus())
  {
    NeighboursAreUnique(tags, v);
    LastOfBranch(v, v);
    Trichotomy(v, Last(v));
    if lo :| Below(tags, v, lo) {
      if Branch(lo.ver) != Branch(v) {
        if Floored(Stops(tags, |v|), Branch(v)) { OwnPlusStop(tags, v); }
        MinusStoppedBelow(tags, v, lo);
        if !lo.op.Plus() { LastOfBranch(lo.ver, lo.ver); }
      }
    } else if Floored(Stops(tags, |v|), Branch(v)) {
      OwnPlusStop(tags, v);
    }
  }

  lemma OrdinaryAbove(tags: set<Tag>, v: Version)
    requires |v| > 2 && Placed(tags, |v|) && Gap(tags, v) && Ordinary(v)
    requires !exists lo :: Below(tags, v, lo) && !lo.op.Plus() && Branch(lo.ver) == Branch(v)
    ensures OpenAbove(tags, Stops(tags, |v|), v) <==>
            forall hi :: Above(tags, v, hi) ==> !hi.op.Plus() || (Branch(hi.ver) != Branch(v) && exists lo :: Below(tags, v, lo) && lo.op.Plus())
  {
    NeighboursAreUnique(tags, v);
    if BeforeStop(tags, Stops(tags, |v|), v) { OwnMinusStop(tags, v); }
    if hi :| Above(tags, v, hi) {
      if Branch(hi.ver) != Branch(v) {
        PlusStoppedAbove(tags, v, hi);
        if !hi.op.Plus() {
          LastOfBranch(hi.ver, hi.ver);
          Trichotomy(hi.ver, Last(hi.ver));
        }
      }
    }
  }

  lemma OrdinaryGap(tags: set<Tag>, v: Version)
    requires |v| > 2 && Placed(tags, |v|) && Gap(tags, v) && Ordinary(v)
    ensures OpenBelow(tags, Stops(tags, |v|), v) && OpenAbove(tags, Stops(tags, |v|), v) <==> NeighboursOpen(tags, v)
  {
    NeighboursAreUnique(tags, v);
    LastOfBranch(v, v);
    Trichotomy(v, Last(v));
    if (forall lo :: Below(tags, v, lo) && !lo.op.Plus() ==> Branch(lo.ver) != Branch(v))
       && (forall hi :: Above(tags, v, hi) && hi.op.Plus() ==> Branch(hi.ver) != Branch(v)) {
      OrdinaryBelow(tags, v);
      OrdinaryAbove(tags, v);
    }
  }

  /** A stop on a version in a gap closes it, as its neighbours do. */
  lemma OrdinaryOnStop(tags: set<Tag>, v: Version)
    requires |v| > 2 && Placed(tags, |v|) && Gap(tags, v) && Ordinary(v) && Marked(tags, Stops(tags, |v|), v)
    ensures !StopsTouch(Stops(tags, |v|), v) && !NeighboursOpen(tags, v)
  {
    StoppedBranches(tags, |v|, Branch(v));
    var s, t :| NeedsStop(tags, s, t, true) && Branch(t.ver) == Branch(v);
    ZeroTailIff(t.ver);
    SameBranchSameEnds(t.ver, v);
    assert !Touching(t);
    if StopsTouch(Stops(tags, |v|), v) { InclusiveStop(tags, v, s, t); }
    forall lo | Below(tags, v, lo) ensures Branch(lo.ver) != Branch(v) {
      if Branch(lo.ver) == Branch(v) { NotBeforeFirst(lo.ver, v); }
    }
    OwnPlusStop(tags, v);
  }

  /** The tag stopped on a listed first release is that release: the listed tag would stand between it and the tag before. */
  lemma StoppedIsListed(tags: set<Tag>, v: Version, s: Tag, t: Tag, w: Tag)
    requires |v| > 2 && Uniform(tags, |v|) && w in tags && w.ver == v == First(v)
    requires NeedsStop(tags, s, t, true) && Branch(t.ver) == Branch(v)
    ensures t.ver == v
  {
    SameBranchAsGroup(s.ver, t.ver);
    AcrossBranches(s.ver, t.ver);
    AcrossBranches(s.ver, v);
    SameBranchSameEnds(t.ver, v);
    FirstBeforeLast(t.ver);
    BeforeIsTotalOrder();
  }

  /** At a listed version, a stop is inclusive if the tags of the version are. */
  lemma OrdinaryListed(tags: set<Tag>, v: Version)
    requires |v| > 2 && Uniform(tags, |v|) && !Gap(tags, v) && Ordinary(v)
    requires forall t :: t in tags && t.ver == v ==> t.op.Inclusive()
    ensures StopsTouch(Stops(tags, |v|), v)
  {
    var w :| w in tags && w.ver == v;
    if !StopsTouch(Stops(tags, |v|), v) {
      var s, t := ExclusiveStop(tags, v);
      ZeroTailIff(v);
      StoppedIsListed(tags, v, s, t, w);
    }
  }

  /** On three components or more, away from the sentinel: the tags of the version, or its two neighbours, decide. */
  lemma OrdinaryForm(tags: set<Tag>, v: Version)
    requires |v| > 2 && Placed(tags, |v|) && Ordinary(v)
    ensures Accepted(tags, v) <==> if Gap(tags, v) then NeighboursOpen(tags, v) else forall t :: t in tags && t.ver == v ==> t.op.Inclusive()
  {
    ClosedForm(tags, v);
    if !Gap(tags, v) {
      if forall t :: t in tags && t.ver == v ==> t.op.Inclusive() { OrdinaryListed(tags, v); }
    } else if Marked(tags, Stops(tags, |v|), v) {
      OrdinaryOnStop(tags, v);
    } else {
      OrdinaryGap(tags, v);
    }
  }
}
