/**
 * Notes 4 and 5 of the documentation: the stops can be written out as tags. Written stops are
 * tags like any other and can call for further stops. This says when they do, and what the
 * evaluation of the written list then is at every version.
 */
module VersionWrittenStops {
  import opened VersionOrder
  import opened VersionTags
  import opened VersionLaws
  import opened VersionClosedForm
  import opened VersionOneSign

  /** The tags with their stops written out. */
  ghost function Written(tags: set<Tag>, l: nat): set<Tag>
    requires l > 0 && Uniform(tags, l)
  {
    tags + Stops(tags, l)
  }

  lemma WrittenIsUniform(tags: set<Tag>, l: nat)
    requires l > 0 && Uniform(tags, l)
    ensures Uniform(Written(tags, l), l)
  {
    StopsAreWell(tags, l);
  }

  /** If writing the stops out calls for no further stop, it changes no verdict, for versions of any length. */
  lemma StopsCanBeWritten(tags: set<Tag>, v: Version)
    requires |v| > 0 && Uniform(tags, |v|)
    ensures Uniform(Written(tags, |v|), |v|)
    ensures Stops(Written(tags, |v|), |v|) <= Written(tags, |v|) ==> (Accepted(Written(tags, |v|), v) <==> Accepted(tags, v))
  {
    var M := Written(tags, |v|);
    WrittenIsUniform(tags, |v|);
    if Stops(M, |v|) <= M {
      assert M + Stops(M, |v|) == M;
    }
  }

  // ----- Order -----

  /** The first of the tags after a given one. */
  lemma NextTag(M: set<Tag>, a: Tag, u: Tag) returns (n: Tag)
    requires u in M && Before(a, u)
    ensures n in M && Before(a, n) && NotAfter(n, u) && forall w :: w in M && Before(a, w) ==> NotAfter(n, w)
  {
    var later := set w | w in M && Before(a, w);
    n := Least(later, u);
  }

  /** The last of the tags before a given one. */
  lemma PreviousTag(M: set<Tag>, b: Tag, u: Tag) returns (p: Tag)
    requires u in M && Before(u, b)
    ensures p in M && Before(p, b) && NotAfter(u, p) && forall w :: w in M && Before(w, b) ==> NotAfter(w, p)
  {
    var earlier := set w | w in M && Before(w, b);
    p := Greatest(earlier, u);
  }

  lemma NextIsAdjacent(M: set<Tag>, a: Tag, n: Tag)
    requires a in M && n in M && Before(a, n) && forall w :: w in M && Before(a, w) ==> NotAfter(n, w)
    ensures Adjacent(M, a, n)
  {
    forall u | u in M ensures !(Before(a, u) && Before(u, n)) {
      BeforeTrichotomy(n, u);
    }
  }

  lemma PreviousIsAdjacent(M: set<Tag>, p: Tag, b: Tag)
    requires b in M && p in M && Before(p, b) && forall w :: w in M && Before(w, b) ==> NotAfter(w, p)
    ensures Adjacent(M, p, b)
  {
    forall u | u in M ensures !(Before(p, u) && Before(u, b)) {
      BeforeTrichotomy(u, p);
    }
  }

  // ----- Lists of one sign -----

  /** A "-" stop stands before a "+" tag of its branch. */
  lemma FloorHasTag(tags: set<Tag>, l: nat, x: Tag) returns (t: Tag)
    requires l > 0 && Uniform(tags, l) && x in Stops(tags, l) && !x.op.Plus()
    ensures t in tags && t.op.Plus() && |x.ver| == l && Branch(t.ver) == Branch(x.ver) && x.ver == First(x.ver) && Before(x, t)
  {
    var s;
    s, t := StopOrigin(tags, l, x);
    StopShape(tags, l, s, t);
    SameBranchSameEnds(x.ver, t.ver);
    FirstBeforeLast(t.ver);
  }

  /** A "+" stop stands after a "-" tag of its branch, unless that is past the sentinel. */
  lemma CapHasTag(tags: set<Tag>, l: nat, x: Tag) returns (s: Tag)
    requires l > 0 && Uniform(tags, l) && x in Stops(tags, l) && x.op.Plus()
    ensures s in tags && !s.op.Plus() && |x.ver| == l && Branch(s.ver) == Branch(x.ver) && x.ver == Last(x.ver)
    ensures TailBounded(s.ver) ==> Before(s, x)
  {
    var t;
    s, t := StopOrigin(tags, l, x);
    StopShape(tags, l, s, t);
    SameBranchSameEnds(x.ver, s.ver);
    if TailBounded(s.ver) { LastOfBranch(s.ver, s.ver); }
  }

  /** Two tags that are adjacent with the stops among them are adjacent without. */
  lemma AdjacentTags(tags: set<Tag>, l: nat, a: Tag, b: Tag, plus: bool)
    requires l > 0 && Uniform(tags, l) && a in tags && b in tags && NeedsStop(Written(tags, l), a, b, plus)
    ensures StopOf(a, b, l) in Stops(tags, l)
  {
    assert NeedsStop(tags, a, b, plus);
  }

  /** Two "-" stops of different branches have a "+" tag between them. */
  lemma FloorsAreApart(tags: set<Tag>, l: nat, a: Tag, b: Tag)
    requires l > 0 && Uniform(tags, l) && a in Stops(tags, l) && b in Stops(tags, l) && !a.op.Plus() && !b.op.Plus()
    requires Before(a, b) && a.ver != b.ver
    ensures !Adjacent(Written(tags, l), a, b)
  {
    var t := FloorHasTag(tags, l, a);
    var u := FloorHasTag(tags, l, b);
    FirstsInOrder(a.ver, b.ver, t.ver);
    assert Before(t, b);
  }

  /** What shares the branch of a first release lies before any later first release. */
  lemma FirstsInOrder(a: Version, b: Version, t: Version)
    requires |a| == |b| == |t| > 0 && a == First(a) && b == First(b) && Less(a, b) && Branch(t) == Branch(a)
    ensures Less(t, b) && Branch(a) != Branch(b)
  {
    Trichotomy(a, b);
    if Branch(a) == Branch(b) { SameBranchSameEnds(a, b); }
    AcrossBranches(a, b);
    AcrossBranches(t, b);
  }

  lemma LastsInOrder(a: Version, b: Version, s: Version)
    requires |a| == |b| == |s| > 0 && a == Last(a) && b == Last(b) && Less(a, b) && Branch(s) == Branch(b)
    ensures Less(a, s) && Branch(a) != Branch(b)
  {
    Trichotomy(a, b);
    if Branch(a) == Branch(b) { SameBranchSameEnds(a, b); }
    AcrossBranches(a, b);
    AcrossBranches(a, s);
  }

  /** Two "+" stops of different branches have a "-" tag between them. */
  lemma CapsAreApart(tags: set<Tag>, l: nat, a: Tag, b: Tag)
    requires l > 0 && Uniform(tags, l) && a in Stops(tags, l) && b in Stops(tags, l) && a.op.Plus() && b.op.Plus()
    requires Before(a, b) && a.ver != b.ver && forall t :: t in tags && !t.op.Plus() ==> TailBounded(t.ver)
    ensures !Adjacent(Written(tags, l), a, b)
  {
    var r := CapHasTag(tags, l, a);
    var s := CapHasTag(tags, l, b);
    LastsInOrder(a.ver, b.ver, s.ver);
    assert Before(a, s);
  }

  /** Written out, the stops of "+" tags call for no further stop, for versions of any length. */
  lemma PlusStopsCanBeWritten(tags: set<Tag>, l: nat)
    requires l > 0 && Uniform(tags, l) && forall t :: t in tags ==> t.op.Plus()
    ensures Uniform(Written(tags, l), l) && Stops(Written(tags, l), l) <= Written(tags, l)
  {
    var M := Written(tags, l);
    WrittenIsUniform(tags, l);
    forall x | x in Stops(M, l) ensures x in M {
      var s, t := StopOrigin(M, l, x);
      PlusOnlyStops(tags, l);
      if s.op.Plus() { AdjacentTags(tags, l, s, t, true); } else { FloorsAreApart(tags, l, s, t); }
    }
  }

  lemma PlusOnlyStops(tags: set<Tag>, l: nat)
    requires l > 0 && Uniform(tags, l) && forall t :: t in tags ==> t.op.Plus()
    ensures forall x :: x in Written(tags, l) ==> (x.op.Plus() ==> x in tags) && (!x.op.Plus() ==> x in Stops(tags, l))
  {
    forall x | x in Stops(tags, l) ensures !x.op.Plus() {
      if x.op.Plus() { var s := CapHasTag(tags, l, x); }
    }
  }

  /** The same for "-" tags that are not past the sentinel. */
  lemma MinusStopsCanBeWritten(tags: set<Tag>, l: nat)
    requires l > 0 && Uniform(tags, l) && forall t :: t in tags ==> !t.op.Plus() && TailBounded(t.ver)
    ensures Uniform(Written(tags, l), l) && Stops(Written(tags, l), l) <= Written(tags, l)
  {
    var M := Written(tags, l);
    WrittenIsUniform(tags, l);
    forall x | x in Stops(M, l) ensures x in M {
      var s, t := StopOrigin(M, l, x);
      MinusOnlyStops(tags, l);
      if s.op.Plus() { CapsAreApart(tags, l, s, t); } else { AdjacentTags(tags, l, s, t, false); }
    }
  }

  lemma MinusOnlyStops(tags: set<Tag>, l: nat)
    requires l > 0 && Uniform(tags, l) && forall t :: t in tags ==> !t.op.Plus()
    ensures forall x :: x in Written(tags, l) ==> (!x.op.Plus() ==> x in tags) && (x.op.Plus() ==> x in Stops(tags, l))
  {
    forall x | x in Stops(tags, l) ensures x.op.Plus() {
      if !x.op.Plus() { var t := FloorHasTag(tags, l, x); }
    }
  }

  // ----- Three components or more -----

  /** Where stops are well placed, the stop of a pair lies between its two tags in the order of the sort. */
  lemma StopSeparates(tags: set<Tag>, l: nat, s: Tag, t: Tag)
    requires Placed(tags, l) && NeedsStop(tags, s, t, s.op.Plus())
    ensures Before(s, StopOf(s, t, l)) && Before(StopOf(s, t, l), t)
    ensures StopOf(s, t, l) in Stops(tags, l) && StopOf(s, t, l).op.Plus() != s.op.Plus()
  {
    StopBetween(tags, l, s, t, s.op.Plus());
  }

  lemma NoPairIsLeft(tags: set<Tag>, l: nat, s: Tag, t: Tag)
    requires Placed(tags, l) && s.op.Plus() == t.op.Plus()
    ensures !NeedsStop(Written(tags, l), s, t, s.op.Plus())
  {
    if NeedsStop(Written(tags, l), s, t, s.op.Plus()) {
      BeforeIsTotalOrder();
      if s in tags && t in tags {
        assert NeedsStop(tags, s, t, s.op.Plus());
        StopSeparates(tags, l, s, t);
      } else {
        if s in Stops(tags, l) {
          var s1, t1 := StopOrigin(tags, l, s);
          StopSeparates(tags, l, s1, t1);
        }
        if t in Stops(tags, l) {
          var s2, t2 := StopOrigin(tags, l, t);
          StopSeparates(tags, l, s2, t2);
        }
      }
    }
  }

  /** On other than two components, with no "-" tag past the sentinel, written stops call for no stop at all. */
  lemma PlacedStopsCanBeWritten(tags: set<Tag>, l: nat)
    requires Placed(tags, l)
    ensures Uniform(Written(tags, l), l) && Stops(Written(tags, l), l) == {}
  {
    WrittenIsUniform(tags, l);
    if x :| x in Stops(Written(tags, l), l) {
      var s, t := StopOrigin(Written(tags, l), l, x);
      NoPairIsLeft(tags, l, s, t);
    }
  }

  // ----- Which further stops the written stops call for -----

  /** No tag is past the sentinel end of its branch. */
  ghost predicate Bounded(tags: set<Tag>, l: nat) {
    l > 0 && Uniform(tags, l) && forall t :: t in tags ==> TailBounded(t.ver)
  }

  /** A "-" tag directly followed by a "+" tag of another branch, where one of the two branches has a stop on this side and the other has not. */
  ghost predicate HalfStopped(tags: set<Tag>, l: nat, m: Tag, n: Tag)
    requires l > 0 && Uniform(tags, l)
  {
    && Adjacent(tags, m, n) && !m.op.Plus() && n.op.Plus() && Branch(m.ver) != Branch(n.ver)
    && Capped(Stops(tags, l), Branch(m.ver)) != Floored(Stops(tags, l), Branch(n.ver))
  }

  /** The stop that is missing on the other side. */
  ghost function OtherHalf(tags: set<Tag>, l: nat, m: Tag, n: Tag): Tag
    requires l > 0 && Uniform(tags, l) && HalfStopped(tags, l, m, n)
  {
    if Capped(Stops(tags, l), Branch(m.ver)) then AuxTag(n, l) else AuxTag(m, l)
  }

  /** A tag and a stop of its own branch and sign, in different groups, with no tag between: "-" tags after the stop, "+" tags before it. */
  ghost predicate NextToOwnStop(tags: set<Tag>, l: nat, a: Tag, b: Tag)
    requires l > 0 && Uniform(tags, l)
  {
    && |a.ver| == |b.ver| == l && Before(a, b) && a.op.Plus() == b.op.Plus()
    && Branch(a.ver) == Branch(b.ver) && Group(a.ver) != Group(b.ver)
    && (if a.op.Plus() then a in tags && b in Stops(tags, l) else a in Stops(tags, l) && b in tags)
    && forall t :: t in tags ==> !(Before(a, t) && Before(t, b))
  }

  /** The further stops that the written stops call for. */
  ghost predicate FurtherStop(tags: set<Tag>, l: nat, x: Tag)
    requires l > 0 && Uniform(tags, l)
  {
    || (exists m, n :: HalfStopped(tags, l, m, n) && x == OtherHalf(tags, l, m, n))
    || (exists a, b :: NextToOwnStop(tags, l, a, b) && x == StopOf(a, b, l))
  }

  /** A version between two of a branch, ends included, is of that branch. */
  lemma WithinBranch(a: Version, b: Version, c: Version)
    requires |a| == |b| == |c| > 0 && AtMost(a, b) && AtMost(b, c) && Branch(a) == Branch(c)
    ensures Branch(b) == Branch(a)
  {
    if a != b && b != c { Between(a, b, c); }
  }

  /** A "+" tag directly before a "+" stop stands in the branch of the stop. */
  lemma TagBeforeCap(tags: set<Tag>, l: nat, a: Tag, b: Tag)
    requires Bounded(tags, l) && a in tags && b in Stops(tags, l) && NeedsStop(Written(tags, l), a, b, true)
    ensures NextToOwnStop(tags, l, a, b)
  {
    var s := CapHasTag(tags, l, b);
    BeforeTrichotomy(s, a);
    WithinBranch(s.ver, a.ver, b.ver);
  }

  /** A "-" tag directly after a "-" stop stands in the branch of the stop. */
  lemma TagAfterFloor(tags: set<Tag>, l: nat, a: Tag, b: Tag)
    requires Bounded(tags, l) && a in Stops(tags, l) && b in tags && NeedsStop(Written(tags, l), a, b, false)
    ensures NextToOwnStop(tags, l, a, b)
  {
    var t := FloorHasTag(tags, l, a);
    BeforeTrichotomy(b, t);
    WithinBranch(a.ver, b.ver, t.ver);
  }

  /** A "-" tag directly before a "-" stop is followed by a "+" tag of that branch, and its own branch has no stop there. */
  lemma TagBeforeFloor(tags: set<Tag>, l: nat, a: Tag, b: Tag)
    requires Bounded(tags, l) && a in tags && b in Stops(tags, l) && NeedsStop(Written(tags, l), a, b, false)
    ensures AuxTag(a, l) in Stops(tags, l) || exists n :: HalfStopped(tags, l, a, n) && OtherHalf(tags, l, a, n) == AuxTag(a, l)
  {
    var t := FloorHasTag(tags, l, b);
    BeforeTransitive(a, b, t);
    var n := NextTag(tags, a, t);
    NextIsAdjacent(tags, a, n);
    FloorThenNext(tags, l, a, b, n, t);
    if n.op.Plus() {
      NotCappedBefore(tags, l, a, b);
      assert HalfStopped(tags, l, a, n);
    } else {
      assert NeedsStop(tags, a, n, false);
    }
  }

  /** The next tag after the pair is of the branch of the stop, which is not that of the tag before. */
  lemma FloorThenNext(tags: set<Tag>, l: nat, a: Tag, b: Tag, n: Tag, t: Tag)
    requires Bounded(tags, l) && a in tags && b in Stops(tags, l) && NeedsStop(Written(tags, l), a, b, false)
    requires n in tags && Before(a, n) && NotAfter(n, t) && t in tags && t.op.Plus() && |b.ver| == l && Branch(t.ver) == Branch(b.ver) && b.ver == First(b.ver) && Before(b, t)
    ensures Branch(n.ver) == Branch(b.ver) && Branch(a.ver) != Branch(n.ver) && Group(a.ver) != Group(n.ver)
    ensures Floored(Stops(tags, l), Branch(n.ver)) && Less(a.ver, b.ver)
  {
    BeforeTrichotomy(b, n);
    WithinBranch(b.ver, n.ver, t.ver);
    assert Less(a.ver, b.ver);
    if Branch(a.ver) == Branch(b.ver) { NotBeforeFirst(a.ver, b.ver); }
    if Group(a.ver) == Group(n.ver) { GroupHasBranch(a.ver, n.ver); }
  }

  /** A stop of the tag's own branch would stand between. */
  lemma NotCappedBefore(tags: set<Tag>, l: nat, a: Tag, b: Tag)
    requires Bounded(tags, l) && a in tags && b in Stops(tags, l) && NeedsStop(Written(tags, l), a, b, false)
    requires |b.ver| == l && Less(a.ver, b.ver) && Branch(a.ver) != Branch(b.ver)
    ensures !Capped(Stops(tags, l), Branch(a.ver))
  {
    if Capped(Stops(tags, l), Branch(a.ver)) {
      StopsAreWell(tags, l);
      CapIsThere(tags, Stops(tags, l), a.ver);
      var x :| x in Stops(tags, l) && x.ver == Last(a.ver) && x.op.Plus();
      LastOfBranch(a.ver, b.ver);
    }
  }

  /** A "+" tag directly after a "+" stop follows a "-" tag of that branch, and its own branch has no stop there. */
  lemma TagAfterCap(tags: set<Tag>, l: nat, a: Tag, b: Tag)
    requires Bounded(tags, l) && a in Stops(tags, l) && b in tags && NeedsStop(Written(tags, l), a, b, true)
    ensures AuxTag(b, l) in Stops(tags, l) || exists m :: HalfStopped(tags, l, m, b) && OtherHalf(tags, l, m, b) == AuxTag(b, l)
  {
    var s := CapHasTag(tags, l, a);
    BeforeTransitive(s, a, b);
    var m := PreviousTag(tags, b, s);
    PreviousIsAdjacent(tags, m, b);
    CapThenPrevious(tags, l, a, b, m, s);
    if m.op.Plus() {
      assert NeedsStop(tags, m, b, true);
    } else {
      NotFlooredAfter(tags, l, a, b);
      assert HalfStopped(tags, l, m, b);
    }
  }

  lemma CapThenPrevious(tags: set<Tag>, l: nat, a: Tag, b: Tag, m: Tag, s: Tag)
    requires Bounded(tags, l) && a in Stops(tags, l) && b in tags && NeedsStop(Written(tags, l), a, b, true)
    requires m in tags && Before(m, b) && NotAfter(s, m) && s in tags && !s.op.Plus() && |a.ver| == l && Branch(s.ver) == Branch(a.ver) && a.ver == Last(a.ver) && Before(s, a)
    ensures Branch(m.ver) == Branch(a.ver) && Branch(m.ver) != Branch(b.ver) && Group(m.ver) != Group(b.ver)
    ensures Capped(Stops(tags, l), Branch(m.ver)) && Less(a.ver, b.ver)
  {
    BeforeTrichotomy(m, a);
    WithinBranch(s.ver, m.ver, a.ver);
    assert Less(a.ver, b.ver);
    if Branch(a.ver) == Branch(b.ver) {
      LastOfBranch(a.ver, b.ver);
      Trichotomy(a.ver, b.ver);
    }
    if Group(m.ver) == Group(b.ver) { GroupHasBranch(m.ver, b.ver); }
  }

  lemma NotFlooredAfter(tags: set<Tag>, l: nat, a: Tag, b: Tag)
    requires Bounded(tags, l) && a in Stops(tags, l) && b in tags && NeedsStop(Written(tags, l), a, b, true)
    requires |a.ver| == l && Less(a.ver, b.ver) && Branch(a.ver) != Branch(b.ver)
    ensures !Floored(Stops(tags, l), Branch(b.ver))
  {
    if Floored(Stops(tags, l), Branch(b.ver)) {
      StopsAreWell(tags, l);
      FloorIsThere(tags, Stops(tags, l), b.ver);
      var x :| x in Stops(tags, l) && x.ver == First(b.ver) && !x.op.Plus();
      FirstOfBranch(a.ver, b.ver);
    }
  }

  /** The stops of the written list are among its own, or are further stops. */
  lemma WrittenStopsAre(tags: set<Tag>, l: nat, x: Tag)
    requires Bounded(tags, l) && Uniform(Written(tags, l), l) && x in Stops(Written(tags, l), l)
    ensures x in Written(tags, l) || FurtherStop(tags, l, x)
  {
    var a, b := StopOrigin(Written(tags, l), l, x);
    if a in tags && b in tags {
      AdjacentTags(tags, l, a, b, a.op.Plus());
    } else if a in tags {
      if a.op.Plus() { TagBeforeCap(tags, l, a, b); } else { TagBeforeFloor(tags, l, a, b); }
    } else if b in tags {
      if a.op.Plus() { TagAfterCap(tags, l, a, b); } else { TagAfterFloor(tags, l, a, b); }
    } else if a.op.Plus() {
      CapsAreApart(tags, l, a, b);
    } else {
      FloorsAreApart(tags, l, a, b);
    }
  }

  // ----- Every further stop is called for -----

  /** Without a stop at the end of its branch, a "-" tag directly precedes the stop on the first release of the next tag's branch. */
  lemma HalfBelow(tags: set<Tag>, l: nat, m: Tag, n: Tag) returns (b: Tag)
    requires Bounded(tags, l) && HalfStopped(tags, l, m, n) && !Capped(Stops(tags, l), Branch(m.ver))
    ensures b in Stops(tags, l) && NeedsStop(Written(tags, l), m, b, false)
  {
    var M := Written(tags, l);
    StopsAreWell(tags, l);
    FloorIsThere(tags, Stops(tags, l), n.ver);
    var x :| x in Stops(tags, l) && x.ver == First(n.ver) && !x.op.Plus();
    FirstOfBranch(m.ver, n.ver);
    b := NextTag(M, m, x);
    NextIsAdjacent(M, m, b);
    FloorIsNext(tags, l, m, n, x, b);
  }

  lemma NotATag(tags: set<Tag>, m: Tag, n: Tag, b: Tag)
    requires Adjacent(tags, m, n) && Before(m, b) && Before(b, n)
    ensures b !in tags
  {
  }

  lemma FloorIsNext(tags: set<Tag>, l: nat, m: Tag, n: Tag, x: Tag, b: Tag)
    requires Bounded(tags, l) && HalfStopped(tags, l, m, n) && !Capped(Stops(tags, l), Branch(m.ver))
    requires x in Stops(tags, l) && x.ver == First(n.ver) && !x.op.Plus()
    requires b in Written(tags, l) && Before(m, b) && NotAfter(b, x)
    ensures b in Stops(tags, l) && !b.op.Plus() && |b.ver| == l && Group(m.ver) != Group(b.ver)
  {
    BeforeFloorOf(b, x, n);
    NotATag(tags, m, n, b);
    assert |b.ver| == l && |x.ver| == l by { StopsAreWell(tags, l); }
    StopBetweenTags(tags, l, m, n, x, b);
    if Group(m.ver) == Group(b.ver) { GroupHasBranch(m.ver, b.ver); }
  }

  /** A stop between two adjacent tags stands in the branch of one of them. */
  lemma StopBetweenTags(tags: set<Tag>, l: nat, m: Tag, n: Tag, x: Tag, b: Tag)
    requires Bounded(tags, l) && HalfStopped(tags, l, m, n) && !Capped(Stops(tags, l), Branch(m.ver))
    requires |x.ver| == l && x.ver == First(n.ver) && !x.op.Plus()
    requires b in Stops(tags, l) && |b.ver| == l && Before(m, b) && NotAfter(b, x)
    ensures Branch(b.ver) == Branch(n.ver) && !b.op.Plus()
  {
    if b.op.Plus() {
      var s := CapHasTag(tags, l, b);
      BeforeFloorOf(b, x, n);
      BeforeTransitive(s, b, n);
      BeforeTrichotomy(m, s);
      assert NotAfter(s, m);
      WithinBranch(s.ver, m.ver, b.ver);
    } else {
      var t := FloorHasTag(tags, l, b);
      BeforeTransitive(m, b, t);
      BeforeTrichotomy(t, n);
      assert NotAfter(n, t);
      SameBranchOfFirst(n.ver);
      FirstOfBranch(n.ver, n.ver);
      AtMostTransitive(b.ver, x.ver, n.ver);
      WithinBranch(b.ver, n.ver, t.ver);
    }
  }

  lemma BeforeFloorOf(b: Tag, x: Tag, n: Tag)
    requires |x.ver| == |n.ver| > 0 && x.ver == First(n.ver) && !x.op.Plus() && n.op.Plus() && NotAfter(b, x)
    ensures Before(b, n)
  {
    FirstOfBranch(n.ver, n.ver);
    assert Before(x, n);
    if b != x { BeforeTransitive(b, x, n); }
  }

  /** Without a stop on the first release of its branch, a "+" tag directly follows the stop at the end of the previous tag's branch. */
  lemma HalfAbove(tags: set<Tag>, l: nat, m: Tag, n: Tag) returns (a: Tag)
    requires Bounded(tags, l) && HalfStopped(tags, l, m, n) && Capped(Stops(tags, l), Branch(m.ver))
    ensures a in Stops(tags, l) && NeedsStop(Written(tags, l), a, n, true)
  {
    var M := Written(tags, l);
    StopsAreWell(tags, l);
    CapIsThere(tags, Stops(tags, l), m.ver);
    var x :| x in Stops(tags, l) && x.ver == Last(m.ver) && x.op.Plus();
    LastOfBranch(m.ver, n.ver);
    a := PreviousTag(M, n, x);
    PreviousIsAdjacent(M, a, n);
    CapIsPrevious(tags, l, m, n, x, a);
  }

  lemma AfterCapOf(a: Tag, x: Tag, m: Tag)
    requires |x.ver| == |m.ver| > 0 && x.ver == Last(m.ver) && x.op.Plus() && !m.op.Plus() && TailBounded(m.ver) && NotAfter(x, a)
    ensures Before(m, a)
  {
    LastOfBranch(m.ver, m.ver);
    assert Before(m, x);
    if x != a { BeforeTransitive(m, x, a); }
  }

  lemma CapIsPrevious(tags: set<Tag>, l: nat, m: Tag, n: Tag, x: Tag, a: Tag)
    requires Bounded(tags, l) && HalfStopped(tags, l, m, n) && Capped(Stops(tags, l), Branch(m.ver))
    requires x in Stops(tags, l) && x.ver == Last(m.ver) && x.op.Plus()
    requires a in Written(tags, l) && Before(a, n) && NotAfter(x, a)
    ensures a in Stops(tags, l) && a.op.Plus() && |a.ver| == l && Group(a.ver) != Group(n.ver)
  {
    AfterCapOf(a, x, m);
    NotATag(tags, m, n, a);
    assert |a.ver| == l && |x.ver| == l by { StopsAreWell(tags, l); }
    CapBetweenTags(tags, l, m, n, x, a);
    if Group(a.ver) == Group(n.ver) { GroupHasBranch(a.ver, n.ver); }
  }

  lemma CapBetweenTags(tags: set<Tag>, l: nat, m: Tag, n: Tag, x: Tag, a: Tag)
    requires Bounded(tags, l) && HalfStopped(tags, l, m, n) && Capped(Stops(tags, l), Branch(m.ver))
    requires |x.ver| == l && x.ver == Last(m.ver) && x.op.Plus()
    requires a in Stops(tags, l) && |a.ver| == l && Before(a, n) && NotAfter(x, a)
    ensures Branch(a.ver) == Branch(m.ver) && a.op.Plus()
  {
    LastOfBranch(m.ver, m.ver);
    AfterCapOf(a, x, m);
    if a.op.Plus() {
      var s := CapHasTag(tags, l, a);
      BeforeTransitive(s, a, n);
      BeforeTrichotomy(m, s);
      assert NotAfter(s, m);
      AtMostTransitive(m.ver, x.ver, a.ver);
      WithinBranch(s.ver, m.ver, a.ver);
    } else {
      var t := FloorHasTag(tags, l, a);
      BeforeTransitive(m, a, t);
      BeforeTrichotomy(t, n);
      assert NotAfter(n, t);
      WithinBranch(a.ver, n.ver, t.ver);
    }
  }

  /** A tag next to a stop of its branch and sign is directly next to such a stop, with the same further stop. */
  lemma OwnStopIsNext(tags: set<Tag>, l: nat, a: Tag, b: Tag)
    requires Bounded(tags, l) && Uniform(Written(tags, l), l) && NextToOwnStop(tags, l, a, b)
    ensures StopOf(a, b, l) in Stops(Written(tags, l), l)
  {
    if a.op.Plus() { OwnCapIsNext(tags, l, a, b); } else { OwnFloorIsPrevious(tags, l, a, b); }
  }

  lemma OneGroupInBranch(a: Version, b: Version)
    requires |a| == |b| > 0 && Branch(a) == Branch(b) && Group(a) != Group(b)
    ensures |a| == 2
  {
  }

  /** Two "+" stops on one release, or two "-" stops, of two components: the "+" ones call for the same stop. */
  lemma SameEndSameStop(n: Tag, b: Tag)
    requires |n.ver| == |b.ver| == 2 && n.ver == b.ver == Last(b.ver) && n.op.Plus() && b.op.Plus()
    ensures AuxTag(n, 2) == AuxTag(b, 2)
  {
    assert b.ver[1..][0] == SENTINEL;
  }

  lemma OwnCapIsNext(tags: set<Tag>, l: nat, a: Tag, b: Tag)
    requires Bounded(tags, l) && Uniform(Written(tags, l), l) && NextToOwnStop(tags, l, a, b) && a.op.Plus()
    ensures StopOf(a, b, l) in Stops(Written(tags, l), l)
  {
    var M := Written(tags, l);
    OneGroupInBranch(a.ver, b.ver);
    var n := NextTag(M, a, b);
    NextIsAdjacent(M, a, n);
    StopsAreWell(tags, l);
    if n != b {
      assert n in Stops(tags, l);
      NextIsCap(a, n, b);
      SameEndSameStop(n, b);
    }
    assert NeedsStop(M, a, n, true);
  }

  /** What stands between a "+" tag and the end of its branch, as a stop, stands at that end. */
  lemma NextIsCap(a: Tag, n: Tag, b: Tag)
    requires |a.ver| == |n.ver| == |b.ver| == 2 && a.op.Plus() && b.op.Plus() && Branch(a.ver) == Branch(b.ver) && b.ver == Last(b.ver)
    requires Before(a, n) && NotAfter(n, b) && n.ver == if n.op.Plus() then Last(n.ver) else First(n.ver)
    ensures n.op.Plus() && n.ver == b.ver
  {
    WithinBranch(a.ver, n.ver, b.ver);
    SameBranchSameEnds(n.ver, b.ver);
    SameBranchSameEnds(a.ver, n.ver);
    FirstBeforeLast(a.ver);
    Trichotomy(a.ver, n.ver);
  }

  lemma OwnFloorIsPrevious(tags: set<Tag>, l: nat, a: Tag, b: Tag)
    requires Bounded(tags, l) && Uniform(Written(tags, l), l) && NextToOwnStop(tags, l, a, b) && !a.op.Plus()
    ensures StopOf(a, b, l) in Stops(Written(tags, l), l)
  {
    var M := Written(tags, l);
    var p := PreviousTag(M, b, a);
    PreviousIsAdjacent(M, p, b);
    if p != a {
      assert p in Stops(tags, l);
      FloorIsPrevious(tags, l, a, b, p);
    }
    assert NeedsStop(M, a, b, false);
  }

  /** Nothing stands between a "-" stop and the next tag of its branch, if that is a "-" tag of another group. */
  lemma FloorIsPrevious(tags: set<Tag>, l: nat, a: Tag, b: Tag, p: Tag)
    requires Bounded(tags, l) && NextToOwnStop(tags, l, a, b) && !a.op.Plus()
    requires p in Stops(tags, l) && Before(p, b) && NotAfter(a, p)
    ensures p == a
  {
    StopEnds(tags, l, a);
    StopEnds(tags, l, p);
    WithinBranch(a.ver, p.ver, b.ver);
    if p.op.Plus() {
      CapNotBefore(p, b);
    } else {
      SameFirst(a, p);
      NoTouchingStop(tags, l, a, b, p);
    }
  }

  lemma StopEnds(tags: set<Tag>, l: nat, x: Tag)
    requires l > 0 && Uniform(tags, l) && x in Stops(tags, l)
    ensures |x.ver| == l && x.ver == if x.op.Plus() then Last(x.ver) else First(x.ver)
  {
    StopsAreWell(tags, l);
  }

  /** Two "-" stops of a branch stand on one release. */
  lemma SameFirst(a: Tag, p: Tag)
    requires |a.ver| == |p.ver| > 0 && Branch(a.ver) == Branch(p.ver) && a.ver == First(a.ver) && p.ver == First(p.ver)
    requires !a.op.Plus() && !p.op.Plus() && NotAfter(a, p)
    ensures a.ver == p.ver && (!p.op.Le? ==> p == a)
  {
    SameBranchSameEnds(a.ver, p.ver);
    Trichotomy(a.ver, p.ver);
  }

  /** A "+" stop on the end of a branch is before no "-" tag of the branch. */
  lemma CapNotBefore(p: Tag, b: Tag)
    requires |p.ver| == |b.ver| > 0 && Branch(p.ver) == Branch(b.ver) && p.ver == Last(p.ver) && p.op.Plus() && !b.op.Plus() && TailBounded(b.ver)
    ensures !Before(p, b)
  {
    SameBranchSameEnds(p.ver, b.ver);
    LastOfBranch(b.ver, b.ver);
    Trichotomy(p.ver, b.ver);
  }

  /** An inclusive "-" stop would be that of a "+=" tag on the same release, between the two. */
  lemma NoTouchingStop(tags: set<Tag>, l: nat, a: Tag, b: Tag, p: Tag)
    requires Bounded(tags, l) && NextToOwnStop(tags, l, a, b) && !a.op.Plus() && p in Stops(tags, l)
    requires p.ver == a.ver && Less(p.ver, b.ver)
    ensures !p.op.Le?
  {
    if p.op.Le? {
      var s, t := StopOrigin(tags, l, p);
      StopShape(tags, l, s, t);
      ZeroTailIff(t.ver);
      SameBranchSameEnds(t.ver, p.ver);
    }
  }

  /** Written stops call exactly for the further stops, besides those already written. */
  lemma WrittenStopsExactly(tags: set<Tag>, l: nat)
    requires Bounded(tags, l)
    ensures Uniform(Written(tags, l), l)
    ensures forall x :: x in Stops(Written(tags, l), l) ==> x in Written(tags, l) || FurtherStop(tags, l, x)
    ensures forall x :: FurtherStop(tags, l, x) ==> x in Stops(Written(tags, l), l)
  {
    WrittenIsUniform(tags, l);
    forall x | x in Stops(Written(tags, l), l) ensures x in Written(tags, l) || FurtherStop(tags, l, x) { WrittenStopsAre(tags, l, x); }
    forall x | FurtherStop(tags, l, x) ensures x in Stops(Written(tags, l), l) { FurtherStopIsCalledFor(tags, l, x); }
  }

  lemma FurtherStopIsCalledFor(tags: set<Tag>, l: nat, x: Tag)
    requires Bounded(tags, l) && Uniform(Written(tags, l), l) && FurtherStop(tags, l, x)
    ensures x in Stops(Written(tags, l), l)
  {
    if m, n :| HalfStopped(tags, l, m, n) && x == OtherHalf(tags, l, m, n) {
      if Capped(Stops(tags, l), Branch(m.ver)) {
        var a := HalfAbove(tags, l, m, n);
      } else {
        var b := HalfBelow(tags, l, m, n);
      }
    } else {
      var a, b :| NextToOwnStop(tags, l, a, b) && x == StopOf(a, b, l);
      OwnStopIsNext(tags, l, a, b);
    }
  }

  // ----- When the stops can be written -----

  /** The missing half is not among the tags and stops. */
  lemma OtherHalfIsNew(tags: set<Tag>, l: nat, m: Tag, n: Tag)
    requires Bounded(tags, l) && HalfStopped(tags, l, m, n)
    ensures OtherHalf(tags, l, m, n) !in Written(tags, l)
  {
    var x := OtherHalf(tags, l, m, n);
    if Capped(Stops(tags, l), Branch(m.ver)) {
      AuxVersion(n);
      SameBranchOfFirst(n.ver);
      FirstOfBranch(m.ver, n.ver);
    } else {
      AuxVersion(m);
      SameBranchOfLast(m.ver);
      LastOfBranch(m.ver, n.ver);
    }
    NotATag(tags, m, n, x);
  }

  /**
   * The stops can be written, calling for no further stop, exactly if no two branches are half
   * stopped and the stop of each tag next to a stop of its own branch and sign is already there.
   */
  lemma WrittenIff(tags: set<Tag>, l: nat)
    requires Bounded(tags, l)
    ensures Uniform(Written(tags, l), l)
    ensures Stops(Written(tags, l), l) <= Written(tags, l) <==>
            && (forall m, n :: !HalfStopped(tags, l, m, n))
            && (forall a, b :: NextToOwnStop(tags, l, a, b) ==> StopOf(a, b, l) in Written(tags, l))
  {
    WrittenStopsExactly(tags, l);
    if m, n :| HalfStopped(tags, l, m, n) {
      OtherHalfIsNew(tags, l, m, n);
      assert FurtherStop(tags, l, OtherHalf(tags, l, m, n));
    }
    forall a, b | NextToOwnStop(tags, l, a, b) ensures FurtherStop(tags, l, StopOf(a, b, l)) {}
  }

  // ----- The verdicts on the written list -----

  /** All stops that the tags and the written stops call for. */
  ghost function AllStops(tags: set<Tag>, l: nat): set<Tag>
    requires l > 0 && Uniform(tags, l) && Uniform(Written(tags, l), l)
  {
    Stops(tags, l) + Stops(Written(tags, l), l)
  }

  lemma AllStopsAreWell(tags: set<Tag>, l: nat)
    requires l > 0 && Uniform(tags, l) && Uniform(Written(tags, l), l)
    ensures WellStopped(tags, Stops(tags, l), l) && WellStopped(tags, AllStops(tags, l), l)
  {
    StopsAreWell(tags, l);
    StopsAreWell(Written(tags, l), l);
    forall x | x in Stops(Written(tags, l), l) ensures exists t :: t in tags && Branch(t.ver) == Branch(x.ver) {
      var u :| u in Written(tags, l) && Branch(u.ver) == Branch(x.ver);
    }
  }

  /** The evaluation of the written list, read off the original tags and all stops. */
  lemma WrittenForm(tags: set<Tag>, v: Version)
    requires |v| > 0 && Uniform(tags, |v|)
    ensures Uniform(Written(tags, |v|), |v|)
    ensures Accepted(Written(tags, |v|), v) <==> ClosedMeaning(tags, AllStops(tags, |v|), v)
  {
    WrittenIsUniform(tags, |v|);
    AllStopsAreWell(tags, |v|);
    MarksForm(tags, AllStops(tags, |v|), v);
    assert Written(tags, |v|) + Stops(Written(tags, |v|), |v|) == tags + AllStops(tags, |v|);
  }

  /** The version is not between the first and the last release of a branch with tags. */
  ghost predicate Outside(tags: set<Tag>, v: Version)
    requires |v| > 0 && Uniform(tags, |v|)
  {
    (forall t :: t in tags ==> Branch(t.ver) != Branch(v)) || Less(Last(v), v)
  }

  /** The tag below is "+" or its branch has a stop at its end; the tag above is "-" or its branch has one on its first release. */
  ghost predicate SidesOpen(tags: set<Tag>, stops: set<Tag>, v: Version)
    requires |v| > 0 && Uniform(tags, |v|)
  {
    && (forall lo :: Below(tags, v, lo) ==> lo.op.Plus() || Capped(stops, Branch(lo.ver)))
    && (forall hi :: Above(tags, v, hi) ==> !hi.op.Plus() || Floored(stops, Branch(hi.ver)))
  }

  /** Outside the branches of the tags, the sides decide. */
  lemma OutsideMeaning(tags: set<Tag>, stops: set<Tag>, v: Version)
    requires |v| > 0 && Bounded(tags, |v|) && WellStopped(tags, stops, |v|) && Outside(tags, v)
    ensures ClosedMeaning(tags, stops, v) <==> SidesOpen(tags, stops, v)
  {
    NeighboursAreUnique(tags, v);
    FirstBeforeLast(v);
    Trichotomy(Last(v), v);
    forall t | t in tags && Branch(t.ver) == Branch(v) ensures AtMost(t.ver, Last(v)) && Less(t.ver, v) && t.ver != v {
      SameBranchSameEnds(t.ver, v);
      LastOfBranch(t.ver, t.ver);
      if t.ver != Last(v) { Transitive(t.ver, Last(v), v); }
      Trichotomy(t.ver, v);
    }
    forall t | t in tags ensures AtMost(t.ver, Last(t.ver)) && !Less(Last(t.ver), t.ver) {
      LastOfBranch(t.ver, t.ver);
      Trichotomy(t.ver, Last(t.ver));
    }
    OutsideUnmarked(tags, stops, v);
    OutsideBelow(tags, stops, v);
    OutsideAbove(tags, stops, v);
  }

  lemma OutsideUnmarked(tags: set<Tag>, stops: set<Tag>, v: Version)
    requires |v| > 0 && WellStopped(tags, stops, |v|) && Outside(tags, v)
    requires forall t :: t in tags && Branch(t.ver) == Branch(v) ==> t.ver != v
    ensures !Marked(tags, stops, v)
  {
    FirstBeforeLast(v);
    Trichotomy(Last(v), v);
  }

  lemma OutsideBelow(tags: set<Tag>, stops: set<Tag>, v: Version)
    requires |v| > 0 && WellStopped(tags, stops, |v|) && Outside(tags, v)
    requires forall t :: t in tags && Branch(t.ver) == Branch(v) ==> AtMost(t.ver, Last(v)) && Less(t.ver, v)
    requires forall t :: t in tags ==> AtMost(t.ver, Last(t.ver))
    ensures OpenBelow(tags, stops, v) <==> forall lo :: Below(tags, v, lo) ==> lo.op.Plus() || Capped(stops, Branch(lo.ver))
  {
    if t :| t in tags && Branch(t.ver) == Branch(v) {
      var lo := BelowOfBranch(tags, v, t);
      PastBranchBelow(tags, stops, v, lo);
    } else {
      assert !Floored(stops, Branch(v)) && !Capped(stops, Branch(v));
    }
  }

  lemma PastBranchBelow(tags: set<Tag>, stops: set<Tag>, v: Version, lo: Tag)
    requires |v| > 0 && WellStopped(tags, stops, |v|) && Less(Last(v), v) && Below(tags, v, lo) && Branch(lo.ver) == Branch(v)
    requires NonePast(tags, v)
    ensures OpenBelow(tags, stops, v) <==> lo.op.Plus() || Capped(stops, Branch(v))
    ensures forall x :: Below(tags, v, x) ==> x == lo
  {
    NeighboursAreUnique(tags, v);
  }

  lemma OutsideAbove(tags: set<Tag>, stops: set<Tag>, v: Version)
    requires |v| > 0 && WellStopped(tags, stops, |v|) && Outside(tags, v)
    requires forall t :: t in tags && Branch(t.ver) == Branch(v) ==> Less(t.ver, v)
    requires forall t :: t in tags ==> !Less(Last(t.ver), t.ver)
    ensures OpenAbove(tags, stops, v) <==> forall hi :: Above(tags, v, hi) ==> !hi.op.Plus() || Floored(stops, Branch(hi.ver))
  {
    Trichotomy(Last(v), v);
    forall hi | Above(tags, v, hi) ensures Branch(hi.ver) != Branch(v) { Trichotomy(v, hi.ver); }
  }

  /** A stop that only the written list calls for stands on the version. */
  ghost predicate NewAt(tags: set<Tag>, v: Version)
    requires |v| > 0 && Uniform(tags, |v|) && Uniform(Written(tags, |v|), |v|)
  {
    exists x :: x in Stops(Written(tags, |v|), |v|) && x !in Written(tags, |v|) && x.ver == v
  }

  /** The version is between the last tag of its branch and a stop at its end. */
  ghost predicate UnderCap(tags: set<Tag>, stops: set<Tag>, v: Version)
    requires |v| > 0 && Uniform(tags, |v|)
  {
    Capped(stops, Branch(v)) && Less(v, Last(v)) && forall t :: t in tags && Branch(t.ver) == Branch(v) ==> !Less(v, t.ver)
  }

  /** The version is between a stop on the first release of its branch and the first tag of the branch. */
  ghost predicate OverFloor(tags: set<Tag>, stops: set<Tag>, v: Version)
    requires |v| > 0 && Uniform(tags, |v|)
  {
    Floored(stops, Branch(v)) && forall t :: t in tags && Branch(t.ver) == Branch(v) ==> !Less(t.ver, v)
  }

  /** A tag or a stop stands on the version, or two of its branch close it in. */
  lemma ShutInside(tags: set<Tag>, stops: set<Tag>, v: Version)
    requires |v| > 0 && Uniform(tags, |v|) && !Marked(tags, stops, v) && !Less(Last(v), v)
    requires UnderCap(tags, stops, v) || OverFloor(tags, stops, v)
    ensures !ClosedMeaning(tags, stops, v)
  {
    if !UnderCap(tags, stops, v) {
      forall lo | Below(tags, v, lo) ensures Branch(lo.ver) != Branch(v) {}
    }
  }

  /** Within the branch of some tags, the sides of the version's own branch decide, unless other branches have stops that these tags do not call for. */
  lemma SameInside(tags: set<Tag>, v: Version, stops: set<Tag>)
    requires |v| > 0 && Bounded(tags, |v|) && !Outside(tags, v) && Gap(tags, v)
    requires Stops(tags, |v|) <= stops && !UnderCap(tags, stops, v) && !OverFloor(tags, stops, v)
    ensures OpenBelow(tags, stops, v) && OpenAbove(tags, stops, v) <==>
            OpenBelow(tags, Stops(tags, |v|), v) && OpenAbove(tags, Stops(tags, |v|), v)
  {
    MoreStops(tags, stops, |v|);
    var t :| t in tags && Branch(t.ver) == Branch(v);
    Trichotomy(t.ver, v);
    if Less(t.ver, v) {
      var lo := BelowOfBranch(tags, v, t);
      SameWithTagBelow(tags, v, stops, lo);
    } else {
      var hi := AboveOfBranch(tags, v, t);
      SameWithTagAbove(tags, v, stops, hi);
    }
  }

  lemma MoreStops(tags: set<Tag>, stops: set<Tag>, l: nat)
    requires l > 0 && Uniform(tags, l) && Stops(tags, l) <= stops
    ensures forall b :: Floored(Stops(tags, l), b) ==> Floored(stops, b)
    ensures forall b :: Capped(Stops(tags, l), b) ==> Capped(stops, b)
  {
  }

  lemma BoundedTags(tags: set<Tag>, l: nat)
    requires Bounded(tags, l)
    ensures forall t :: t in tags ==> AtMost(t.ver, Last(t.ver)) && !Less(Last(t.ver), t.ver)
  {
    forall t | t in tags ensures AtMost(t.ver, Last(t.ver)) && !Less(Last(t.ver), t.ver) {
      LastOfBranch(t.ver, t.ver);
      Trichotomy(t.ver, Last(t.ver));
    }
  }

  /** Neighbours of one sign, of different branches, stop each other. */
  lemma NeighboursStop(tags: set<Tag>, v: Version, lo: Tag, hi: Tag)
    requires |v| > 0 && Uniform(tags, |v|) && Gap(tags, v) && Below(tags, v, lo) && Above(tags, v, hi)
    requires Branch(lo.ver) != Branch(hi.ver) && lo.op.Plus() == hi.op.Plus()
    ensures if lo.op.Plus() then Floored(Stops(tags, |v|), Branch(hi.ver)) else Capped(Stops(tags, |v|), Branch(lo.ver))
  {
    AdjacentAcrossGap(tags, v, lo, hi);
    if Group(lo.ver) == Group(hi.ver) { GroupHasBranch(lo.ver, hi.ver); }
    StoppedBranches(tags, |v|, Branch(hi.ver));
    StoppedBranches(tags, |v|, Branch(lo.ver));
    assert NeedsStop(tags, lo, hi, lo.op.Plus());
  }

  lemma NotBeforeCap(tags: set<Tag>, v: Version, stops: set<Tag>)
    requires |v| > 0 && Bounded(tags, |v|) && !UnderCap(tags, stops, v)
    ensures !BeforeStop(tags, stops, v)
  {
    BoundedTags(tags, |v|);
    if BeforeStop(tags, stops, v) {
      forall t | t in tags && Branch(t.ver) == Branch(v) ensures !Less(v, t.ver) { SameBranchSameEnds(t.ver, v); }
    }
  }

  /** A version not past its branch is open below by the sign of the tag of its branch next below. */
  lemma OpenOverTag(tags: set<Tag>, v: Version, stops: set<Tag>, lo: Tag)
    requires |v| > 0 && Uniform(tags, |v|) && !BehindStop(tags, stops, v) && Below(tags, v, lo) && Branch(lo.ver) == Branch(v)
    ensures OpenBelow(tags, stops, v) <==> lo.op.Plus()
  {
    OnlyBelow(tags, v, lo);
  }

  lemma OnlyBelow(tags: set<Tag>, v: Version, lo: Tag)
    requires Below(tags, v, lo)
    ensures forall x :: Below(tags, v, x) ==> x == lo
  {
    NeighboursAreUnique(tags, v);
  }

  /** With no stop of its own branch next above, it is open above by the next tag there. */
  lemma OpenUnderTag(tags: set<Tag>, v: Version, stops: set<Tag>, hi: Tag)
    requires |v| > 0 && Bounded(tags, |v|) && !BeforeStop(tags, stops, v) && Above(tags, v, hi)
    ensures OpenAbove(tags, stops, v) <==> !hi.op.Plus() || (Branch(hi.ver) != Branch(v) && Floored(stops, Branch(hi.ver)))
  {
    NeighboursAreUnique(tags, v);
    LastOfBranch(hi.ver, hi.ver);
    Trichotomy(hi.ver, Last(hi.ver));
  }

  /** With no tag and no stop of its own branch below, it is open below by the next tag there. */
  lemma OpenOverOther(tags: set<Tag>, v: Version, stops: set<Tag>, lo: Tag)
    requires |v| > 0 && Bounded(tags, |v|) && !Less(Last(v), v) && Below(tags, v, lo) && Branch(lo.ver) != Branch(v) && !Floored(stops, Branch(v))
    ensures OpenBelow(tags, stops, v) <==> lo.op.Plus() || Capped(stops, Branch(lo.ver))
  {
    NeighboursAreUnique(tags, v);
    LastOfBranch(lo.ver, lo.ver);
  }

  lemma SameWithTagBelow(tags: set<Tag>, v: Version, stops: set<Tag>, lo: Tag)
    requires |v| > 0 && Bounded(tags, |v|) && Gap(tags, v) && !Less(Last(v), v) && Below(tags, v, lo) && Branch(lo.ver) == Branch(v)
    requires Stops(tags, |v|) <= stops && !UnderCap(tags, stops, v)
    ensures OpenBelow(tags, stops, v) && OpenAbove(tags, stops, v) <==>
            OpenBelow(tags, Stops(tags, |v|), v) && OpenAbove(tags, Stops(tags, |v|), v)
  {
    var S := Stops(tags, |v|);
    MoreStops(tags, stops, |v|);
    OpenOverTag(tags, v, stops, lo);
    OpenOverTag(tags, v, S, lo);
    NotBeforeCap(tags, v, stops);
    NotBeforeCap(tags, v, S);
    if hi :| Above(tags, v, hi) {
      OpenUnderTag(tags, v, stops, hi);
      OpenUnderTag(tags, v, S, hi);
      if lo.op.Plus() && hi.op.Plus() && Branch(hi.ver) != Branch(v) { NeighboursStop(tags, v, lo, hi); }
    }
  }

  lemma SameWithTagAbove(tags: set<Tag>, v: Version, stops: set<Tag>, hi: Tag)
    requires |v| > 0 && Bounded(tags, |v|) && Gap(tags, v) && !Less(Last(v), v) && Above(tags, v, hi) && Branch(hi.ver) == Branch(v)
    requires Stops(tags, |v|) <= stops && !UnderCap(tags, stops, v) && !OverFloor(tags, stops, v)
    ensures OpenBelow(tags, stops, v) && OpenAbove(tags, stops, v) <==>
            OpenBelow(tags, Stops(tags, |v|), v) && OpenAbove(tags, Stops(tags, |v|), v)
  {
    if lo :| Below(tags, v, lo) && Branch(lo.ver) == Branch(v) {
      SameWithTagBelow(tags, v, stops, lo);
    } else {
      SameOverOther(tags, v, stops, hi);
    }
  }

  lemma SameOverOther(tags: set<Tag>, v: Version, stops: set<Tag>, hi: Tag)
    requires |v| > 0 && Bounded(tags, |v|) && Gap(tags, v) && !Less(Last(v), v) && Above(tags, v, hi) && Branch(hi.ver) == Branch(v)
    requires forall lo :: Below(tags, v, lo) ==> Branch(lo.ver) != Branch(v)
    requires Stops(tags, |v|) <= stops && !UnderCap(tags, stops, v) && !OverFloor(tags, stops, v)
    ensures OpenBelow(tags, stops, v) && OpenAbove(tags, stops, v) <==>
            OpenBelow(tags, Stops(tags, |v|), v) && OpenAbove(tags, Stops(tags, |v|), v)
  {
    var S := Stops(tags, |v|);
    MoreStops(tags, stops, |v|);
    NotBeforeCap(tags, v, stops);
    NotBeforeCap(tags, v, S);
    OpenUnderTag(tags, v, stops, hi);
    OpenUnderTag(tags, v, S, hi);
    NothingOfBranchBelow(tags, v);
    if lo :| Below(tags, v, lo) {
      OpenOverOther(tags, v, stops, lo);
      OpenOverOther(tags, v, S, lo);
      if !lo.op.Plus() && !hi.op.Plus() { NeighboursStop(tags, v, lo, hi); }
    }
  }

  // ----- Where writing the stops out changes the verdict -----

  /**
   * The versions on which writing the stops out changes the verdict. Outside the branches of the
   * tags it can only open a version. Inside it closes what lies on, over or under a new stop, and
   * opens what lies on an inclusive one.
   */
  ghost predicate WritingMatters(tags: set<Tag>, v: Version)
    requires |v| > 0 && Uniform(tags, |v|) && Uniform(Written(tags, |v|), |v|)
  {
    var all := AllStops(tags, |v|);
    if Outside(tags, v) then SidesOpen(tags, all, v) && !SidesOpen(tags, Stops(tags, |v|), v)
    else if NewAt(tags, v) then
      if forall x :: x in tags + all && x.ver == v ==> x.op.Inclusive() then !Accepted(tags, v) else Accepted(tags, v)
    else
      Accepted(tags, v) && !Marked(tags, all, v) && (UnderCap(tags, all, v) || OverFloor(tags, all, v))
  }

  /** The verdict changes exactly on those versions. */
  lemma WritingMattersExactly(tags: set<Tag>, v: Version)
    requires |v| > 0 && Bounded(tags, |v|)
    ensures Uniform(Written(tags, |v|), |v|)
    ensures Accepted(Written(tags, |v|), v) <==> (Accepted(tags, v) != WritingMatters(tags, v))
  {
    WrittenForm(tags, v);
    ClosedForm(tags, v);
    if Outside(tags, v) {
      WritingOutside(tags, v);
    } else if NewAt(tags, v) {
      WritingOnStop(tags, v);
    } else {
      WritingInside(tags, v);
    }
  }

  lemma WritingOutside(tags: set<Tag>, v: Version)
    requires |v| > 0 && Bounded(tags, |v|) && Uniform(Written(tags, |v|), |v|) && Outside(tags, v)
    ensures ClosedMeaning(tags, AllStops(tags, |v|), v) <==> SidesOpen(tags, AllStops(tags, |v|), v)
    ensures ClosedMeaning(tags, Stops(tags, |v|), v) <==> SidesOpen(tags, Stops(tags, |v|), v)
    ensures SidesOpen(tags, Stops(tags, |v|), v) ==> SidesOpen(tags, AllStops(tags, |v|), v)
  {
    AllStopsAreWell(tags, |v|);
    OutsideMeaning(tags, Stops(tags, |v|), v);
    OutsideMeaning(tags, AllStops(tags, |v|), v);
    MoreStops(tags, AllStops(tags, |v|), |v|);
  }

  lemma WritingOnStop(tags: set<Tag>, v: Version)
    requires |v| > 0 && Bounded(tags, |v|) && Uniform(Written(tags, |v|), |v|) && NewAt(tags, v)
    ensures ClosedMeaning(tags, AllStops(tags, |v|), v) <==> forall x :: x in tags + AllStops(tags, |v|) && x.ver == v ==> x.op.Inclusive()
  {
    AllStopsAreWell(tags, |v|);
    MarkedMeaning(tags, AllStops(tags, |v|), v);
  }

  lemma WritingInside(tags: set<Tag>, v: Version)
    requires |v| > 0 && Bounded(tags, |v|) && Uniform(Written(tags, |v|), |v|) && !Outside(tags, v) && !NewAt(tags, v)
    ensures var all := AllStops(tags, |v|);
            ClosedMeaning(tags, all, v) <==>
            ClosedMeaning(tags, Stops(tags, |v|), v) && (Marked(tags, all, v) || !(UnderCap(tags, all, v) || OverFloor(tags, all, v)))
  {
    var S, all := Stops(tags, |v|), AllStops(tags, |v|);
    AllStopsAreWell(tags, |v|);
    MarkedMeaning(tags, S, v);
    MarkedMeaning(tags, all, v);
    if !Marked(tags, all, v) {
      if UnderCap(tags, all, v) || OverFloor(tags, all, v) { ShutInside(tags, all, v); } else { SameInside(tags, v, all); }
    }
  }

  // ----- Half stopped branches -----

  /** Between two half stopped branches, writing the stop opens every version. */
  lemma HalfStoppedOpens(tags: set<Tag>, v: Version, m: Tag, n: Tag)
    requires |v| > 0 && Bounded(tags, |v|) && HalfStopped(tags, |v|, m, n) && Less(Last(m.ver), v) && Less(v, First(n.ver))
    ensures Uniform(Written(tags, |v|), |v|) && !Accepted(tags, v) && Accepted(Written(tags, |v|), v)
  {
    WrittenForm(tags, v);
    ClosedForm(tags, v);
    BetweenHalves(tags, v, m, n);
    WritingOutside(tags, v);
    HalvesAreOpen(tags, v, m, n);
  }

  lemma HalvesAreOpen(tags: set<Tag>, v: Version, m: Tag, n: Tag)
    requires |v| > 0 && Bounded(tags, |v|) && Uniform(Written(tags, |v|), |v|) && HalfStopped(tags, |v|, m, n)
    requires Below(tags, v, m) && Above(tags, v, n)
    ensures !SidesOpen(tags, Stops(tags, |v|), v) && SidesOpen(tags, AllStops(tags, |v|), v)
  {
    var x := OtherHalf(tags, |v|, m, n);
    assert FurtherStop(tags, |v|, x);
    FurtherStopIsCalledFor(tags, |v|, x);
    OtherHalfStops(tags, |v|, m, n, AllStops(tags, |v|));
    NeighboursAreUnique(tags, v);
  }

  lemma OtherHalfStops(tags: set<Tag>, l: nat, m: Tag, n: Tag, all: set<Tag>)
    requires Bounded(tags, l) && HalfStopped(tags, l, m, n) && Stops(tags, l) <= all && OtherHalf(tags, l, m, n) in all
    ensures Capped(all, Branch(m.ver)) && Floored(all, Branch(n.ver))
  {
    MoreStops(tags, all, l);
    AuxVersion(m);
    AuxVersion(n);
    SameBranchOfLast(m.ver);
    SameBranchOfFirst(n.ver);
  }

  /** The two tags are the neighbours of such a version, and it is outside the branches of the tags. */
  lemma BetweenHalves(tags: set<Tag>, v: Version, m: Tag, n: Tag)
    requires |v| > 0 && Bounded(tags, |v|) && Adjacent(tags, m, n) && Less(Last(m.ver), v) && Less(v, First(n.ver))
    ensures Below(tags, v, m) && Above(tags, v, n) && Outside(tags, v)
  {
    LastOfBranch(m.ver, m.ver);
    FirstOfBranch(n.ver, n.ver);
    assert Less(m.ver, v) by { if m.ver != Last(m.ver) { Transitive(m.ver, Last(m.ver), v); } }
    assert Less(v, n.ver) by { if n.ver != First(n.ver) { Transitive(v, First(n.ver), n.ver); } }
    forall u | u in tags && Less(u.ver, v) ensures NotAfter(u, m) {
      Transitive(u.ver, v, n.ver);
      BeforeTrichotomy(m, u);
    }
    forall u | u in tags && Less(v, u.ver) ensures NotAfter(n, u) {
      Transitive(m.ver, v, u.ver);
      BeforeTrichotomy(n, u);
    }
    if t :| t in tags && Branch(t.ver) == Branch(v) && !Less(Last(v), v) {
      NotOutside(v, m, n, t);
    }
  }

  lemma NotOutside(v: Version, m: Tag, n: Tag, t: Tag)
    requires |v| == |m.ver| == |n.ver| == |t.ver| > 0 && Less(Last(m.ver), v) && Less(v, First(n.ver))
    requires Branch(t.ver) == Branch(v) && !Less(Last(v), v)
    ensures Less(m.ver, t.ver) && Less(t.ver, n.ver)
  {
    if Branch(m.ver) == Branch(v) { SameBranchSameEnds(m.ver, v); }
    if Branch(n.ver) == Branch(v) {
      SameBranchSameEnds(n.ver, v);
      FirstBeforeLast(v);
      Trichotomy(v, First(v));
    }
    SameBranchOfLast(m.ver);
    SameBranchOfFirst(n.ver);
    AcrossBranches(Last(m.ver), v);
    AcrossBranches(m.ver, t.ver);
    AcrossBranches(v, First(n.ver));
    AcrossBranches(t.ver, n.ver);
  }

  /** There always is such a version, past the sentinel end of the lower branch. */
  lemma HalfStoppedMatters(tags: set<Tag>, l: nat, m: Tag, n: Tag) returns (v: Version)
    requires l > 1 && Bounded(tags, l) && HalfStopped(tags, l, m, n)
    ensures |v| == l && Uniform(Written(tags, l), l) && !Accepted(tags, v) && Accepted(Written(tags, l), v)
  {
    var k := Keep(l);
    v := Branch(m.ver) + Repeat(SENTINEL + 1, l - k);
    LessByPrefix(Branch(m.ver), Repeat(SENTINEL, l - k), Branch(m.ver), Repeat(SENTINEL + 1, l - k));
    assert Less(Last(m.ver), v) by {
      assert Less(Repeat(SENTINEL, l - k), Repeat(SENTINEL + 1, l - k)) by { assert Repeat(SENTINEL, l - k)[0] < Repeat(SENTINEL + 1, l - k)[0]; }
    }
    assert v[..k] == Branch(m.ver);
    HigherBranchEnds(m.ver, v, n.ver);
    HalfStoppedOpens(tags, v, m, n);
  }

  /** A "-" tag, and two "+" tags of a later branch: only the later branch is stopped. */
  lemma OneHalf(m: Tag, a: Tag, b: Tag)
    requires |m.ver| == |a.ver| == |b.ver| == 2 && m.op.Le? && a.op.Ge? && b.op.Ge? && Less(m.ver, a.ver) && Less(a.ver, b.ver)
    requires Branch(m.ver) != Branch(a.ver) == Branch(b.ver) && Group(a.ver) != Group(b.ver)
    ensures var P := {m, a, b};
            Uniform(P, 2) && HalfStopped(P, 2, m, a) && Written(P, 2) == P + {AuxTag(b, 2)}
  {
    var P := {m, a, b};
    OnlyOnePair(m, a, b);
    var S := Stops(P, 2);
    assert S == {AuxTag(b, 2)} by {
      forall x | x in S ensures x == AuxTag(b, 2) { var s, t := StopOrigin(P, 2, x); }
      assert NeedsStop(P, a, b, true);
      assert AuxTag(b, 2) in S;
    }
    StopShape(P, 2, a, b);
    assert Floored(S, Branch(a.ver)) && !Capped(S, Branch(m.ver));
  }

  /** Of three ascending tags "-", "+", "+", only the last two are a pair of one sign. */
  lemma OnlyOnePair(m: Tag, a: Tag, b: Tag)
    requires m.op.Le? && a.op.Ge? && b.op.Ge? && Less(m.ver, a.ver) && Less(a.ver, b.ver)
    ensures Adjacent({m, a, b}, m, a) && Adjacent({m, a, b}, a, b)
    ensures forall s, t, plus :: NeedsStop({m, a, b}, s, t, plus) ==> s == a && t == b
  {
    Transitive(m.ver, a.ver, b.ver);
    BeforeTrichotomy(m, a);
    BeforeTrichotomy(a, b);
    BeforeTrichotomy(m, b);
    BeforeTrichotomy(m, m);
    BeforeTrichotomy(a, a);
    BeforeTrichotomy(b, b);
    assert m in {m, a, b} && a in {m, a, b} && b in {m, a, b};
  }

  /** The evaluation of tags written in full. */
  lemma EvaluationOfFull(tags: seq<Tag>, P: set<Tag>, v: Version)
    requires tags != [] && |v| > 0 && (forall t :: t in tags ==> |t.ver| == |v|) && forall t :: t in P <==> t in tags
    ensures Uniform(P, |v|) && Evaluation(tags, v) == Verdict(Accepted(P, v))
  {
    assert forall t :: t in tags ==> Padded(t, |v|) == t;
    assert PaddedSet(tags, |v|) == P;
  }

  lemma OpenedByWriting(P: set<Tag>, Q: set<Tag>, v: Version, m: Tag, n: Tag)
    requires |v| > 0 && Bounded(P, |v|) && HalfStopped(P, |v|, m, n) && Q == Written(P, |v|) && Less(Last(m.ver), v) && Less(v, First(n.ver))
    ensures Uniform(Q, |v|) && !Accepted(P, v) && Accepted(Q, v)
  {
    HalfStoppedOpens(P, v, m, n);
  }

  /** The written stop of such tags opens what lies between the branches. */
  lemma WrittenStopOpens(m: Tag, a: Tag, b: Tag, x: Tag, v: Version)
    requires |m.ver| == |a.ver| == |b.ver| == |v| == 2 && m.op.Le? && a.op.Ge? && b.op.Ge? && Less(m.ver, a.ver) && Less(a.ver, b.ver)
    requires Branch(m.ver) != Branch(a.ver) == Branch(b.ver) && Group(a.ver) != Group(b.ver) && x == AuxTag(b, 2)
    requires TailBounded(m.ver) && TailBounded(a.ver) && TailBounded(b.ver) && Less(Last(m.ver), v) && Less(v, First(a.ver))
    ensures Evaluation([m, a, b], v) == Verdict(false) && Evaluation([m, a, b, x], v) == Verdict(true)
  {
    OneHalf(m, a, b);
    BoundedThree(m, a, b, 2);
    OpenedByWriting({m, a, b}, {m, a, b} + {x}, v, m, a);
    ThreeAndFour(m, a, b, x, v);
  }

  lemma BoundedThree(m: Tag, a: Tag, b: Tag, l: nat)
    requires |m.ver| == |a.ver| == |b.ver| == l > 0 && TailBounded(m.ver) && TailBounded(a.ver) && TailBounded(b.ver)
    ensures Bounded({m, a, b}, l)
  {
  }

  lemma ThreeAndFour(m: Tag, a: Tag, b: Tag, x: Tag, v: Version)
    requires |m.ver| == |a.ver| == |b.ver| == |x.ver| == |v| > 0
    ensures Uniform({m, a, b}, |v|) && Evaluation([m, a, b], v) == Verdict(Accepted({m, a, b}, v))
    ensures Uniform({m, a, b} + {x}, |v|) && Evaluation([m, a, b, x], v) == Verdict(Accepted({m, a, b} + {x}, v))
  {
    EvaluationOfFull([m, a, b], {m, a, b}, v);
    EvaluationOfFull([m, a, b, x], {m, a, b} + {x}, v);
  }

  /** "-=6.2 +=8.4 +=8.6" rejects 7.5. Its stop is "-8.0"; with that written out it accepts 7.5. */
  lemma WrittenStopMatters()
    ensures AuxTag(Tag(Ge, [8, 6]), 2) == Tag(Lt, [8, 0])
    ensures Evaluation([Tag(Le, [6, 2]), Tag(Ge, [8, 4]), Tag(Ge, [8, 6])], [7, 5]) == Verdict(false)
    ensures Evaluation([Tag(Le, [6, 2]), Tag(Ge, [8, 4]), Tag(Ge, [8, 6]), Tag(Lt, [8, 0])], [7, 5]) == Verdict(true)
  {
    var m, a, b, v := Tag(Le, [6, 2]), Tag(Ge, [8, 4]), Tag(Ge, [8, 6]), [7, 5];
    assert Branch(m.ver) == [6] && Branch(a.ver) == [8] == Branch(b.ver) && Group(a.ver)[1] != Group(b.ver)[1];
    assert Less(m.ver, a.ver) && Less(a.ver, b.ver) && Less(Last(m.ver), v) && Less(v, First(a.ver));
    assert AuxTag(b, 2) == Tag(Lt, [8, 0]) by {
      assert b.ver[1..][0] == 6;
      assert [8] + Repeat(0, 1) == [8, 0];
    }
    WrittenStopOpens(m, a, b, Tag(Lt, [8, 0]), v);
  }
}
