/**
 * Tags of one sign: the documented readings of "+=" and of "-=" tags, and the versions on which
 * they fail, for versions of any length. Versions of two components fail most: there the passes
 * tell groups apart by both components while a stop keeps only the first.
 */
module VersionOneSign {
  import opened VersionOrder
  import opened VersionTags
  import opened VersionLaws
  import opened VersionClosedForm

  ghost predicate OnlyOp(tags: set<Tag>, op: Op) {
    forall t :: t in tags ==> t.op == op
  }

  // ----- Which branches are stopped -----

  /** Two tags in different groups, in this order. */
  ghost predicate Apart(tags: set<Tag>, s: Tag, t: Tag) {
    s in tags && t in tags && Less(s.ver, t.ver) && Group(s.ver) != Group(t.ver)
  }

  lemma GroupHasBranch(a: Version, b: Version)
    requires |a| == |b| > 0 && Group(a) == Group(b)
    ensures Branch(a) == Branch(b)
  {
    var k := Keep(|a|);
    if |a| > 2 { assert a[..2][..k] == a[..k] && b[..2][..k] == b[..k]; }
  }

  /** Between two tags in different groups there is an adjacent pair whose upper tag is in the group of the upper one. */
  lemma AdjacentBefore(tags: set<Tag>, l: nat, s: Tag, t: Tag) returns (m: Tag, n: Tag)
    requires l > 0 && Uniform(tags, l) && Apart(tags, s, t)
    ensures Adjacent(tags, m, n) && Group(m.ver) != Group(n.ver) && Group(n.ver) == Group(t.ver) && Branch(n.ver) == Branch(t.ver)
    ensures AtMost(s.ver, m.ver) && Less(m.ver, n.ver)
  {
    var others := set u | u in tags && Group(u.ver) != Group(t.ver);
    m := BelowExists(others, t.ver, s);
    n := AboveExists(tags, m.ver, t);
    assert Group(n.ver) == Group(t.ver) by {
      assert NotAfter(n, t);
      if Group(n.ver) != Group(t.ver) {
        assert NotAfter(n, m);
        Trichotomy(n.ver, m.ver);
      }
    }
    GroupHasBranch(n.ver, t.ver);
    NextOf(tags, others, t.ver, m, n);
    assert NotAfter(s, m);
  }

  /** With "+" tags only, a branch is stopped if some tag of another group lies before some tag of it. */
  lemma PlusStoppedIff(tags: set<Tag>, l: nat, b: Version)
    requires l > 0 && Uniform(tags, l) && forall t :: t in tags ==> t.op.Plus()
    ensures Floored(Stops(tags, l), b) <==> exists s, t :: Apart(tags, s, t) && Branch(t.ver) == b
    ensures !Capped(Stops(tags, l), b)
  {
    StoppedBranches(tags, l, b);
    if s, t :| NeedsStop(tags, s, t, true) && Branch(t.ver) == b {
      assert Apart(tags, s, t);
    }
    if s, t :| Apart(tags, s, t) && Branch(t.ver) == b {
      var m, n := AdjacentBefore(tags, l, s, t);
      assert NeedsStop(tags, m, n, true);
    }
  }

  /** The greatest of some tags that share their versions' groups, and the next tag after its version, are adjacent. */
  lemma NextOf(tags: set<Tag>, others: set<Tag>, v: Version, m: Tag, n: Tag)
    requires others <= tags && Below(others, v, m) && Above(tags, m.ver, n)
    requires forall u :: u in tags && u.ver == m.ver ==> u in others
    ensures Adjacent(tags, m, n)
  {
    BeforeIsTotalOrder();
  }

  lemma AdjacentAfter(tags: set<Tag>, l: nat, s: Tag, t: Tag) returns (m: Tag, n: Tag)
    requires l > 0 && Uniform(tags, l) && Apart(tags, s, t)
    ensures Adjacent(tags, m, n) && Group(m.ver) != Group(n.ver) && Group(m.ver) == Group(s.ver) && Branch(m.ver) == Branch(s.ver)
    ensures AtMost(n.ver, t.ver) && Less(m.ver, n.ver) && AtMost(s.ver, m.ver)
  {
    var others := set u | u in tags && Group(u.ver) != Group(s.ver);
    n := AboveExists(others, s.ver, t);
    m := BelowExists(tags, n.ver, s);
    assert Group(m.ver) == Group(s.ver) by {
      assert NotAfter(s, m);
      if Group(m.ver) != Group(s.ver) {
        assert NotAfter(n, m);
        Trichotomy(n.ver, m.ver);
      }
    }
    GroupHasBranch(m.ver, s.ver);
    PreviousOf(tags, others, s.ver, m, n);
    assert NotAfter(n, t) && NotAfter(s, m);
  }

  /** With "-" tags only, a branch is stopped if some tag of another group lies after some tag of it. */
  lemma MinusStoppedIff(tags: set<Tag>, l: nat, b: Version)
    requires l > 0 && Uniform(tags, l) && forall t :: t in tags ==> !t.op.Plus()
    ensures Capped(Stops(tags, l), b) <==> exists s, t :: Apart(tags, s, t) && Branch(s.ver) == b
    ensures !Floored(Stops(tags, l), b)
  {
    StoppedBranches(tags, l, b);
    if s, t :| NeedsStop(tags, s, t, false) && Branch(s.ver) == b {
      assert Apart(tags, s, t);
    }
    if s, t :| Apart(tags, s, t) && Branch(s.ver) == b {
      var m, n := AdjacentAfter(tags, l, s, t);
      assert NeedsStop(tags, m, n, false);
    }
  }

  lemma PreviousOf(tags: set<Tag>, others: set<Tag>, v: Version, m: Tag, n: Tag)
    requires others <= tags && Above(others, v, n) && Below(tags, n.ver, m)
    requires forall u :: u in tags && u.ver == n.ver ==> u in others
    ensures Adjacent(tags, m, n)
  {
    BeforeIsTotalOrder();
  }

  // ----- The documented readings -----

  /** No tag of the version's branch lies above it. */
  ghost predicate LastOfItsBranch(tags: set<Tag>, v: Version)
    requires |v| > 0 && Uniform(tags, |v|)
  {
    forall t :: t in tags && Branch(t.ver) == Branch(v) ==> AtMost(t.ver, v)
  }

  ghost predicate FirstOfItsBranch(tags: set<Tag>, v: Version)
    requires |v| > 0 && Uniform(tags, |v|)
  {
    forall t :: t in tags && Branch(t.ver) == Branch(v) ==> AtMost(v, t.ver)
  }

  /** "+=": a listed release, or a release after some tag and not before one of its own branch. */
  ghost predicate PlusLaw(tags: set<Tag>, v: Version)
    requires |v| > 0 && Uniform(tags, |v|)
  {
    || !Gap(tags, v)
    || ((exists t :: t in tags && Less(t.ver, v)) && LastOfItsBranch(tags, v))
  }

  /** "-=": a listed release, or a release before some tag and not after one of its own branch. */
  ghost predicate MinusLaw(tags: set<Tag>, v: Version)
    requires |v| > 0 && Uniform(tags, |v|)
  {
    || !Gap(tags, v)
    || ((exists t :: t in tags && Less(v, t.ver)) && FirstOfItsBranch(tags, v))
  }

  lemma NextDecidesBranch(tags: set<Tag>, v: Version, hi: Tag)
    requires |v| > 0 && Uniform(tags, |v|) && Above(tags, v, hi)
    ensures LastOfItsBranch(tags, v) <==> Branch(hi.ver) != Branch(v)
  {
    TotalOrder();
    forall u | u in tags && Branch(u.ver) == Branch(v) && Less(v, u.ver) ensures Branch(hi.ver) == Branch(v) {
      if hi.ver != u.ver { Between(v, hi.ver, u.ver); }
    }
  }

  lemma PreviousDecidesBranch(tags: set<Tag>, v: Version, lo: Tag)
    requires |v| > 0 && Uniform(tags, |v|) && Below(tags, v, lo)
    ensures FirstOfItsBranch(tags, v) <==> Branch(lo.ver) != Branch(v)
  {
    TotalOrder();
    forall u | u in tags && Branch(u.ver) == Branch(v) && Less(u.ver, v) ensures Branch(lo.ver) == Branch(v) {
      if lo.ver != u.ver { Between(u.ver, lo.ver, v); }
    }
  }

  /** Tags on either side of a version that are of different branches are in different groups. */
  lemma ApartAcross(tags: set<Tag>, v: Version, lo: Tag, hi: Tag)
    requires |v| > 0 && Uniform(tags, |v|) && lo in tags && hi in tags && Less(lo.ver, v) && Less(v, hi.ver)
    requires Branch(lo.ver) != Branch(hi.ver)
    ensures Apart(tags, lo, hi)
  {
    Transitive(lo.ver, v, hi.ver);
    if Group(lo.ver) == Group(hi.ver) { GroupHasBranch(lo.ver, hi.ver); }
  }

  // ----- "+=" -----

  /** A later tag of a listed first release puts a stop on that release. */
  ghost predicate StopOnListed(tags: set<Tag>, v: Version)
    requires |v| > 0 && Uniform(tags, |v|)
  {
    v == First(v) && exists s, t :: Apart(tags, s, t) && s.ver == v && Branch(t.ver) == Branch(v)
  }

  /** Two tags in the lowest branch put a stop below all tags: everything before that branch is accepted. */
  ghost predicate StopBelowAll(tags: set<Tag>, v: Version)
    requires |v| > 0 && Uniform(tags, |v|)
  {
    exists a, b :: Apart(tags, a, b) && Branch(a.ver) == Branch(b.ver)
                   && (forall u :: u in tags ==> AtMost(a.ver, u.ver)) && Less(v, First(a.ver))
  }

  /** The versions on which the documented reading of "+=" tags fails. */
  ghost predicate Misplaced(tags: set<Tag>, v: Version)
    requires |v| > 0 && Uniform(tags, |v|)
  {
    StopOnListed(tags, v) || StopBelowAll(tags, v)
  }

  /** Groups are convex. */
  lemma GroupBetween(a: Version, b: Version, c: Version)
    requires |a| == |b| == |c| > 0 && Less(a, b) && Less(b, c) && Group(a) == Group(c)
    ensures Group(b) == Group(a)
  {
    if |a| <= 2 {
      TotalOrder();
    } else {
      Between(a, b, c);
    }
  }

  /** An adjacent pair in different groups, whose upper tag follows a listed version, parts that version from the upper tag. */
  lemma ListedApart(tags: set<Tag>, v: Version, s: Tag, t: Tag, w: Tag)
    requires |v| > 0 && Uniform(tags, |v|) && Adjacent(tags, s, t) && Group(s.ver) != Group(t.ver)
    requires w in tags && w.ver == v && Less(v, t.ver)
    ensures Apart(tags, w, t)
  {
    BeforeIsTotalOrder();
    assert NotAfter(w, s);
    if Group(w.ver) == Group(t.ver) {
      Trichotomy(s.ver, t.ver);
      Trichotomy(w.ver, s.ver);
      GroupBetween(w.ver, s.ver, t.ver);
    }
  }

  /** "+=" tags at a listed version. */
  lemma PlusListed(tags: set<Tag>, v: Version)
    requires |v| > 0 && Uniform(tags, |v|) && OnlyOp(tags, Ge) && !Gap(tags, v)
    ensures StopsTouch(Stops(tags, |v|), v) <==> !StopOnListed(tags, v)
    ensures !StopBelowAll(tags, v)
  {
    assert forall t :: t in tags ==> t.op == Ge;
    if !StopsTouch(Stops(tags, |v|), v) { PlusExclusive(tags, v); }
    if StopOnListed(tags, v) { PlusOnListed(tags, v); }
    if StopBelowAll(tags, v) { BelowAllIsBelow(tags, v); Trichotomy(v, v); }
  }

  lemma PlusExclusive(tags: set<Tag>, v: Version)
    requires |v| > 0 && Uniform(tags, |v|) && (forall t :: t in tags ==> t.op == Ge) && !Gap(tags, v)
    requires !StopsTouch(Stops(tags, |v|), v)
    ensures StopOnListed(tags, v)
  {
    var w :| w in tags && w.ver == v;
    var s, t := ExclusiveStop(tags, v);
    ZeroTailIff(t.ver);
    SameBranchSameEnds(t.ver, v);
    FirstBeforeLast(t.ver);
    ListedApart(tags, v, s, t, w);
  }

  lemma PlusOnListed(tags: set<Tag>, v: Version)
    requires |v| > 0 && Uniform(tags, |v|) && (forall t :: t in tags ==> t.op == Ge) && StopOnListed(tags, v)
    ensures !StopsTouch(Stops(tags, |v|), v)
  {
    var s, t :| Apart(tags, s, t) && s.ver == v && Branch(t.ver) == Branch(v);
    var m, n := AdjacentBefore(tags, |v|, s, t);
    assert NeedsStop(tags, m, n, true);
    if StopsTouch(Stops(tags, |v|), v) {
      InclusiveStop(tags, v, m, n);
      ZeroTailIff(n.ver);
      SameBranchSameEnds(n.ver, v);
      Trichotomy(m.ver, v);
    }
  }

  lemma BelowAllIsBelow(tags: set<Tag>, v: Version)
    requires |v| > 0 && Uniform(tags, |v|) && StopBelowAll(tags, v)
    ensures forall u :: u in tags ==> Less(v, u.ver) && Branch(u.ver) != Branch(v)
  {
    var a, b :| Apart(tags, a, b) && Branch(a.ver) == Branch(b.ver)
                && (forall u :: u in tags ==> AtMost(a.ver, u.ver)) && Less(v, First(a.ver));
    forall u | u in tags ensures Less(v, u.ver) && Branch(u.ver) != Branch(v) { BeforeBranch(v, a.ver, u.ver); }
  }

  /** Before the branch of a version is before all that follow it. */
  lemma BeforeBranch(v: Version, a: Version, u: Version)
    requires |v| == |a| == |u| > 0 && Less(v, First(a)) && AtMost(a, u)
    ensures Less(v, u) && Branch(u) != Branch(v)
  {
    FirstBeforeLast(a);
    if First(a) != a { Transitive(v, First(a), a); }
    if a != u { Transitive(v, a, u); }
    if Branch(u) == Branch(v) {
      if a != u { Between(v, a, u); }
      SameBranchSameEnds(v, a);
      FirstBeforeLast(v);
      Trichotomy(v, First(v));
    }
  }

  lemma PlusClosedInBranch(tags: set<Tag>, v: Version)
    requires |v| > 0 && Uniform(tags, |v|) && OnlyOp(tags, Ge) && !LastOfItsBranch(tags, v)
    ensures !OpenAbove(tags, Stops(tags, |v|), v)
  {
    var t :| t in tags && Branch(t.ver) == Branch(v) && !AtMost(t.ver, v);
    Trichotomy(v, t.ver);
    var hi := AboveExists(tags, v, t);
    NextDecidesBranch(tags, v, hi);
    assert hi.op == Ge;
  }

  lemma PlusOpen(tags: set<Tag>, v: Version, lo: Tag)
    requires |v| > 0 && Uniform(tags, |v|) && OnlyOp(tags, Ge) && Gap(tags, v) && Below(tags, v, lo) && LastOfItsBranch(tags, v)
    ensures OpenBelow(tags, Stops(tags, |v|), v) && OpenAbove(tags, Stops(tags, |v|), v)
  {
    PlusStoppedIff(tags, |v|, Branch(v));
    NeighboursAreUnique(tags, v);
    assert forall t :: t in tags ==> t.op == Ge;
    if Branch(lo.ver) != Branch(v) {
      NothingOfBranchBelow(tags, v);
      assert !Floored(Stops(tags, |v|), Branch(v)) by {
        if s, t :| NeedsStop(tags, s, t, true) && Branch(t.ver) == Branch(v) { Trichotomy(t.ver, v); }
      }
    }
    forall hi | Above(tags, v, hi) ensures Branch(hi.ver) != Branch(v) && Floored(Stops(tags, |v|), Branch(hi.ver)) {
      NextDecidesBranch(tags, v, hi);
      PlusStoppedIff(tags, |v|, Branch(hi.ver));
      if Branch(lo.ver) == Branch(hi.ver) { Between(lo.ver, v, hi.ver); }
      ApartAcross(tags, v, lo, hi);
    }
  }

  /** Before all tags, only a misplaced stop opens the version. */
  lemma PlusBefore(tags: set<Tag>, v: Version, hi: Tag)
    requires |v| > 0 && Uniform(tags, |v|) && OnlyOp(tags, Ge) && Above(tags, v, hi)
    requires forall t :: t in tags ==> Less(v, t.ver) && !Less(t.ver, v)
    ensures OpenBelow(tags, Stops(tags, |v|), v) && OpenAbove(tags, Stops(tags, |v|), v) <==> StopBelowAll(tags, v)
  {
    if StopBelowAll(tags, v) { PlusBeforeIf(tags, v, hi); }
    if OpenBelow(tags, Stops(tags, |v|), v) && OpenAbove(tags, Stops(tags, |v|), v) { PlusBeforeOnlyIf(tags, v, hi); }
  }

  lemma PlusBeforeIf(tags: set<Tag>, v: Version, hi: Tag)
    requires |v| > 0 && Uniform(tags, |v|) && OnlyOp(tags, Ge) && Above(tags, v, hi)
    requires (forall t :: t in tags ==> Less(v, t.ver) && !Less(t.ver, v)) && StopBelowAll(tags, v)
    ensures OpenBelow(tags, Stops(tags, |v|), v) && OpenAbove(tags, Stops(tags, |v|), v)
  {
    BelowAllIsBelow(tags, v);
    assert forall t :: t in tags ==> t.op == Ge;
    PlusStoppedIff(tags, |v|, Branch(v));
    LeastIsStopped(tags, v, hi);
    NeighboursAreUnique(tags, v);
  }

  lemma LeastIsStopped(tags: set<Tag>, v: Version, hi: Tag)
    requires |v| > 0 && Uniform(tags, |v|) && OnlyOp(tags, Ge) && Above(tags, v, hi)
    requires (forall t :: t in tags ==> Less(v, t.ver)) && StopBelowAll(tags, v)
    ensures Floored(Stops(tags, |v|), Branch(hi.ver))
  {
    var a, b :| Apart(tags, a, b) && Branch(a.ver) == Branch(b.ver)
                && (forall u :: u in tags ==> AtMost(a.ver, u.ver)) && Less(v, First(a.ver));
    LeastOfAll(tags, v, hi);
    Trichotomy(hi.ver, a.ver);
    assert forall t :: t in tags ==> t.op == Ge;
    PlusStoppedIff(tags, |v|, Branch(b.ver));
  }

  lemma PlusBeforeOnlyIf(tags: set<Tag>, v: Version, hi: Tag)
    requires |v| > 0 && Uniform(tags, |v|) && OnlyOp(tags, Ge) && Above(tags, v, hi)
    requires (forall t :: t in tags ==> Less(v, t.ver) && !Less(t.ver, v)) && OpenAbove(tags, Stops(tags, |v|), v)
    ensures StopBelowAll(tags, v)
  {
    OpenUnderPlus(tags, v, hi);
    var s, t := StoppedPair(tags, |v|, Branch(hi.ver));
    HigherBranchEnds(v, v, hi.ver);
    LeastOfAll(tags, v, hi);
    StopBelowAllBy(tags, v, hi, t, s);
  }

  /** Under a "+" tag a version is open only if that is of another, stopped branch. */
  lemma OpenUnderPlus(tags: set<Tag>, v: Version, hi: Tag)
    requires |v| > 0 && Uniform(tags, |v|) && OnlyOp(tags, Ge) && Above(tags, v, hi) && OpenAbove(tags, Stops(tags, |v|), v)
    ensures Branch(hi.ver) != Branch(v) && Floored(Stops(tags, |v|), Branch(hi.ver))
  {
    assert hi.op == Ge;
  }

  lemma StoppedPair(tags: set<Tag>, l: nat, b: Version) returns (s: Tag, t: Tag)
    requires l > 0 && Uniform(tags, l) && OnlyOp(tags, Ge) && Floored(Stops(tags, l), b)
    ensures Apart(tags, s, t) && Branch(t.ver) == b
  {
    assert forall t :: t in tags ==> t.op == Ge;
    PlusStoppedIff(tags, l, b);
    s, t :| Apart(tags, s, t) && Branch(t.ver) == b;
  }

  lemma LeastOfAll(tags: set<Tag>, v: Version, hi: Tag)
    requires Above(tags, v, hi) && forall t :: t in tags ==> Less(v, t.ver)
    ensures forall u :: u in tags ==> AtMost(hi.ver, u.ver)
  {
    forall u | u in tags ensures AtMost(hi.ver, u.ver) { assert NotAfter(hi, u); }
  }

  lemma StopBelowAllBy(tags: set<Tag>, v: Version, a: Tag, b: Tag, s: Tag)
    requires |v| > 0 && Uniform(tags, |v|) && a in tags && (forall u :: u in tags ==> AtMost(a.ver, u.ver)) && Less(v, First(a.ver))
    requires Apart(tags, s, b) && Branch(b.ver) == Branch(a.ver)
    ensures StopBelowAll(tags, v)
  {
    assert AtMost(a.ver, s.ver);
    TotalOrder();
    if Group(a.ver) == Group(b.ver) && a.ver != s.ver {
      GroupBetween(a.ver, s.ver, b.ver);
    }
    assert Apart(tags, a, b);
  }

  lemma OnlyTwoComponents(tags: set<Tag>, v: Version)
    requires |v| > 0 && Uniform(tags, |v|) && exists s, t :: Apart(tags, s, t) && Branch(s.ver) == Branch(t.ver)
    ensures |v| == 2
  {
    var s, t :| Apart(tags, s, t) && Branch(s.ver) == Branch(t.ver);
  }

  /**
   * "+=" tags, for versions of any length: the documented reading holds exactly where no stop is
   * misplaced, and only versions of two components can have a misplaced stop.
   */
  lemma PlusTagsExactly(tags: set<Tag>, v: Version)
    requires tags != {} && |v| > 0 && Uniform(tags, |v|) && OnlyOp(tags, Ge)
    ensures Accepted(tags, v) <==> (PlusLaw(tags, v) != Misplaced(tags, v))
    ensures Misplaced(tags, v) ==> |v| == 2
  {
    ClosedForm(tags, v);
    if Misplaced(tags, v) { OnlyTwoComponents(tags, v); }
    if !Gap(tags, v) {
      PlusListed(tags, v);
      assert forall t :: t in tags ==> t.op == Ge;
    } else if s :| s in tags && Less(s.ver, v) {
      var lo := BelowExists(tags, v, s);
      assert !Misplaced(tags, v) by { if StopBelowAll(tags, v) { BelowAllIsBelow(tags, v); Trichotomy(lo.ver, v); } }
      PlusInGap(tags, v, lo);
    } else {
      var t :| t in tags;
      forall u | u in tags ensures Less(v, u.ver) && !Less(u.ver, v) { Trichotomy(u.ver, v); }
      var hi := AboveExists(tags, v, t);
      PlusBefore(tags, v, hi);
      if Marked(tags, Stops(tags, |v|), v) { PlusMarkedInGap(tags, v); PlusClosedInBranch(tags, v); }
    }
  }

  lemma PlusInGap(tags: set<Tag>, v: Version, lo: Tag)
    requires |v| > 0 && Uniform(tags, |v|) && OnlyOp(tags, Ge) && Gap(tags, v) && Below(tags, v, lo)
    ensures ClosedMeaning(tags, Stops(tags, |v|), v) <==> LastOfItsBranch(tags, v)
  {
    if LastOfItsBranch(tags, v) { PlusOpen(tags, v, lo); } else { PlusClosedInBranch(tags, v); }
    if Marked(tags, Stops(tags, |v|), v) { PlusMarkedInGap(tags, v); }
  }

  /** A stop that stands on a version in a gap closes it, as do the tags of its branch above. */
  lemma PlusMarkedInGap(tags: set<Tag>, v: Version)
    requires |v| > 0 && Uniform(tags, |v|) && OnlyOp(tags, Ge) && Gap(tags, v) && Marked(tags, Stops(tags, |v|), v)
    ensures !StopsTouch(Stops(tags, |v|), v) && !LastOfItsBranch(tags, v)
  {
    assert forall t :: t in tags ==> t.op == Ge;
    PlusStoppedIff(tags, |v|, Branch(v));
    StoppedBranches(tags, |v|, Branch(v));
    var s, t :| NeedsStop(tags, s, t, true) && Branch(t.ver) == Branch(v);
    ZeroTailIff(t.ver);
    SameBranchSameEnds(t.ver, v);
    FirstBeforeLast(t.ver);
    Trichotomy(v, t.ver);
    if StopsTouch(Stops(tags, |v|), v) { InclusiveStop(tags, v, s, t); }
  }

  // ----- "-=" -----

  /** Some tag of the branch has a tag of another group after it. */
  ghost predicate HasLater(tags: set<Tag>, b: Version)
    requires forall t :: t in tags ==> t.ver != []
  {
    exists s, t :: Apart(tags, s, t) && Branch(s.ver) == b
  }

  /** Two tags in the highest branch put a stop above all tags: everything past that branch is accepted. */
  ghost predicate StopAboveAll(tags: set<Tag>, v: Version)
    requires |v| > 0 && Uniform(tags, |v|)
  {
    exists a, b :: Apart(tags, a, b) && Branch(a.ver) == Branch(b.ver)
                   && (forall u :: u in tags ==> AtMost(u.ver, b.ver)) && Less(Last(b.ver), v)
  }

  /**
   * The stop on the sentinel end of the version's own branch decides: the version is past it, or is
   * that end, where the stop closes a listed release and, if inclusive, opens any other.
   */
  ghost predicate EndStop(tags: set<Tag>, v: Version)
    requires |v| > 0 && Uniform(tags, |v|)
  {
    && AtMost(Last(v), v) && HasLater(tags, Branch(v))
    && (v == Last(v) ==> (Gap(tags, v) <==> forall s, t :: Apart(tags, s, t) && Branch(s.ver) == Branch(v) ==> s.ver == First(v)))
  }

  /** Tags "-=", none past the sentinel end of its branch. */
  ghost predicate BoundedMinus(tags: set<Tag>, l: nat) {
    l > 0 && Uniform(tags, l) && OnlyOp(tags, Le) && forall t :: t in tags ==> TailBounded(t.ver)
  }

  lemma MinusStops(tags: set<Tag>, l: nat, b: Version)
    requires BoundedMinus(tags, l)
    ensures !Floored(Stops(tags, l), b) && (Capped(Stops(tags, l), b) <==> HasLater(tags, b))
    ensures forall t :: t in tags ==> t.op == Le && !t.op.Plus() && AtMost(t.ver, Last(t.ver)) && !Less(Last(t.ver), t.ver)
  {
    assert forall t :: t in tags ==> t.op == Le;
    MinusStoppedIff(tags, l, b);
    forall t | t in tags ensures AtMost(t.ver, Last(t.ver)) && !Less(Last(t.ver), t.ver) {
      LastOfBranch(t.ver, t.ver);
      Trichotomy(t.ver, Last(t.ver));
    }
  }

  lemma MinusTouch(tags: set<Tag>, v: Version)
    requires |v| > 0 && BoundedMinus(tags, |v|) && v == Last(v)
    ensures StopsTouch(Stops(tags, |v|), v) <==> forall s, t :: Apart(tags, s, t) && Branch(s.ver) == Branch(v) ==> s.ver == First(v)
  {
    assert forall t :: t in tags ==> t.op == Le;
    if StopsTouch(Stops(tags, |v|), v) {
      forall s, t | Apart(tags, s, t) && Branch(s.ver) == Branch(v) ensures s.ver == First(v) { MinusTouches(tags, v, s, t); }
    } else {
      var s, t := ExclusiveStop(tags, v);
      ZeroTailIff(s.ver);
      SameBranchSameEnds(s.ver, v);
      assert Apart(tags, s, t);
    }
  }

  lemma MinusTouches(tags: set<Tag>, v: Version, s: Tag, t: Tag)
    requires |v| > 0 && Uniform(tags, |v|) && (forall t :: t in tags ==> t.op == Le) && v == Last(v)
    requires StopsTouch(Stops(tags, |v|), v) && Apart(tags, s, t) && Branch(s.ver) == Branch(v)
    ensures s.ver == First(v)
  {
    var m, n := AdjacentAfter(tags, |v|, s, t);
    assert NeedsStop(tags, m, n, false);
    InclusiveStop(tags, v, m, n);
    ZeroTailIff(m.ver);
    SameBranchSameEnds(m.ver, v);
    SameBranchSameEnds(s.ver, v);
    FirstBeforeLast(s.ver);
    Trichotomy(s.ver, m.ver);
  }

  lemma NotAboveAll(tags: set<Tag>, v: Version, t: Tag)
    requires |v| > 0 && BoundedMinus(tags, |v|) && t in tags && AtMost(v, t.ver)
    ensures !StopAboveAll(tags, v)
  {
    if a, b :| Apart(tags, a, b) && Branch(a.ver) == Branch(b.ver)
               && (forall u :: u in tags ==> AtMost(u.ver, b.ver)) && Less(Last(b.ver), v) {
      LastOfBranch(b.ver, b.ver);
      TotalOrder();
    }
  }

  /** With a tag of the version's branch below, a stop above all tags is the stop of that branch. */
  lemma AboveAllInBranch(tags: set<Tag>, v: Version, t: Tag)
    requires |v| > 0 && BoundedMinus(tags, |v|) && t in tags && Branch(t.ver) == Branch(v) && StopAboveAll(tags, v)
    ensures HasLater(tags, Branch(v)) && Less(Last(v), v)
  {
    var a, b :| Apart(tags, a, b) && Branch(a.ver) == Branch(b.ver)
                && (forall u :: u in tags ==> AtMost(u.ver, b.ver)) && Less(Last(b.ver), v);
    if Branch(b.ver) != Branch(v) {
      SameBranchOfLast(b.ver);
      AcrossBranches(Last(b.ver), v);
      AcrossBranches(t.ver, b.ver);
      Trichotomy(Branch(v), Branch(b.ver));
    }
    SameBranchSameEnds(b.ver, v);
  }

  lemma MinusListed(tags: set<Tag>, v: Version)
    requires |v| > 0 && BoundedMinus(tags, |v|) && !Gap(tags, v)
    ensures Marked(tags, Stops(tags, |v|), v) && !StopAboveAll(tags, v) && (StopsTouch(Stops(tags, |v|), v) <==> !EndStop(tags, v))
  {
    var w :| w in tags && w.ver == v;
    NotAboveAll(tags, v, w);
    MinusStops(tags, |v|, Branch(v));
    assert AtMost(v, Last(v)) && !Less(Last(v), v);
    if v == Last(v) { MinusTouch(tags, v); }
  }

  /** In a gap at the sentinel end of a branch with a stop there, that stop decides. */
  lemma MinusOnStop(tags: set<Tag>, v: Version)
    requires |v| > 0 && BoundedMinus(tags, |v|) && Gap(tags, v) && Marked(tags, Stops(tags, |v|), v)
    ensures v == Last(v) && HasLater(tags, Branch(v)) && !MinusLaw(tags, v) && !StopAboveAll(tags, v)
  {
    MinusStops(tags, |v|, Branch(v));
    var s, t :| Apart(tags, s, t) && Branch(s.ver) == Branch(v);
    SameBranchSameEnds(s.ver, v);
    Trichotomy(s.ver, v);
    assert !FirstOfItsBranch(tags, v);
    if StopAboveAll(tags, v) {
      AboveAllInBranch(tags, v, s);
      Trichotomy(v, v);
    }
  }

  /** With a tag of the version's branch next below, only the stop at the end of the branch opens the version. */
  lemma MinusInBranch(tags: set<Tag>, v: Version, lo: Tag)
    requires |v| > 0 && BoundedMinus(tags, |v|) && Gap(tags, v) && !Marked(tags, Stops(tags, |v|), v)
    requires Below(tags, v, lo) && Branch(lo.ver) == Branch(v)
    ensures !MinusLaw(tags, v) && (ClosedMeaning(tags, Stops(tags, |v|), v) <==> StopAboveAll(tags, v) || EndStop(tags, v))
  {
    MinusStops(tags, |v|, Branch(v));
    PreviousDecidesBranch(tags, v, lo);
    if StopAboveAll(tags, v) { AboveAllInBranch(tags, v, lo); }
    forall t | t in tags && Branch(t.ver) == Branch(v) ensures AtMost(t.ver, Last(v)) { SameBranchSameEnds(t.ver, v); }
    Trichotomy(v, Last(v));
    MinusOpenAbove(tags, v);
  }

  lemma MinusOpenAbove(tags: set<Tag>, v: Version)
    requires |v| > 0 && BoundedMinus(tags, |v|)
    ensures OpenAbove(tags, Stops(tags, |v|), v) <==> !BeforeStop(tags, Stops(tags, |v|), v)
  {
    MinusStops(tags, |v|, Branch(v));
  }

  /** A tag below, of another branch, has a later tag above the version: its branch is stopped. */
  lemma LowerIsStopped(tags: set<Tag>, v: Version, lo: Tag, hi: Tag)
    requires |v| > 0 && BoundedMinus(tags, |v|) && Below(tags, v, lo) && Above(tags, v, hi) && Branch(lo.ver) != Branch(v)
    ensures Capped(Stops(tags, |v|), Branch(lo.ver)) && AtMost(lo.ver, Last(lo.ver))
  {
    if Branch(lo.ver) == Branch(hi.ver) { Between(lo.ver, v, hi.ver); }
    ApartAcross(tags, v, lo, hi);
    MinusStops(tags, |v|, Branch(lo.ver));
  }

  /** With tags above and none of the version's branch below, the version is open, as documented. */
  lemma MinusBetween(tags: set<Tag>, v: Version, hi: Tag)
    requires |v| > 0 && BoundedMinus(tags, |v|) && Gap(tags, v) && !Marked(tags, Stops(tags, |v|), v) && Above(tags, v, hi)
    requires FirstOfItsBranch(tags, v)
    ensures ClosedMeaning(tags, Stops(tags, |v|), v)
  {
    MinusStops(tags, |v|, Branch(v));
    MinusOpenAbove(tags, v);
    NotBeforeStop(tags, v);
    forall lo | Below(tags, v, lo) ensures Branch(lo.ver) != Branch(v) && Capped(Stops(tags, |v|), Branch(lo.ver)) && AtMost(lo.ver, Last(lo.ver)) {
      PreviousDecidesBranch(tags, v, lo);
      LowerIsStopped(tags, v, lo, hi);
    }
  }

  lemma NotBeforeStop(tags: set<Tag>, v: Version)
    requires |v| > 0 && BoundedMinus(tags, |v|) && Gap(tags, v) && FirstOfItsBranch(tags, v)
    ensures !BeforeStop(tags, Stops(tags, |v|), v)
  {
    if BeforeStop(tags, Stops(tags, |v|), v) {
      MinusStops(tags, |v|, Branch(v));
      var s, t :| Apart(tags, s, t) && Branch(s.ver) == Branch(v);
      SameBranchSameEnds(s.ver, v);
    }
  }

  /** Past all tags, in a branch of none of them, only a stop above all tags opens the version. */
  lemma MinusAfter(tags: set<Tag>, v: Version, lo: Tag)
    requires |v| > 0 && BoundedMinus(tags, |v|) && Gap(tags, v) && !Marked(tags, Stops(tags, |v|), v)
    requires Below(tags, v, lo) && Branch(lo.ver) != Branch(v) && forall t :: t in tags ==> Less(t.ver, v) && AtMost(t.ver, lo.ver)
    ensures ClosedMeaning(tags, Stops(tags, |v|), v) <==> StopAboveAll(tags, v)
  {
    AboveAllIff(tags, v, lo);
    MinusStops(tags, |v|, Branch(v));
    MinusStops(tags, |v|, Branch(lo.ver));
    MinusOpenAbove(tags, v);
    NeighboursAreUnique(tags, v);
    NoBranchPast(tags, v, lo);
  }

  lemma AboveAllIff(tags: set<Tag>, v: Version, lo: Tag)
    requires |v| > 0 && Uniform(tags, |v|) && lo in tags && Less(lo.ver, v) && Branch(lo.ver) != Branch(v)
    requires forall t :: t in tags ==> AtMost(t.ver, lo.ver)
    ensures HasLater(tags, Branch(lo.ver)) <==> StopAboveAll(tags, v)
  {
    LowerBranchEnds(lo.ver, v, v);
    if s, t :| Apart(tags, s, t) && Branch(s.ver) == Branch(lo.ver) {
      LaterInBranch(tags, s, t, lo);
      assert Apart(tags, s, lo);
    }
    if a, b :| Apart(tags, a, b) && Branch(a.ver) == Branch(b.ver)
               && (forall u :: u in tags ==> AtMost(u.ver, b.ver)) && Less(Last(b.ver), v) {
      Trichotomy(b.ver, lo.ver);
    }
  }

  lemma NoBranchPast(tags: set<Tag>, v: Version, lo: Tag)
    requires |v| > 0 && Uniform(tags, |v|) && Below(tags, v, lo) && Branch(lo.ver) != Branch(v)
    requires forall t :: t in tags ==> Less(t.ver, v) && AtMost(t.ver, lo.ver)
    ensures forall t :: t in tags ==> Branch(t.ver) != Branch(v)
  {
    forall t | t in tags ensures Branch(t.ver) != Branch(v) {
      if Branch(t.ver) == Branch(v) && t.ver != lo.ver { Between(t.ver, lo.ver, v); }
    }
  }

  lemma LaterInBranch(tags: set<Tag>, s: Tag, t: Tag, lo: Tag)
    requires |lo.ver| > 0 && Uniform(tags, |lo.ver|) && Apart(tags, s, t) && lo in tags && AtMost(t.ver, lo.ver)
    ensures Less(s.ver, lo.ver) && Group(s.ver) != Group(lo.ver)
  {
    if t.ver != lo.ver {
      Transitive(s.ver, t.ver, lo.ver);
      if Group(s.ver) == Group(lo.ver) { GroupBetween(s.ver, t.ver, lo.ver); }
    }
  }

  /**
   * "-=" tags, for versions of any length: the documented reading holds exactly unless a stop lies
   * above all tags, which needs two components, or the version is at the sentinel end of its branch.
   */
  lemma MinusTagsExactly(tags: set<Tag>, v: Version)
    requires tags != {} && |v| > 0 && BoundedMinus(tags, |v|)
    ensures Accepted(tags, v) <==> (MinusLaw(tags, v) != (StopAboveAll(tags, v) || EndStop(tags, v)))
    ensures StopAboveAll(tags, v) ==> |v| == 2
    ensures TailBounded(v) && v != Last(v) ==> !EndStop(tags, v)
  {
    ClosedForm(tags, v);
    if StopAboveAll(tags, v) { OnlyTwoComponents(tags, v); }
    if TailBounded(v) {
      LastOfBranch(v, v);
      Trichotomy(v, Last(v));
    }
    if !Gap(tags, v) {
      MinusListed(tags, v);
      MinusStops(tags, |v|, Branch(v));
    } else if Marked(tags, Stops(tags, |v|), v) {
      MinusOnStop(tags, v);
      MinusTouch(tags, v);
    } else {
      MinusInGap(tags, v);
    }
  }

  lemma MinusInGap(tags: set<Tag>, v: Version)
    requires tags != {} && |v| > 0 && BoundedMinus(tags, |v|) && Gap(tags, v) && !Marked(tags, Stops(tags, |v|), v)
    ensures ClosedMeaning(tags, Stops(tags, |v|), v) <==> (MinusLaw(tags, v) != (StopAboveAll(tags, v) || EndStop(tags, v)))
  {
    if lo :| Below(tags, v, lo) && Branch(lo.ver) == Branch(v) {
      MinusInBranch(tags, v, lo);
    } else {
      FirstOfOwnBranch(tags, v);
      if t :| t in tags && Less(v, t.ver) {
        var hi := AboveExists(tags, v, t);
        MinusBetween(tags, v, hi);
        NotAboveAll(tags, v, t);
        NoEndStop(tags, v);
      } else {
        var t :| t in tags;
        forall u | u in tags ensures Less(u.ver, v) { Trichotomy(u.ver, v); }
        var lo := BelowExists(tags, v, t);
        assert forall u :: u in tags ==> NotAfter(u, lo);
        MinusAfter(tags, v, lo);
        NoEndStop(tags, v);
      }
    }
  }

  lemma FirstOfOwnBranch(tags: set<Tag>, v: Version)
    requires |v| > 0 && Uniform(tags, |v|) && forall lo :: Below(tags, v, lo) ==> Branch(lo.ver) != Branch(v)
    ensures FirstOfItsBranch(tags, v)
  {
    NothingOfBranchBelow(tags, v);
    forall t | t in tags && Branch(t.ver) == Branch(v) ensures AtMost(v, t.ver) { Trichotomy(v, t.ver); }
  }

  lemma NoEndStop(tags: set<Tag>, v: Version)
    requires |v| > 0 && BoundedMinus(tags, |v|) && Gap(tags, v) && FirstOfItsBranch(tags, v)
    ensures !EndStop(tags, v)
  {
    if EndStop(tags, v) {
      var s, t :| Apart(tags, s, t) && Branch(s.ver) == Branch(v);
      SameBranchSameEnds(s.ver, v);
      LastOfBranch(s.ver, s.ver);
      TotalOrder();
    }
  }

  // ----- Tags as they are written -----

  /** A list of "+=" tags, none longer than the version, in any order. */
  lemma PlusTagsAsWritten(tags: seq<Tag>, v: Version)
    requires tags != [] && |v| > 0 && forall t :: t in tags ==> t.op.Ge? && 0 < |t.ver| <= |v|
    ensures var P := PaddedSet(tags, |v|);
            Evaluation(tags, v) == Verdict(PlusLaw(P, v) != Misplaced(P, v)) && (Misplaced(P, v) ==> |v| == 2)
  {
    assert tags[0] in tags && Padded(tags[0], |v|) in PaddedSet(tags, |v|);
    PlusTagsExactly(PaddedSet(tags, |v|), v);
  }

  /** Only a version with a component at or past the sentinel, after its branch, can be at such an end. */
  lemma EndStopNeedsSentinel(tags: set<Tag>, v: Version)
    requires |v| > 0 && Uniform(tags, |v|) && EndStop(tags, v)
    ensures exists i :: Keep(|v|) <= i < |v| && v[i] >= SENTINEL
  {
    if |v| > 1 && forall i :: Keep(|v|) <= i < |v| ==> v[i] < SENTINEL {
      assert Last(v)[|v|-1] == SENTINEL;
      LastOfBranch(v, v);
      Trichotomy(v, Last(v));
    }
  }

  lemma PaddedIsBounded(t: Tag, l: nat)
    requires 0 < |t.ver| <= l && forall i :: 0 <= i < |t.ver| ==> t.ver[i] <= SENTINEL
    ensures TailBounded(Padded(t, l).ver)
  {
  }

  /** A list of "-=" tags, none longer than the version or past the sentinel, in any order. */
  lemma MinusTagsAsWritten(tags: seq<Tag>, v: Version)
    requires tags != [] && |v| > 0 && forall t :: t in tags ==> t.op.Le? && 0 < |t.ver| <= |v|
    requires forall t, i :: t in tags && 0 <= i < |t.ver| ==> t.ver[i] <= SENTINEL
    ensures var P := PaddedSet(tags, |v|);
            && Evaluation(tags, v) == Verdict(MinusLaw(P, v) != (StopAboveAll(P, v) || EndStop(P, v)))
            && (StopAboveAll(P, v) ==> |v| == 2)
            && (EndStop(P, v) ==> exists i :: Keep(|v|) <= i < |v| && v[i] >= SENTINEL)
  {
    var P := PaddedSet(tags, |v|);
    assert tags[0] in tags && Padded(tags[0], |v|) in P;
    forall t | t in tags ensures TailBounded(Padded(t, |v|).ver) { PaddedIsBounded(t, |v|); }
    MinusTagsExactly(P, v);
    if EndStop(P, v) { EndStopNeedsSentinel(P, v); }
  }

  lemma PaddedPair(s: Tag, t: Tag, l: nat)
    requires |s.ver| <= l && |t.ver| <= l
    ensures PaddedSet([s, t], l) == {Padded(s, l), Padded(t, l)}
  {
    assert s in [s, t] && t in [s, t];
  }

  // ----- Where the documented readings fail -----

  /** Two "+=" tags of one branch, on two components, accept what precedes the branch. */
  lemma PairAcceptsBefore(a: Tag, b: Tag, v: Version)
    requires |a.ver| == |b.ver| == |v| == 2 && a.op.Ge? && b.op.Ge? && Less(a.ver, b.ver)
    requires Branch(a.ver) == Branch(b.ver) && Group(a.ver) != Group(b.ver) && Less(v, First(a.ver))
    ensures Evaluation([a, b], v) == Verdict(true)
  {
    PaddedPair(a, b, 2);
    assert Apart({a, b}, a, b);
    BelowAllIsBelow({a, b}, v);
    Trichotomy(v, a.ver);
    Trichotomy(v, b.ver);
    PlusTagsAsWritten([a, b], v);
  }

  /** "+=8.4 +=8.6" accepts 7.5, which precedes both tags. */
  lemma AcceptedBeforeAllTags()
    ensures Evaluation([Tag(Ge, [8, 4]), Tag(Ge, [8, 6])], [7, 5]) == Verdict(true)
  {
    var a, b, v := Tag(Ge, [8, 4]), Tag(Ge, [8, 6]), [7, 5];
    assert Less(v, First(a.ver)) && Branch(a.ver) == Branch(b.ver) && Group(a.ver)[1] != Group(b.ver)[1];
    assert Less(a.ver, b.ver);
    PairAcceptsBefore(a, b, v);
  }

  /** A "+=" tag on the first release of a branch and one after it, on two components, reject that release. */
  lemma PairRejectsListed(a: Tag, b: Tag, v: Version)
    requires 0 < |a.ver| <= 2 && |b.ver| == |v| == 2 && a.op.Ge? && b.op.Ge? && Padded(a, 2) == Tag(Ge, v) && v == First(v)
    requires Less(v, b.ver) && Branch(b.ver) == Branch(v) && Group(v) != Group(b.ver)
    ensures Evaluation([a, b], v) == Verdict(false)
  {
    PaddedPair(a, b, 2);
    assert Apart({Tag(Ge, v), b}, Tag(Ge, v), b);
    PlusTagsAsWritten([a, b], v);
  }

  /** "+=8 +=8.6" rejects 8.0, which is listed. */
  lemma ListedButRejected()
    ensures Evaluation([Tag(Ge, [8]), Tag(Ge, [8, 6])], [8, 0]) == Verdict(false)
  {
    var a, b, v := Tag(Ge, [8]), Tag(Ge, [8, 6]), [8, 0];
    assert Padded(a, 2) == Tag(Ge, v) by { assert [8] + Repeat(0, 1) == v; }
    assert First(v) == v && Branch(b.ver) == Branch(v) && Group(v)[1] != Group(b.ver)[1];
    assert Less(v, b.ver);
    PairRejectsListed(a, b, v);
  }

  /** The verdict on two "-=" tags written in full. */
  lemma FullPair(a: Tag, b: Tag, v: Version)
    requires |a.ver| == |b.ver| == |v| > 0 && a.op.Le? && b.op.Le?
    requires (forall i :: 0 <= i < |v| ==> a.ver[i] <= SENTINEL) && (forall i :: 0 <= i < |v| ==> b.ver[i] <= SENTINEL)
    ensures var P := {a, b};
            Uniform(P, |v|) && Evaluation([a, b], v) == Verdict(MinusLaw(P, v) != (StopAboveAll(P, v) || EndStop(P, v)))
  {
    PaddedPair(a, b, |v|);
    MinusTagsAsWritten([a, b], v);
  }

  /** Two "-=" tags of one branch, on two components, accept what follows the branch. */
  lemma PairAcceptsAfter(a: Tag, b: Tag, v: Version)
    requires |a.ver| == |b.ver| == |v| == 2 && a.op.Le? && b.op.Le? && Less(a.ver, b.ver) && Less(b.ver, v)
    requires Branch(a.ver) == Branch(b.ver) && Group(a.ver) != Group(b.ver) && Less(Last(b.ver), v)
    requires (forall i :: 0 <= i < |v| ==> a.ver[i] <= SENTINEL) && (forall i :: 0 <= i < |v| ==> b.ver[i] <= SENTINEL)
    ensures Evaluation([a, b], v) == Verdict(true)
  {
    FullPair(a, b, v);
    PairStopAboveAll(a, b, v);
    Transitive(a.ver, b.ver, v);
    PairNothingAbove(a, b, v);
  }

  lemma PairStopAboveAll(a: Tag, b: Tag, v: Version)
    requires |a.ver| == |b.ver| == |v| > 0 && Less(a.ver, b.ver)
    requires Branch(a.ver) == Branch(b.ver) && Group(a.ver) != Group(b.ver) && Less(Last(b.ver), v)
    ensures StopAboveAll({a, b}, v)
  {
    assert Apart({a, b}, a, b);
  }

  lemma PairNothingAbove(a: Tag, b: Tag, v: Version)
    requires |a.ver| == |b.ver| == |v| > 0 && Less(a.ver, v) && Less(b.ver, v)
    ensures !MinusLaw({a, b}, v)
  {
    Trichotomy(a.ver, v);
    Trichotomy(b.ver, v);
  }

  /** "-=8.4 -=8.6" accepts 9.0, which follows both tags. */
  lemma AcceptedAfterAllTags()
    ensures Evaluation([Tag(Le, [8, 4]), Tag(Le, [8, 6])], [9, 0]) == Verdict(true)
  {
    var a, b, v := Tag(Le, [8, 4]), Tag(Le, [8, 6]), [9, 0];
    assert Branch(a.ver) == Branch(b.ver) && Less(Last(b.ver), v) && Group(a.ver)[1] != Group(b.ver)[1];
    assert Less(a.ver, b.ver) && Less(b.ver, v);
    PairAcceptsAfter(a, b, v);
  }

  /** Of two "-=" tags, one on the sentinel end of a branch and one in a later group, the first is rejected at its own version. */
  lemma PairRejectsSentinel(a: Tag, b: Tag, v: Version, d: Version)
    requires 0 < |a.ver| <= |v| && 0 < |b.ver| <= |v| == |d| && a.op.Le? && b.op.Le?
    requires Padded(a, |v|) == Tag(Le, v) && Padded(b, |v|) == Tag(Le, d) && v == Last(v) != First(v)
    requires Less(v, d) && Group(v) != Group(d)
    requires (forall i :: 0 <= i < |a.ver| ==> a.ver[i] <= SENTINEL) && (forall i :: 0 <= i < |b.ver| ==> b.ver[i] <= SENTINEL)
    ensures Evaluation([a, b], v) == Verdict(false)
  {
    PaddedPair(a, b, |v|);
    assert Apart({Tag(Le, v), Tag(Le, d)}, Tag(Le, v), Tag(Le, d));
    MinusTagsAsWritten([a, b], v);
  }

  /** "-=1.28 -=1.30" rejects 1.28.9999, the listed release itself. */
  lemma SentinelRejected()
    ensures Evaluation([Tag(Le, [1, 28]), Tag(Le, [1, 30])], [1, 28, 9999]) == Verdict(false)
  {
    var a, b, v, d := Tag(Le, [1, 28]), Tag(Le, [1, 30]), [1, 28, 9999], [1, 30, 9999];
    assert Padded(a, 3) == Tag(Le, v) by { assert [1, 28] + Repeat(SENTINEL, 1) == v; }
    assert Padded(b, 3) == Tag(Le, d) by { assert [1, 30] + Repeat(SENTINEL, 1) == d; }
    assert Last(v) == v && First(v)[2] == 0 && Group(v)[1] != Group(d)[1];
    assert Less(v, d) by { assert v[1..] == [28, 9999] && d[1..] == [30, 9999]; }
    PairRejectsSentinel(a, b, v, d);
  }

  /** Of two "-=" tags in different groups, the first lets in what is past the sentinel end of its branch. */
  lemma PairAcceptsPastSentinel(a: Tag, b: Tag, v: Version)
    requires |a.ver| == |b.ver| == |v| > 0 && a.op.Le? && b.op.Le? && Less(a.ver, v) && Less(v, b.ver) && Less(a.ver, b.ver)
    requires Branch(a.ver) == Branch(v) && Group(a.ver) != Group(b.ver) && Less(Last(v), v)
    requires (forall i :: 0 <= i < |v| ==> a.ver[i] <= SENTINEL) && (forall i :: 0 <= i < |v| ==> b.ver[i] <= SENTINEL)
    ensures Evaluation([a, b], v) == Verdict(true)
  {
    FullPair(a, b, v);
    PairEndStop(a, b, v);
    PairNotFirst(a, b, v);
  }

  lemma PairEndStop(a: Tag, b: Tag, v: Version)
    requires |a.ver| == |b.ver| == |v| > 0 && Less(a.ver, b.ver)
    requires Branch(a.ver) == Branch(v) && Group(a.ver) != Group(b.ver) && Less(Last(v), v)
    ensures EndStop({a, b}, v)
  {
    assert Apart({a, b}, a, b);
    Trichotomy(Last(v), v);
  }

  lemma PairNotFirst(a: Tag, b: Tag, v: Version)
    requires |a.ver| == |b.ver| == |v| > 0 && Less(a.ver, v) && Less(v, b.ver) && Branch(a.ver) == Branch(v)
    ensures !MinusLaw({a, b}, v)
  {
    Trichotomy(a.ver, v);
    Trichotomy(v, b.ver);
    assert a in {a, b};
  }

  /** "-=8.4 -=9.2" accepts 8.10000, which follows 8.4 in its branch. */
  lemma PastSentinelAccepted()
    ensures Evaluation([Tag(Le, [8, 4]), Tag(Le, [9, 2])], [8, 10000]) == Verdict(true)
  {
    var a, b, v := Tag(Le, [8, 4]), Tag(Le, [9, 2]), [8, 10000];
    assert Last(v) == [8, 9999] && Group(a.ver)[1] != Group(b.ver)[1] && Branch(a.ver) == Branch(v);
    assert Less(Last(v), v) && Less(a.ver, b.ver) && Less(a.ver, v) && Less(v, b.ver);
    PairAcceptsPastSentinel(a, b, v);
  }
}
