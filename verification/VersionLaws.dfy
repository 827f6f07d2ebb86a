/**
 * Branches of versions, the neighbours of a version among the tags, and where the stops lie.
 */
module VersionLaws {
  import opened VersionOrder
  import opened VersionTags

  // ----- Branches: the first and last release of the branch of a version -----

  function Branch(v: Version): Version
    requires |v| > 0
  {
    v[..Keep(|v|)]
  }

  function First(v: Version): (r: Version)
    requires |v| > 0
    ensures |r| == |v|
  {
    Branch(v) + Repeat(0, |v| - Keep(|v|))
  }

  function Last(v: Version): (r: Version)
    requires |v| > 0
    ensures |r| == |v|
  {
    Branch(v) + Repeat(SENTINEL, |v| - Keep(|v|))
  }

  /** The components after the branch do not exceed the one that stands for infinity. */
  predicate TailBounded(v: Version)
    requires |v| > 0
  {
    forall i :: Keep(|v|) <= i < |v| ==> v[i] <= SENTINEL
  }

  /** A version is its branch and what follows. */
  lemma BranchAndTail(v: Version) returns (tail: Version)
    requires |v| > 0
    ensures v == Branch(v) + tail && |tail| == |v| - Keep(|v|) && tail == v[Keep(|v|)..]
  {
    tail := v[Keep(|v|)..];
  }

  lemma FirstOfBranch(v: Version, t: Version)
    requires |v| == |t| > 0
    ensures AtMost(First(t), t)
    ensures Branch(v) == Branch(t) ==> AtMost(First(t), v)
    ensures Less(v, t) && Branch(v) != Branch(t) ==> Less(v, First(t))
  {
    var zeros := Repeat(0, |v| - Keep(|v|));
    var x := BranchAndTail(v);
    var y := BranchAndTail(t);
    var p, q := Branch(v), Branch(t);
    ZerosAreLeast(x);
    ZerosAreLeast(y);
    LessByPrefix(q, zeros, q, y);
    LessByPrefix(q, zeros, p, x);
    LessByPrefix(p, x, q, y);
    LessByPrefix(p, x, q, zeros);
  }

  lemma LastOfBranch(s: Version, v: Version)
    requires |v| == |s| > 0
    ensures TailBounded(s) ==> AtMost(s, Last(s))
    ensures Branch(v) == Branch(s) && TailBounded(v) ==> AtMost(v, Last(s))
    ensures Less(s, v) && Branch(v) != Branch(s) ==> Less(Last(s), v)
  {
    var nines := Repeat(SENTINEL, |v| - Keep(|v|));
    var x := BranchAndTail(s);
    var y := BranchAndTail(v);
    var p, q := Branch(s), Branch(v);
    if TailBounded(s) { SentinelsAreGreatest(x); }
    if TailBounded(v) { SentinelsAreGreatest(y); }
    LessByPrefix(p, x, p, nines);
    LessByPrefix(q, y, p, nines);
    LessByPrefix(p, x, q, y);
    LessByPrefix(p, nines, q, y);
  }

  // ----- Neighbours of a version among the tags -----

  /** The greatest tag strictly below the version. */
  ghost predicate Below(tags: set<Tag>, v: Version, lo: Tag) {
    lo in tags && Less(lo.ver, v) && forall u :: u in tags && Less(u.ver, v) ==> NotAfter(u, lo)
  }

  /** The least tag strictly above the version. */
  ghost predicate Above(tags: set<Tag>, v: Version, hi: Tag) {
    hi in tags && Less(v, hi.ver) && forall u :: u in tags && Less(v, u.ver) ==> NotAfter(hi, u)
  }

  ghost predicate Gap(tags: set<Tag>, v: Version) {
    forall t :: t in tags ==> t.ver != v
  }

  /** The last of some tags in the order of the sort. */
  lemma {:induction false} Greatest(F: set<Tag>, u: Tag) returns (m: Tag)
    requires u in F
    ensures m in F && forall w :: w in F ==> NotAfter(w, m)
    decreases F
  {
    var rest := F - {u};
    assert forall w :: w in F ==> w == u || w in rest;
    if w :| w in rest {
      m := Greatest(rest, w);
      BeforeTrichotomy(m, u);
      if Before(m, u) {
        forall w | w in F ensures NotAfter(w, u) { if w != u { BeforeOrSame(w, m, u); } }
        m := u;
      }
    } else {
      m := u;
    }
  }

  /** The first of them. */
  lemma {:induction false} Least(F: set<Tag>, u: Tag) returns (m: Tag)
    requires u in F
    ensures m in F && forall w :: w in F ==> NotAfter(m, w)
    decreases F
  {
    var rest := F - {u};
    assert forall w :: w in F ==> w == u || w in rest;
    if w :| w in rest {
      m := Least(rest, w);
      BeforeTrichotomy(u, m);
      if Before(u, m) {
        forall w | w in F ensures NotAfter(u, w) { if w != u { BeforeOrSame(u, m, w); } }
        m := u;
      }
    } else {
      m := u;
    }
  }

  lemma BelowExists(tags: set<Tag>, v: Version, u: Tag) returns (lo: Tag)
    requires u in tags && Less(u.ver, v)
    ensures Below(tags, v, lo)
  {
    var lower := set t | t in tags && Less(t.ver, v);
    lo := Greatest(lower, u);
  }

  lemma AboveExists(tags: set<Tag>, v: Version, u: Tag) returns (hi: Tag)
    requires u in tags && Less(v, u.ver)
    ensures Above(tags, v, hi)
  {
    var higher := set t | t in tags && Less(v, t.ver);
    hi := Least(higher, u);
  }

  /** At the version of a tag, every tag of that version decides. */
  lemma AtTagVersion(tags: set<Tag>, v: Version, t: Tag)
    requires t in tags && t.ver == v
    ensures NearestSatisfied(tags, v) <==> forall u :: u in tags && u.ver == v ==> u.op.Inclusive()
  {
    BeforeIsTotalOrder();
    TotalOrder();
    if u :| u in tags && u.ver == v && !u.op.Inclusive() {
      assert u.op.Lt? ==> IsHigh(tags, v, u) && !Satisfied(u, v);
      assert u.op.Gt? ==> IsLow(tags, v, u) && !Satisfied(u, v);
    }
  }

  // ----- Where the stops lie -----

  /** The stop between two neighbours of the same sign. */
  function StopOf(s: Tag, t: Tag, l: nat): Tag
    requires |s.ver| == |t.ver| == l > 0
  {
    if s.op.Plus() then AuxTag(t, l) else AuxTag(s, l)
  }

  /** Tags for which every stop lies between the two tags it separates. */
  ghost predicate Placed(tags: set<Tag>, l: nat) {
    && l > 0 && l != 2 && Uniform(tags, l)
    && forall t :: t in tags && !t.op.Plus() ==> TailBounded(t.ver)
  }

  lemma AuxVersion(t: Tag)
    requires |t.ver| > 0
    ensures AuxTag(t, |t.ver|).ver == if t.op.Plus() then First(t.ver) else Last(t.ver)
  {
  }

  /** A zero tail makes a version the first of its branch. */
  lemma ZeroTail(v: Version)
    requires |v| > 0 && AllZero(v[Keep(|v|)..])
    ensures First(v) == v
  {
    var k := Keep(|v|);
    assert forall i :: k <= i < |v| ==> v[i] == v[k..][i-k];
  }

  lemma StopBetween(tags: set<Tag>, l: nat, s: Tag, t: Tag, plus: bool)
    requires Placed(tags, l) && NeedsStop(tags, s, t, plus)
    ensures var x := StopOf(s, t, l);
            && x.op.Plus() == !plus && x in Stops(tags, l)
            && (plus ==> Less(s.ver, x.ver) && AtMost(x.ver, t.ver) && (x.op.Le? ==> x.ver == t.ver && t.op.Ge?))
            && (!plus ==> AtMost(s.ver, x.ver) && Less(x.ver, t.ver) && (x.op.Ge? ==> s.op.Le?))
  {
    assert Group(s.ver) == Branch(s.ver) && Group(t.ver) == Branch(t.ver) by {
      assert l == 1 ==> s.ver[..1] == s.ver && t.ver[..1] == t.ver;
    }
    TotalOrder();
    AuxVersion(s);
    AuxVersion(t);
    if plus {
      FirstOfBranch(s.ver, t.ver);
      if AllZero(t.ver[Keep(l)..]) { ZeroTail(t.ver); }
    } else {
      LastOfBranch(s.ver, t.ver);
    }
  }

  lemma StopOrigin(tags: set<Tag>, l: nat, x: Tag) returns (s: Tag, t: Tag)
    requires l > 0 && Uniform(tags, l) && x in Stops(tags, l)
    ensures NeedsStop(tags, s, t, s.op.Plus()) && x == StopOf(s, t, l)
  {
    s, t :| s in tags && t in tags
            && ((NeedsStop(tags, s, t, true) && x == AuxTag(t, l)) || (NeedsStop(tags, s, t, false) && x == AuxTag(s, l)));
  }

  lemma NeighboursAreUnique(tags: set<Tag>, v: Version)
    ensures forall s, t :: Below(tags, v, s) && Below(tags, v, t) ==> s == t
    ensures forall s, t :: Above(tags, v, s) && Above(tags, v, t) ==> s == t
  {
    BeforeIsTotalOrder();
  }

  /** Adjacent tags on either side of a version are its neighbours. */
  lemma AroundGap(tags: set<Tag>, v: Version, s: Tag, t: Tag)
    requires Gap(tags, v) && Adjacent(tags, s, t) && Less(s.ver, v) && Less(v, t.ver)
    ensures Below(tags, v, s) && Above(tags, v, t)
  {
    BeforeIsTotalOrder();
    TotalOrder();
  }

  lemma AdjacentAcrossGap(tags: set<Tag>, v: Version, lo: Tag, hi: Tag)
    requires Gap(tags, v) && Below(tags, v, lo) && Above(tags, v, hi)
    ensures Adjacent(tags, lo, hi)
  {
    BeforeIsTotalOrder();
    TotalOrder();
  }
}
