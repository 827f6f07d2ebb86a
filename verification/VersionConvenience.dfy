/**
 * Note 1 of the documentation: "+" and "-" as convenience forms of "+=" on the next release and
 * "-=" on the previous one. This says on which versions the rewriting changes the verdict.
 */
module VersionConvenience {
  import opened VersionOrder
  import opened VersionTags
  import opened VersionLaws
  import opened VersionClosedForm

  // ----- Note 1: "+" and "-" as convenience forms -----

  /** The release after a full version. */
  function Next(v: Version): (r: Version)
    requires v != []
    ensures |r| == |v|
  {
    v[..|v|-1] + [v[|v|-1] + 1]
  }

  /** Nothing lies between a version and the next one. */
  lemma {:induction false} NothingBetween(a: Version, v: Version)
    requires |a| == |v| > 0
    ensures Less(a, v) <==> AtMost(Next(a), v)
  {
    if |a| == 1 {
      assert Next(a) == [a[0] + 1] && v == [v[0]];
    } else {
      NothingBetween(a[1..], v[1..]);
      assert Next(a) == [a[0]] + Next(a[1..]) && v == [v[0]] + v[1..];
    }
  }

  /** The release before a full version that is not the first of its list of releases. */
  function Previous(v: Version): (r: Version)
    requires v != [] && v[|v|-1] > 0
    ensures |r| == |v| && Next(r) == v
  {
    v[..|v|-1] + [v[|v|-1] - 1]
  }

  /** "+x" as "+=" on the next release, and "-x" as "-=" on the previous one, if there is one. */
  function AsInclusive(t: Tag): (r: Tag)
    requires t.ver != []
    ensures |r.ver| == |t.ver| && r.op.Plus() == t.op.Plus()
  {
    if t.op.Gt? then Tag(Ge, Next(t.ver))
    else if t.op.Lt? && t.ver[|t.ver|-1] > 0 then Tag(Le, Previous(t.ver))
    else t
  }

  ghost function Rewritten(tags: set<Tag>): set<Tag>
    requires forall t :: t in tags ==> t.ver != []
  {
    set t | t in tags :: AsInclusive(t)
  }

  /** Rewriting leaves the tags in order: it makes no range empty that was not, and no two tags change places. */
  ghost predicate KeepsOrder(tags: set<Tag>)
    requires forall t :: t in tags ==> t.ver != []
  {
    forall s, t :: s in tags && t in tags && Before(s, t) ==> NotAfter(AsInclusive(s), AsInclusive(t))
  }

  /** Tags written in full, with every component after the branch before the sentinel. */
  ghost predicate Full(tags: set<Tag>, l: nat) {
    l > 2 && Uniform(tags, l) && forall t, i :: t in tags && 2 <= i < l ==> t.ver[i] < SENTINEL
  }

  /**
   * The versions on which the rewriting changes the verdict. Such a version is listed after the
   * rewriting, inclusively; before it, it was excluded by a tag of its own, or closed although
   * "+" on the release before opened it, or "-" on the release after.
   */
  ghost predicate RewritingMatters(tags: set<Tag>, v: Version)
    requires |v| > 0 && Uniform(tags, |v|)
  {
    && !Gap(Rewritten(tags), v) && (forall t :: t in Rewritten(tags) && t.ver == v ==> t.op.Inclusive())
    && ((exists t :: t in tags && t.ver == v && !t.op.Inclusive())
        || (Gap(tags, v) && (ClosedAfterPlus(tags, v) || ClosedBeforeMinus(tags, v))))
  }

  /** The version is the release after a tag "+". */
  ghost predicate AfterPlus(tags: set<Tag>, v: Version, lo: Tag) {
    lo in tags && lo.op.Gt? && lo.ver != [] && Next(lo.ver) == v
  }

  /** The version is the release before a tag "-". */
  ghost predicate BeforeMinus(tags: set<Tag>, v: Version, hi: Tag) {
    hi in tags && hi.op.Lt? && v != [] && Next(v) == hi.ver
  }

  lemma RewrittenTag(t: Tag, v: Version)
    requires |t.ver| == |v| > 2
    ensures Branch(AsInclusive(t).ver) == Branch(t.ver)
    ensures t.ver != v && AsInclusive(t).ver != v ==> (Less(AsInclusive(t).ver, v) <==> Less(t.ver, v)) && (Less(v, AsInclusive(t).ver) <==> Less(v, t.ver))
    ensures !(Less(t.ver, v) && Less(v, AsInclusive(t).ver)) && !(Less(v, t.ver) && Less(AsInclusive(t).ver, v))
  {
    var u := AsInclusive(t);
    NothingBetween(if t.op.Lt? then u.ver else t.ver, v);
    TotalOrder();
  }

  /** Only a tag that excludes its own version moves away from it: "+" up, "-" down. */
  lemma MovesAway(t: Tag, v: Version)
    requires |t.ver| > 2 && t.ver == v
    ensures Less(v, AsInclusive(t).ver) <==> t.op.Gt?
    ensures Less(AsInclusive(t).ver, v) <==> t.op.Lt? && AsInclusive(t) != t
  {
    var u := AsInclusive(t);
    NothingBetween(if t.op.Lt? then u.ver else v, if t.op.Lt? then v else u.ver);
    Trichotomy(u.ver, v);
    Trichotomy(v, v);
  }

  lemma RewrittenIsPlaced(tags: set<Tag>, l: nat)
    requires Full(tags, l)
    ensures Placed(tags, l) && Uniform(Rewritten(tags), l) && Placed(Rewritten(tags), l)
  {
  }

  lemma BelowRewritten(tags: set<Tag>, v: Version, lo: Tag)
    requires Full(tags, |v|) && KeepsOrder(tags) && Gap(tags, v) && Gap(Rewritten(tags), v) && Below(tags, v, lo)
    ensures Below(Rewritten(tags), v, AsInclusive(lo))
  {
    var R := Rewritten(tags);
    assert AsInclusive(lo) in R;
    RewrittenTag(lo, v);
    forall u | u in R && Less(u.ver, v) ensures NotAfter(u, AsInclusive(lo)) {
      var w :| w in tags && AsInclusive(w) == u;
      RewrittenTag(w, v);
      assert w == lo || Before(w, lo);
    }
  }

  lemma AboveRewritten(tags: set<Tag>, v: Version, hi: Tag)
    requires Full(tags, |v|) && KeepsOrder(tags) && Gap(tags, v) && Gap(Rewritten(tags), v) && Above(tags, v, hi)
    ensures Above(Rewritten(tags), v, AsInclusive(hi))
  {
    var R := Rewritten(tags);
    assert AsInclusive(hi) in R;
    RewrittenTag(hi, v);
    forall u | u in R && Less(v, u.ver) ensures NotAfter(AsInclusive(hi), u) {
      var w :| w in tags && AsInclusive(w) == u;
      RewrittenTag(w, v);
      assert w == hi || Before(hi, w);
    }
  }

  /** Where neither list names the version, it has the same neighbours, rewritten. */
  lemma SameNeighbours(tags: set<Tag>, v: Version)
    requires Full(tags, |v|) && KeepsOrder(tags) && Gap(tags, v) && Gap(Rewritten(tags), v)
    ensures forall lo :: Below(tags, v, lo) ==> Below(Rewritten(tags), v, AsInclusive(lo))
    ensures forall hi :: Above(tags, v, hi) ==> Above(Rewritten(tags), v, AsInclusive(hi))
    ensures (exists x :: Below(Rewritten(tags), v, x)) ==> exists lo :: Below(tags, v, lo)
    ensures (exists x :: Above(Rewritten(tags), v, x)) ==> exists hi :: Above(tags, v, hi)
  {
    var R := Rewritten(tags);
    forall lo | Below(tags, v, lo) ensures Below(R, v, AsInclusive(lo)) { BelowRewritten(tags, v, lo); }
    forall hi | Above(tags, v, hi) ensures Above(R, v, AsInclusive(hi)) { AboveRewritten(tags, v, hi); }
    if x :| Below(R, v, x) {
      var t :| t in tags && AsInclusive(t) == x;
      assert t.ver != v && x.ver != v;
      RewrittenTag(t, v);
      var lo := BelowExists(tags, v, t);
    }
    if x :| Above(R, v, x) {
      var t :| t in tags && AsInclusive(t) == x;
      assert t.ver != v && x.ver != v;
      RewrittenTag(t, v);
      var hi := AboveExists(tags, v, t);
    }
  }

  lemma SameInGap(tags: set<Tag>, v: Version)
    requires Full(tags, |v|) && KeepsOrder(tags) && Gap(tags, v) && Gap(Rewritten(tags), v)
    ensures Uniform(Rewritten(tags), |v|) && (NeighboursOpen(Rewritten(tags), v) <==> NeighboursOpen(tags, v))
  {
    var R := Rewritten(tags);
    SameNeighbours(tags, v);
    NeighboursAreUnique(tags, v);
    NeighboursAreUnique(R, v);
    if lo :| Below(tags, v, lo) { RewrittenTag(lo, v); }
    if hi :| Above(tags, v, hi) { RewrittenTag(hi, v); }
  }

  lemma NextAfterMoved(tags: set<Tag>, v: Version, t: Tag, w: Tag)
    requires Full(tags, |v|) && KeepsOrder(tags) && t in tags && t.ver == v && t.op.Gt?
    requires w in tags && Less(v, AsInclusive(w).ver)
    ensures NotAfter(AsInclusive(t), AsInclusive(w))
  {
    RewrittenTag(w, v);
    if w.ver == v { MovesAway(w, v); }
    Trichotomy(w.ver, v);
    assert w == t || Before(t, w);
  }

  lemma LastBeforeMoved(tags: set<Tag>, v: Version, t: Tag, w: Tag)
    requires Full(tags, |v|) && KeepsOrder(tags) && t in tags && t.ver == v && t.op.Lt?
    requires w in tags && Less(AsInclusive(w).ver, v)
    ensures NotAfter(AsInclusive(w), AsInclusive(t))
  {
    RewrittenTag(w, v);
    if w.ver == v { MovesAway(w, v); }
    Trichotomy(w.ver, v);
    assert w == t || Before(w, t);
  }

  /** A tag that excludes its own version moves to the next release, or the previous, and closes the version from there. */
  lemma MovedCloses(tags: set<Tag>, v: Version, t: Tag)
    requires Full(tags, |v|) && KeepsOrder(tags) && t in tags && t.ver == v && AsInclusive(t) != t
    requires Uniform(Rewritten(tags), |v|)
    ensures !NeighboursOpen(Rewritten(tags), v)
  {
    var R, x := Rewritten(tags), AsInclusive(t);
    assert x in R;
    RewrittenTag(t, v);
    MovesAway(t, v);
    if t.op.Gt? {
      forall u | u in R && Less(v, u.ver) ensures NotAfter(x, u) {
        var w :| w in tags && AsInclusive(w) == u;
        NextAfterMoved(tags, v, t, w);
      }
      assert Above(R, v, x);
    } else {
      forall u | u in R && Less(u.ver, v) ensures NotAfter(u, x) {
        var w :| w in tags && AsInclusive(w) == u;
        LastBeforeMoved(tags, v, t, w);
      }
      assert Below(R, v, x);
    }
  }

  /** The version is the release after "+", or before "-": that tag is its neighbour. */
  lemma NewlyListed(tags: set<Tag>, v: Version, u: Tag)
    requires Full(tags, |v|) && Gap(tags, v) && u in tags && AsInclusive(u).ver == v
    ensures (AfterPlus(tags, v, u) && Below(tags, v, u)) || (BeforeMinus(tags, v, u) && Above(tags, v, u))
  {
    TotalOrder();
    if u.op.Gt? {
      forall w | w in tags && Less(w.ver, v) ensures NotAfter(w, u) { NothingBetween(u.ver, w.ver); }
      NothingBetween(u.ver, v);
    } else {
      forall w | w in tags && Less(v, w.ver) ensures NotAfter(u, w) { NothingBetween(v, w.ver); }
      NothingBetween(v, u.ver);
    }
  }

  /** What rewriting brings to a version in a gap is inclusive. */
  lemma NewIsInclusive(tags: set<Tag>, v: Version)
    requires Full(tags, |v|) && Gap(tags, v)
    ensures forall t :: t in Rewritten(tags) && t.ver == v ==> t.op.Inclusive()
  {
    forall t | t in Rewritten(tags) && t.ver == v ensures t.op.Inclusive() {
      var w :| w in tags && AsInclusive(w) == t;
      NewlyListed(tags, v, w);
    }
  }

  /** "+" on the release before is the neighbour below, "-" on the release after the neighbour above. */
  lemma PartnersAreNeighbours(tags: set<Tag>, v: Version)
    requires Full(tags, |v|) && Gap(tags, v)
    ensures forall w :: AfterPlus(tags, v, w) ==> Below(tags, v, w)
    ensures forall w :: BeforeMinus(tags, v, w) ==> Above(tags, v, w)
  {
    forall w | AfterPlus(tags, v, w) ensures Below(tags, v, w) {
      NewlyListed(tags, v, w);
      NothingBetween(w.ver, v);
      Trichotomy(v, w.ver);
    }
    forall w | BeforeMinus(tags, v, w) ensures Above(tags, v, w) {
      NothingBetween(v, w.ver);
      assert Next(Previous(w.ver)) == Next(v);
      SameNext(Previous(w.ver), v);
      NewlyListed(tags, v, w);
      Trichotomy(v, w.ver);
    }
  }

  lemma SameNext(a: Version, b: Version)
    requires |a| == |b| > 0 && Next(a) == Next(b)
    ensures a == b
  {
    var n := |a| - 1;
    assert a[..n] == Next(a)[..n] == Next(b)[..n] == b[..n];
    assert a[n] + 1 == Next(a)[n] == Next(b)[n] == b[n] + 1;
    assert a == a[..n] + [a[n]] && b == b[..n] + [b[n]];
  }

  /** A version in a gap is closed although the release before it opens it: by a "+" above, of its branch. */
  ghost predicate ClosedAfterPlus(tags: set<Tag>, v: Version)
    requires |v| > 0 && Uniform(tags, |v|)
  {
    exists lo, hi :: AfterPlus(tags, v, lo) && Above(tags, v, hi) && hi.op.Plus() && Branch(hi.ver) == Branch(v)
  }

  ghost predicate ClosedBeforeMinus(tags: set<Tag>, v: Version)
    requires |v| > 0 && Uniform(tags, |v|)
  {
    exists lo, hi :: BeforeMinus(tags, v, hi) && Below(tags, v, lo) && !lo.op.Plus() && Branch(lo.ver) == Branch(v)
  }

  /** In a gap that the rewriting fills, its new neighbour decides together with the one on the other side. */
  lemma FilledGap(tags: set<Tag>, v: Version, u: Tag)
    requires Full(tags, |v|) && Gap(tags, v) && u in tags && AsInclusive(u).ver == v
    ensures NeighboursOpen(tags, v) <==> !(ClosedAfterPlus(tags, v) || ClosedBeforeMinus(tags, v))
  {
    NeighboursAreUnique(tags, v);
    PartnersAreNeighbours(tags, v);
    NewlyListed(tags, v, u);
    assert ClosedAfterPlus(tags, v) ==> !NeighboursOpen(tags, v);
    assert ClosedBeforeMinus(tags, v) ==> !NeighboursOpen(tags, v);
    if AfterPlus(tags, v, u) {
      if !ClosedAfterPlus(tags, v) { OpenFromBefore(tags, v, u); }
    } else if !ClosedBeforeMinus(tags, v) {
      OpenFromAfter(tags, v, u);
    }
  }

  lemma OpenFromBefore(tags: set<Tag>, v: Version, u: Tag)
    requires Full(tags, |v|) && AfterPlus(tags, v, u) && Below(tags, v, u) && !ClosedAfterPlus(tags, v)
    ensures NeighboursOpen(tags, v)
  {
    NeighboursAreUnique(tags, v);
  }

  lemma OpenFromAfter(tags: set<Tag>, v: Version, u: Tag)
    requires Full(tags, |v|) && BeforeMinus(tags, v, u) && Above(tags, v, u) && !ClosedBeforeMinus(tags, v)
    ensures NeighboursOpen(tags, v)
  {
    NeighboursAreUnique(tags, v);
  }

  /**
   * The documentation calls "+" and "-" convenience forms of "+=" and "-=". For tags written in full,
   * of any operators, and where the rewriting keeps them in order, that is so exactly outside RewritingMatters.
   */
  lemma ConvenienceForm(tags: set<Tag>, v: Version)
    requires Full(tags, |v|) && KeepsOrder(tags) && forall i :: 2 <= i < |v| ==> v[i] < SENTINEL
    ensures Uniform(Rewritten(tags), |v|)
    ensures Accepted(Rewritten(tags), v) <==> (Accepted(tags, v) != RewritingMatters(tags, v))
  {
    var R := Rewritten(tags);
    RewrittenIsPlaced(tags, |v|);
    assert Last(v)[|v|-1] == SENTINEL;
    OrdinaryForm(tags, v);
    OrdinaryForm(R, v);
    if Gap(tags, v) {
      if Gap(R, v) {
        SameInGap(tags, v);
      } else {
        var u :| u in tags && AsInclusive(u).ver == v;
        FilledGap(tags, v, u);
        NewIsInclusive(tags, v);
      }
    } else {
      RewrittenListed(tags, v);
    }
  }

  lemma RewrittenListed(tags: set<Tag>, v: Version)
    requires Full(tags, |v|) && KeepsOrder(tags) && !Gap(tags, v) && Uniform(Rewritten(tags), |v|)
    ensures Gap(Rewritten(tags), v) ==> !NeighboursOpen(Rewritten(tags), v) && exists t :: t in tags && t.ver == v && !t.op.Inclusive()
    ensures (forall t :: t in tags && t.ver == v ==> t.op.Inclusive()) ==>
              !Gap(Rewritten(tags), v) && forall t :: t in Rewritten(tags) && t.ver == v ==> t.op.Inclusive()
  {
    var R := Rewritten(tags);
    var t :| t in tags && t.ver == v;
    assert AsInclusive(t) in R;
    if Gap(R, v) {
      MovedCloses(tags, v, t);
    }
    forall x | x in R && x.ver == v && !x.op.Inclusive() ensures x in tags {
      var w :| w in tags && AsInclusive(w) == x;
    }
  }

  /** Releases of one branch compare by their last components. */
  lemma WithinBranch(x: nat, y: nat)
    ensures Less([1, 28, x], [1, 28, y]) <==> x < y
  {
    LessByPrefix([1, 28], [x], [1, 28], [y]);
    assert [1, 28] + [x] == [1, 28, x] && [1, 28] + [y] == [1, 28, y];
    Trichotomy([1, 28], [1, 28]);
  }

  /** A "+" tag next above, of the version's branch or with no "+" below, closes the version. */
  lemma ClosedFromAbove(tags: set<Tag>, v: Version, hi: Tag)
    requires |v| > 2 && Placed(tags, |v|) && Ordinary(v) && Gap(tags, v) && Above(tags, v, hi) && hi.op.Plus()
    requires Branch(hi.ver) == Branch(v) || forall t :: t in tags ==> !Less(t.ver, v)
    ensures !Accepted(tags, v)
  {
    OrdinaryForm(tags, v);
  }

  lemma OpenFromAbove(tags: set<Tag>, v: Version, hi: Tag)
    requires |v| > 2 && Placed(tags, |v|) && Ordinary(v) && Gap(tags, v) && Above(tags, v, hi) && !hi.op.Plus()
    requires forall t :: t in tags ==> !Less(t.ver, v)
    ensures Accepted(tags, v)
  {
    OrdinaryForm(tags, v);
    NeighboursAreUnique(tags, v);
  }

  lemma RewrittenPair(s: Tag, t: Tag)
    requires s.ver != [] && t.ver != []
    ensures Rewritten({s, t}) == {AsInclusive(s), AsInclusive(t)}
  {
    assert s in {s, t} && t in {s, t};
  }

  /** "+x" before a later tag of its branch rejects the release after x, which "+=" on that release accepts. */
  lemma NextIsClosed(s: Tag, t: Tag, v: Version)
    requires |s.ver| == |t.ver| == |v| > 2 && s.op.Gt? && t.op.Ge? && Next(s.ver) == v
    requires Less(v, t.ver) && Branch(t.ver) == Branch(v) && Ordinary(v)
    ensures AsInclusive(s) == Tag(Ge, v) && !Accepted({s, t}, v) && Accepted({Tag(Ge, v), t}, v)
  {
    NothingBetween(s.ver, v);
    BeforePartner(s, t, v);
    ListedIsOpen({Tag(Ge, v), t}, v, Tag(Ge, v));
  }

  lemma BeforePartner(s: Tag, t: Tag, v: Version)
    requires |s.ver| == |t.ver| == |v| > 2 && s.op.Plus() && t.op.Plus() && Less(s.ver, v)
    requires Less(v, t.ver) && Branch(t.ver) == Branch(v) && Ordinary(v)
    ensures !Accepted({s, t}, v)
  {
    PairAround(s, t, v);
    ClosedFromAbove({s, t}, v, t);
  }

  lemma PairAround(s: Tag, t: Tag, v: Version)
    requires Less(s.ver, v) && Less(v, t.ver)
    ensures Gap({s, t}, v) && Below({s, t}, v, s) && Above({s, t}, v, t)
  {
    Trichotomy(s.ver, v);
    Trichotomy(v, t.ver);
  }

  lemma ListedIsOpen(tags: set<Tag>, v: Version, w: Tag)
    requires |v| > 2 && Placed(tags, |v|) && Ordinary(v) && w in tags && w.ver == v
    requires forall t :: t in tags ==> t.op.Inclusive()
    ensures Accepted(tags, v)
  {
    OrdinaryForm(tags, v);
  }

  /** "+1.28.5 +=1.28.9" rejects 1.28.6, while "+=1.28.6 +=1.28.9" accepts it. */
  lemma ConvenienceFormFails()
    ensures var s, t, u, v := Tag(Gt, [1, 28, 5]), Tag(Ge, [1, 28, 9]), Tag(Ge, [1, 28, 6]), [1, 28, 6];
            Rewritten({s, t}) == {u, t} && !Accepted({s, t}, v) && Accepted({u, t}, v)
  {
    var s, t, v := Tag(Gt, [1, 28, 5]), Tag(Ge, [1, 28, 9]), [1, 28, 6];
    WithinBranch(6, 9);
    assert Last(v)[2] == SENTINEL && Branch(t.ver) == [1, 28] == Branch(v);
    NextIsClosed(s, t, v);
    RewrittenPair(s, t);
  }

  /** "+x" and "-=" on the next release change places when rewritten. */
  lemma ChangedPlaces(s: Tag, t: Tag)
    requires |s.ver| == |t.ver| > 2 && s.op.Gt? && t.op.Le? && Next(s.ver) == t.ver
    ensures !KeepsOrder({s, t}) && AsInclusive(s) == Tag(Ge, t.ver) && AsInclusive(t) == t
  {
    NothingBetween(s.ver, t.ver);
    Trichotomy(s.ver, t.ver);
    Trichotomy(t.ver, t.ver);
    assert s in {s, t} && t in {s, t} && Before(s, t) && !NotAfter(AsInclusive(s), AsInclusive(t));
  }

  /** What precedes both is rejected before, and accepted after. */
  lemma BeforeBoth(s: Tag, t: Tag, u: Tag, v: Version)
    requires |s.ver| == |t.ver| == |v| > 2 && s.op.Gt? && t.op.Le? && u == Tag(Ge, t.ver) && TailBounded(t.ver)
    requires Less(v, s.ver) && Less(s.ver, t.ver) && Ordinary(v)
    ensures !Accepted({s, t}, v) && Accepted({u, t}, v)
  {
    Transitive(v, s.ver, t.ver);
    Trichotomy(v, s.ver);
    Trichotomy(v, t.ver);
    assert !Accepted({s, t}, v) by { ClosedFromAbove({s, t}, v, s); }
    assert Accepted({u, t}, v) by { OpenFromAbove({u, t}, v, t); }
  }

  /** 1.20.0 is before 1.28.5, which is before 1.28.6. */
  lemma EarlyBranch()
    ensures Less([1, 20, 0], [1, 28, 5]) && Less([1, 28, 5], [1, 28, 6]) && Next([1, 28, 5]) == [1, 28, 6] && Ordinary([1, 20, 0])
  {
    WithinBranch(5, 6);
    assert Less([1, 20], [1, 28]) by { assert [1, 20][1..] == [20] && [1, 28][1..] == [28]; }
    LessByPrefix([1, 20], [0], [1, 28], [5]);
    assert [1, 20, 0] == [1, 20] + [0] && [1, 28, 5] == [1, 28] + [5];
    assert Last([1, 20, 0])[2] == SENTINEL;
  }

  /** Out of order it can change every verdict: "+1.28.5 -=1.28.6" rejects 1.20.0, "+=1.28.6 -=1.28.6" accepts it. */
  lemma ConvenienceFormOutOfOrder()
    ensures var s, t, u, v := Tag(Gt, [1, 28, 5]), Tag(Le, [1, 28, 6]), Tag(Ge, [1, 28, 6]), [1, 20, 0];
            !KeepsOrder({s, t}) && Rewritten({s, t}) == {u, t} && !Accepted({s, t}, v) && Accepted({u, t}, v)
  {
    var s, t, u, v := Tag(Gt, [1, 28, 5]), Tag(Le, [1, 28, 6]), Tag(Ge, [1, 28, 6]), [1, 20, 0];
    EarlyBranch();
    ChangedPlaces(s, t);
    RewrittenPair(s, t);
    BeforeBoth(s, t, u, v);
  }

  // ----- Note 1, where the rewriting changes the order -----

  /** A "+" tag before a "-" tag, which the rewriting puts the other way round. */
  ghost predicate Swapped(tags: set<Tag>, s: Tag, t: Tag) {
    && s in tags && t in tags && s.ver != [] && t.ver != []
    && s.op.Plus() && !t.op.Plus() && Before(s, t) && AtMost(AsInclusive(t).ver, AsInclusive(s).ver)
  }

  /** Rewriting moves "+" tags up and "-" tags down, by one release at most. */
  lemma MovesByOne(t: Tag)
    requires |t.ver| > 2
    ensures if t.op.Plus() then AtMost(t.ver, AsInclusive(t).ver) else AtMost(AsInclusive(t).ver, t.ver)
    ensures Branch(AsInclusive(t).ver) == Branch(t.ver)
  {
    MovesAway(t, t.ver);
    Trichotomy(t.ver, AsInclusive(t).ver);
    RewrittenTag(t, t.ver);
  }

  /** What a tag moves past, it reaches. */
  lemma ReachesNext(s: Tag, v: Version)
    requires |s.ver| == |v| > 2
    ensures s.op.Plus() && Less(s.ver, v) ==> AtMost(AsInclusive(s).ver, v)
    ensures !s.op.Plus() && Less(v, s.ver) ==> AtMost(v, AsInclusive(s).ver)
    ensures !s.op.Plus() && Less(AsInclusive(s).ver, v) ==> AtMost(s.ver, v)
    ensures s.op.Plus() && Less(v, AsInclusive(s).ver) ==> AtMost(v, s.ver)
  {
    var u := AsInclusive(s);
    NothingBetween(if s.op.Lt? then u.ver else s.ver, v);
    Trichotomy(s.ver, v);
    Trichotomy(u.ver, v);
  }

  /** Two tags of one sign, or "-" before "+", stay in order. */
  lemma StaysInOrder(s: Tag, t: Tag)
    requires |s.ver| == |t.ver| > 2 && Before(s, t) && (s.op.Plus() ==> t.op.Plus())
    ensures NotAfter(AsInclusive(s), AsInclusive(t))
  {
    if s.op.Plus() {
      PlusInOrder(s, t);
    } else if !t.op.Plus() {
      MinusInOrder(s, t);
    } else {
      MovesByOne(s);
      MovesByOne(t);
      AtMostTransitive(AsInclusive(s).ver, s.ver, t.ver);
      AtMostTransitive(AsInclusive(s).ver, t.ver, AsInclusive(t).ver);
    }
  }

  lemma PlusInOrder(s: Tag, t: Tag)
    requires |s.ver| == |t.ver| > 2 && Before(s, t) && s.op.Plus() && t.op.Plus()
    ensures NotAfter(AsInclusive(s), AsInclusive(t))
  {
    MovesByOne(t);
    if s.ver != t.ver {
      ReachesNext(s, t.ver);
      AtMostTransitive(AsInclusive(s).ver, t.ver, AsInclusive(t).ver);
    } else {
      Trichotomy(s.ver, t.ver);
      MovesAway(t, t.ver);
    }
  }

  lemma MinusInOrder(s: Tag, t: Tag)
    requires |s.ver| == |t.ver| > 2 && Before(s, t) && !s.op.Plus() && !t.op.Plus()
    ensures NotAfter(AsInclusive(s), AsInclusive(t))
  {
    MovesByOne(s);
    if s.ver != t.ver {
      ReachesNext(t, s.ver);
      AtMostTransitive(AsInclusive(s).ver, s.ver, AsInclusive(t).ver);
      UnmovedInOrder(s, t);
    } else {
      Trichotomy(s.ver, t.ver);
      MovesAway(s, s.ver);
    }
  }

  /** If the two come to one release, neither is an exclusive "-" tag that the other would have to precede. */
  lemma UnmovedInOrder(s: Tag, t: Tag)
    requires |s.ver| == |t.ver| > 2 && Less(s.ver, t.ver) && !s.op.Plus() && !t.op.Plus() && AtMost(AsInclusive(s).ver, AsInclusive(t).ver)
    ensures NotAfter(AsInclusive(s), AsInclusive(t))
  {
    MovesByOne(s);
    Trichotomy(s.ver, t.ver);
    Trichotomy(AsInclusive(s).ver, s.ver);
    if AsInclusive(s).ver == AsInclusive(t).ver && AsInclusive(t) == t {
      Trichotomy(t.ver, s.ver);
    }
  }

  /** The rewriting keeps the order exactly if it swaps no two tags. */
  lemma KeepsOrderIff(tags: set<Tag>, l: nat)
    requires l > 2 && Uniform(tags, l)
    ensures KeepsOrder(tags) <==> forall s, t :: !Swapped(tags, s, t)
  {
    forall s, t | s in tags && t in tags && Before(s, t) ensures Swapped(tags, s, t) <==> !NotAfter(AsInclusive(s), AsInclusive(t)) {
      if s.op.Plus() && !t.op.Plus() {
        Trichotomy(AsInclusive(s).ver, AsInclusive(t).ver);
      } else {
        StaysInOrder(s, t);
      }
    }
  }

  /** A version between the two tags, as both allow. */
  predicate LetIn(s: Tag, t: Tag, v: Version) {
    Satisfied(s, v) && Satisfied(t, v)
  }

  /** What a tag allows is what its rewritten form allows. */
  lemma SatisfiedRewritten(t: Tag, v: Version)
    requires |t.ver| == |v| > 2
    ensures Satisfied(AsInclusive(t), v) <==> Satisfied(t, v)
  {
    var u := AsInclusive(t);
    NothingBetween(if t.op.Lt? then u.ver else t.ver, v);
    Trichotomy(t.ver, v);
    Trichotomy(u.ver, v);
  }

  /** Two tags are swapped exactly if they let in at most one release between them. */
  lemma SwappedIff(tags: set<Tag>, l: nat, s: Tag, t: Tag)
    requires l > 2 && Uniform(tags, l) && s in tags && t in tags && s.op.Plus() && !t.op.Plus() && Before(s, t)
    ensures Swapped(tags, s, t) <==> forall v, w :: |v| == |w| == l && LetIn(s, t, v) && LetIn(s, t, w) ==> v == w
  {
    var a, b := AsInclusive(s), AsInclusive(t);
    if Swapped(tags, s, t) {
      forall v, w | |v| == |w| == l && LetIn(s, t, v) && LetIn(s, t, w) ensures v == w {
        OnlyOne(s, t, v);
        OnlyOne(s, t, w);
      }
    } else {
      Trichotomy(a.ver, b.ver);
      TwoLetIn(s, t);
    }
  }

  lemma OnlyOne(s: Tag, t: Tag, v: Version)
    requires |s.ver| == |t.ver| == |v| > 2 && s.op.Plus() && !t.op.Plus() && AtMost(AsInclusive(t).ver, AsInclusive(s).ver) && LetIn(s, t, v)
    ensures v == AsInclusive(s).ver
  {
    var a, b := AsInclusive(s), AsInclusive(t);
    SatisfiedRewritten(s, v);
    SatisfiedRewritten(t, v);
    assert AtMost(a.ver, v) && AtMost(v, b.ver);
    AtMostTransitive(v, b.ver, a.ver);
    Trichotomy(a.ver, v);
  }

  /** In order, they let in two releases. */
  lemma TwoLetIn(s: Tag, t: Tag)
    requires |s.ver| == |t.ver| > 2 && s.op.Plus() && !t.op.Plus() && Less(AsInclusive(s).ver, AsInclusive(t).ver)
    ensures exists v, w :: |v| == |w| == |s.ver| && LetIn(s, t, v) && LetIn(s, t, w) && v != w
  {
    var a, b := AsInclusive(s), AsInclusive(t);
    Trichotomy(a.ver, b.ver);
    SatisfiedRewritten(s, a.ver);
    SatisfiedRewritten(t, a.ver);
    assert LetIn(s, t, a.ver);
    if b.op.Le? {
      SatisfiedRewritten(s, b.ver);
      SatisfiedRewritten(t, b.ver);
      assert LetIn(s, t, b.ver);
    } else {
      var w := Next(a.ver);
      NothingBetween(a.ver, b.ver);
      NothingBetween(a.ver, w);
      Trichotomy(a.ver, w);
      assert w[|w|-1] > 0 && b.ver[|w|-1] == 0;
      SatisfiedRewritten(s, w);
      SatisfiedRewritten(t, w);
      assert LetIn(s, t, w);
    }
  }

  /** The last tag that lies below the version once rewritten. */
  ghost predicate LowTag(tags: set<Tag>, v: Version, lo: Tag)
    requires forall t :: t in tags ==> t.ver != []
  {
    lo in tags && Less(AsInclusive(lo).ver, v) && forall u :: u in tags && Less(AsInclusive(u).ver, v) ==> NotAfter(u, lo)
  }

  /** The first tag that lies above it. */
  ghost predicate HighTag(tags: set<Tag>, v: Version, hi: Tag)
    requires forall t :: t in tags ==> t.ver != []
  {
    hi in tags && Less(v, AsInclusive(hi).ver) && forall u :: u in tags && Less(v, AsInclusive(u).ver) ==> NotAfter(hi, u)
  }

  /** Below the version the rewritten list ends in "+": its last tag is "+", or was swapped with one. */
  ghost predicate PlusEnd(tags: set<Tag>, lo: Tag) {
    lo.op.Plus() || exists s :: Swapped(tags, s, lo)
  }

  /** Above the version the rewritten list begins with "-". */
  ghost predicate MinusStart(tags: set<Tag>, hi: Tag) {
    !hi.op.Plus() || exists t :: Swapped(tags, hi, t)
  }

  /** What the rewritten list means in its gaps, read off the tags as they were. */
  ghost predicate RewrittenOpen(tags: set<Tag>, v: Version)
    requires |v| > 0 && Uniform(tags, |v|)
  {
    && (forall lo :: LowTag(tags, v, lo) ==>
                       PlusEnd(tags, lo) || (Branch(lo.ver) != Branch(v) && exists hi :: HighTag(tags, v, hi) && MinusStart(tags, hi)))
    && (forall hi :: HighTag(tags, v, hi) ==>
                       MinusStart(tags, hi) || (Branch(hi.ver) != Branch(v) && exists lo :: LowTag(tags, v, lo) && PlusEnd(tags, lo)))
  }

  /** The "+" tag that is swapped with the last tag below lies below too. */
  lemma SwappedIsBelow(tags: set<Tag>, v: Version, s: Tag, lo: Tag)
    requires Full(tags, |v|) && Gap(Rewritten(tags), v) && Swapped(tags, s, lo) && Less(AsInclusive(lo).ver, v)
    ensures Less(AsInclusive(s).ver, v)
  {
    assert AsInclusive(s) in Rewritten(tags);
    ReachesNext(s, lo.ver);
    ReachesNext(lo, v);
    assert Less(s.ver, lo.ver);
    AtMostTransitive(AsInclusive(s).ver, lo.ver, v);
  }

  lemma SwappedIsAbove(tags: set<Tag>, v: Version, hi: Tag, t: Tag)
    requires Full(tags, |v|) && Gap(Rewritten(tags), v) && Swapped(tags, hi, t) && Less(v, AsInclusive(hi).ver)
    ensures Less(v, AsInclusive(t).ver)
  {
    assert AsInclusive(t) in Rewritten(tags);
    ReachesNext(t, hi.ver);
    ReachesNext(hi, v);
    assert Less(hi.ver, t.ver);
    AtMostTransitive(v, hi.ver, AsInclusive(t).ver);
  }

  /** If the last tag is "+", or swapped with none, its rewritten form is the last. */
  lemma LastStaysLast(tags: set<Tag>, v: Version, lo: Tag, w: Tag)
    requires Full(tags, |v|) && LowTag(tags, v, lo) && (lo.op.Plus() || !PlusEnd(tags, lo))
    requires w in tags && Less(AsInclusive(w).ver, v)
    ensures NotAfter(AsInclusive(w), AsInclusive(lo))
  {
    if w != lo {
      if w.op.Plus() && !lo.op.Plus() {
        assert !Swapped(tags, w, lo);
        Trichotomy(AsInclusive(w).ver, AsInclusive(lo).ver);
      } else {
        StaysInOrder(w, lo);
      }
    }
  }

  lemma FirstStaysFirst(tags: set<Tag>, v: Version, hi: Tag, w: Tag)
    requires Full(tags, |v|) && HighTag(tags, v, hi) && (!hi.op.Plus() || !MinusStart(tags, hi))
    requires w in tags && Less(v, AsInclusive(w).ver)
    ensures NotAfter(AsInclusive(hi), AsInclusive(w))
  {
    if w != hi {
      if hi.op.Plus() && !w.op.Plus() {
        assert !Swapped(tags, hi, w);
        Trichotomy(AsInclusive(hi).ver, AsInclusive(w).ver);
      } else {
        StaysInOrder(hi, w);
      }
    }
  }

  /** Swapped with a "+" tag, the last tag gives way to a "+" tag of its branch. */
  lemma SwappedGivesWay(tags: set<Tag>, v: Version, lo: Tag, s: Tag, w: Tag)
    requires Full(tags, |v|) && LowTag(tags, v, lo) && Swapped(tags, s, lo) && w in tags && Less(AsInclusive(w).ver, v)
    requires NotAfter(AsInclusive(s), AsInclusive(w))
    ensures w.op.Plus() && Branch(w.ver) == Branch(lo.ver)
  {
    assert Before(AsInclusive(lo), AsInclusive(s));
    if !w.op.Plus() {
      if w != lo { StaysInOrder(w, lo); }
      BeforeOrSame(AsInclusive(s), AsInclusive(w), AsInclusive(lo));
      BeforeTrichotomy(AsInclusive(lo), AsInclusive(s));
    } else {
      SameBranchAfterSwap(w, lo, s);
    }
  }

  lemma SameBranchAfterSwap(w: Tag, lo: Tag, s: Tag)
    requires |w.ver| == |lo.ver| == |s.ver| > 2 && NotAfter(w, lo) && w.op.Plus() && !lo.op.Plus()
    requires AtMost(AsInclusive(lo).ver, AsInclusive(s).ver) && NotAfter(AsInclusive(s), AsInclusive(w))
    ensures Branch(w.ver) == Branch(lo.ver)
  {
    MovesByOne(w);
    MovesByOne(lo);
    AtMostTransitive(AsInclusive(lo).ver, AsInclusive(s).ver, AsInclusive(w).ver);
    if Branch(w.ver) != Branch(lo.ver) {
      AcrossBranches(w.ver, lo.ver);
      AcrossBranches(AsInclusive(w).ver, AsInclusive(lo).ver);
      Trichotomy(AsInclusive(w).ver, AsInclusive(lo).ver);
    }
  }

  lemma SwappedGivesWayAbove(tags: set<Tag>, v: Version, hi: Tag, t: Tag, w: Tag)
    requires Full(tags, |v|) && HighTag(tags, v, hi) && Swapped(tags, hi, t) && w in tags && Less(v, AsInclusive(w).ver)
    requires NotAfter(AsInclusive(w), AsInclusive(t))
    ensures !w.op.Plus() && Branch(w.ver) == Branch(hi.ver)
  {
    assert Before(AsInclusive(t), AsInclusive(hi));
    if w.op.Plus() {
      if w != hi { StaysInOrder(hi, w); }
      BeforeOrSame(AsInclusive(hi), AsInclusive(w), AsInclusive(t));
      BeforeTrichotomy(AsInclusive(t), AsInclusive(hi));
    } else {
      MovesByOne(w);
      MovesByOne(hi);
      AtMostTransitive(AsInclusive(w).ver, AsInclusive(t).ver, AsInclusive(hi).ver);
      if Branch(w.ver) != Branch(hi.ver) {
        AcrossBranches(hi.ver, w.ver);
        AcrossBranches(AsInclusive(hi).ver, AsInclusive(w).ver);
        Trichotomy(AsInclusive(w).ver, AsInclusive(hi).ver);
      }
    }
  }

  /** The last tag of the rewritten list below the version has the sign and branch that are read off the tags. */
  lemma LastRewritten(tags: set<Tag>, v: Version, x: Tag, lo: Tag)
    requires Full(tags, |v|) && Uniform(Rewritten(tags), |v|) && Gap(Rewritten(tags), v) && Below(Rewritten(tags), v, x) && LowTag(tags, v, lo)
    ensures (x.op.Plus() <==> PlusEnd(tags, lo)) && Branch(x.ver) == Branch(lo.ver)
  {
    var w :| w in tags && AsInclusive(w) == x;
    MovesByOne(w);
    MovesByOne(lo);
    assert AsInclusive(lo) in Rewritten(tags);
    if lo.op.Plus() || !PlusEnd(tags, lo) {
      LastStaysLast(tags, v, lo, w);
      SameTag(x, AsInclusive(lo));
    } else {
      var s :| Swapped(tags, s, lo);
      SwappedIsBelow(tags, v, s, lo);
      assert AsInclusive(s) in Rewritten(tags);
      SwappedGivesWay(tags, v, lo, s, w);
    }
  }

  lemma FirstRewritten(tags: set<Tag>, v: Version, x: Tag, hi: Tag)
    requires Full(tags, |v|) && Uniform(Rewritten(tags), |v|) && Gap(Rewritten(tags), v) && Above(Rewritten(tags), v, x) && HighTag(tags, v, hi)
    ensures (!x.op.Plus() <==> MinusStart(tags, hi)) && Branch(x.ver) == Branch(hi.ver)
  {
    var w :| w in tags && AsInclusive(w) == x;
    MovesByOne(w);
    MovesByOne(hi);
    assert AsInclusive(hi) in Rewritten(tags);
    if !hi.op.Plus() || !MinusStart(tags, hi) {
      FirstStaysFirst(tags, v, hi, w);
      SameTag(x, AsInclusive(hi));
    } else {
      var t :| Swapped(tags, hi, t);
      SwappedIsAbove(tags, v, hi, t);
      assert AsInclusive(t) in Rewritten(tags);
      SwappedGivesWayAbove(tags, v, hi, t, w);
    }
  }

  /** Either list has a last tag below the version if the other has. */
  lemma LastOfBoth(tags: set<Tag>, v: Version)
    requires Full(tags, |v|)
    ensures (exists lo :: LowTag(tags, v, lo)) <==> exists x :: Below(Rewritten(tags), v, x)
    ensures forall a, b :: LowTag(tags, v, a) && LowTag(tags, v, b) ==> a == b
  {
    if lo :| LowTag(tags, v, lo) { var x := BelowExists(Rewritten(tags), v, AsInclusive(lo)); }
    if x :| Below(Rewritten(tags), v, x) {
      var w :| w in tags && AsInclusive(w) == x;
      var lower := set t | t in tags && Less(AsInclusive(t).ver, v);
      var lo := Greatest(lower, w);
      assert LowTag(tags, v, lo);
    }
    forall a, b | LowTag(tags, v, a) && LowTag(tags, v, b) ensures a == b { SameTag(a, b); }
  }

  lemma FirstOfBoth(tags: set<Tag>, v: Version)
    requires Full(tags, |v|)
    ensures (exists hi :: HighTag(tags, v, hi)) <==> exists x :: Above(Rewritten(tags), v, x)
    ensures forall a, b :: HighTag(tags, v, a) && HighTag(tags, v, b) ==> a == b
  {
    if hi :| HighTag(tags, v, hi) { var x := AboveExists(Rewritten(tags), v, AsInclusive(hi)); }
    if x :| Above(Rewritten(tags), v, x) {
      var w :| w in tags && AsInclusive(w) == x;
      var higher := set t | t in tags && Less(v, AsInclusive(t).ver);
      var hi := Least(higher, w);
      assert HighTag(tags, v, hi);
    }
    forall a, b | HighTag(tags, v, a) && HighTag(tags, v, b) ensures a == b { SameTag(a, b); }
  }

  /** Seen from below, the gap is open in both readings or in neither. */
  lemma RewrittenGap(tags: set<Tag>, v: Version)
    requires Full(tags, |v|) && Uniform(Rewritten(tags), |v|) && Gap(Rewritten(tags), v)
    ensures NeighboursOpen(Rewritten(tags), v) <==> RewrittenOpen(tags, v)
  {
    var R := Rewritten(tags);
    LastOfBoth(tags, v);
    FirstOfBoth(tags, v);
    NeighboursAreUnique(R, v);
    if x, lo :| Below(R, v, x) && LowTag(tags, v, lo) {
      LastRewritten(tags, v, x, lo);
      if y, hi :| Above(R, v, y) && HighTag(tags, v, hi) {
        FirstRewritten(tags, v, y, hi);
        BothOpen(tags, R, v, x, y, lo, hi);
      }
    } else if y, hi :| Above(R, v, y) && HighTag(tags, v, hi) {
      FirstRewritten(tags, v, y, hi);
    }
  }

  lemma BothOpen(tags: set<Tag>, R: set<Tag>, v: Version, x: Tag, y: Tag, lo: Tag, hi: Tag)
    requires Full(tags, |v|) && Uniform(R, |v|) && Below(R, v, x) && Above(R, v, y) && LowTag(tags, v, lo) && HighTag(tags, v, hi)
    requires (x.op.Plus() <==> PlusEnd(tags, lo)) && Branch(x.ver) == Branch(lo.ver)
    requires (!y.op.Plus() <==> MinusStart(tags, hi)) && Branch(y.ver) == Branch(hi.ver)
    requires forall a :: LowTag(tags, v, a) ==> a == lo
    requires forall a :: HighTag(tags, v, a) ==> a == hi
    ensures NeighboursOpen(R, v) <==> RewrittenOpen(tags, v)
  {
    NeighboursAreUnique(R, v);
  }

  /**
   * The evaluation of the rewritten list at every version, in whatever order the rewriting leaves
   * it. A version it lists is accepted unless an exclusive "-" tag is left on it; in its gaps the
   * tags around the version decide, of which a swapped pair counts with the other sign.
   */
  lemma RewrittenForm(tags: set<Tag>, v: Version)
    requires Full(tags, |v|) && forall i :: 2 <= i < |v| ==> v[i] < SENTINEL
    ensures Uniform(Rewritten(tags), |v|)
    ensures Accepted(Rewritten(tags), v) <==>
            if Gap(Rewritten(tags), v) then RewrittenOpen(tags, v) else !(Tag(Lt, v) in tags && v[|v|-1] == 0)
  {
    RewrittenIsPlaced(tags, |v|);
    assert Last(v)[|v|-1] == SENTINEL;
    OrdinaryForm(Rewritten(tags), v);
    if Gap(Rewritten(tags), v) {
      RewrittenGap(tags, v);
    } else {
      ExclusiveIsUnmoved(tags, v);
    }
  }

  /** The only exclusive tags that are left are "-" tags on the first release of a list of releases. */
  lemma ExclusiveIsUnmoved(tags: set<Tag>, v: Version)
    requires Full(tags, |v|)
    ensures (exists t :: t in Rewritten(tags) && t.ver == v && !t.op.Inclusive()) <==> Tag(Lt, v) in tags && v[|v|-1] == 0
  {
    if t :| t in Rewritten(tags) && t.ver == v && !t.op.Inclusive() {
      var w :| w in tags && AsInclusive(w) == t;
      assert w == t == Tag(Lt, v);
    }
    if Tag(Lt, v) in tags && v[|v|-1] == 0 {
      assert AsInclusive(Tag(Lt, v)) == Tag(Lt, v);
      assert Tag(Lt, v) in Rewritten(tags);
    }
  }
}
