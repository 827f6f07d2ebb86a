/**
 * Evaluation of version tags such as `ver+=1.28.2`: the algorithm (padding, sorting,
 * two passes that add auxiliary "stop" tags, and a search for the two nearest tags)
 * and its specification over the set of tags.
 */
module VersionTags {
  import opened VersionOrder
  import opened Wrappers
  import opened Sorting

  /** The operators "-", "-=", "+=" and "+", in the order the sort key gives them. */
  datatype Op = Lt | Le | Ge | Gt {
    function Index(): nat { if Lt? then 0 else if Le? then 1 else if Ge? then 2 else 3 }

    predicate Plus() { Ge? || Gt? }

    predicate Inclusive() { Le? || Ge? }
  }

  datatype Tag = Tag(op: Op, ver: Version)

  datatype Outcome = Verdict(accepted: bool) | AssertionFailed | TagTooLong

  // ----- Order of tags -----

  /** The order of the sort key: the version, then the operator. */
  predicate Before(s: Tag, t: Tag) {
    Less(s.ver, t.ver) || (s.ver == t.ver && s.op.Index() < t.op.Index())
  }

  predicate NotAfter(s: Tag, t: Tag) {
    s == t || Before(s, t)
  }

  ghost predicate Sorted(tags: seq<Tag>) {
    forall i, j :: 0 <= i < j < |tags| ==> NotAfter(tags[i], tags[j])
  }

  lemma BeforeIsTotalOrder()
    ensures forall s: Tag, t: Tag {:trigger Before(s, t)} :: Before(s, t) ==> s != t && !Before(t, s)
    ensures forall s: Tag, t: Tag {:trigger Before(s, t)} :: s == t || Before(s, t) || Before(t, s)
    ensures forall s: Tag, t: Tag, u: Tag {:trigger Before(s, t), Before(t, u)} ::
              Before(s, t) && Before(t, u) ==> Before(s, u)
  {
    TotalOrder();
  }

  lemma BeforeTransitive(s: Tag, t: Tag, u: Tag)
    requires Before(s, t) && Before(t, u)
    ensures Before(s, u)
  {
    if s.ver != t.ver && t.ver != u.ver { Transitive(s.ver, t.ver, u.ver); }
  }

  lemma BeforeTrichotomy(s: Tag, t: Tag)
    ensures Before(s, t) ==> s != t && !Before(t, s)
    ensures s == t || Before(s, t) || Before(t, s)
  {
    Trichotomy(s.ver, t.ver);
  }

  lemma BeforeOrSame(s: Tag, t: Tag, u: Tag)
    requires NotAfter(s, t) && NotAfter(t, u)
    ensures NotAfter(s, u)
  {
    if s != t && t != u { BeforeTransitive(s, t, u); }
  }

  /** Two tags of which neither is after the other are the same. */
  lemma SameTag(s: Tag, t: Tag)
    requires NotAfter(s, t) && NotAfter(t, s)
    ensures s == t
  {
    BeforeTrichotomy(s, t);
  }

  function SortTags(tags: seq<Tag>): seq<Tag> {
    Sort(NotAfter, tags)
  }

  lemma SortedTags(tags: seq<Tag>)
    ensures Sorted(SortTags(tags)) && forall t :: t in SortTags(tags) <==> t in tags
  {
    BeforeIsTotalOrder();
    SortSorts(NotAfter, tags);
    SortKeepsElements(NotAfter, tags);
  }

  // ----- Padding and auxiliary tags -----

  function Padded(t: Tag, l: nat): Tag
  {
    if |t.ver| >= l then t
    else Tag(t.op, t.ver + Repeat(if t.op.Gt? || t.op.Le? then SENTINEL else 0, l - |t.ver|))
  }

  /** The components a stop tag keeps. */
  function Keep(l: nat): nat {
    if l <= 2 then 1 else 2
  }

  /** The components by which the passes tell one group of tags from the next. */
  function Group(v: Version): Version {
    if |v| <= 2 then v else v[..2]
  }

  predicate AllZero(v: Version) {
    forall i :: 0 <= i < |v| ==> v[i] == 0
  }

  /** The stop tag of `t`: the opposite operator at the first (or last) release of t's branch. */
  function AuxTag(t: Tag, l: nat): Tag
    requires |t.ver| == l > 0
  {
    var k := Keep(l);
    var exclusive := !t.op.Inclusive() || !AllZero(t.ver[k..]);
    if t.op.Plus() then
      Tag(if exclusive then Lt else Le, t.ver[..k] + Repeat(0, l - k))
    else
      Tag(if exclusive then Gt else Ge, t.ver[..k] + Repeat(SENTINEL, l - k))
  }

  // ----- Specification over sets of tags -----

  ghost predicate Uniform(tags: set<Tag>, l: nat) {
    forall t :: t in tags ==> |t.ver| == l
  }

  ghost function Elements(tags: seq<Tag>): set<Tag> {
    set t | t in tags
  }

  ghost predicate Adjacent(tags: set<Tag>, s: Tag, t: Tag) {
    && s in tags && t in tags && Before(s, t)
    && forall u :: u in tags ==> !(Before(s, u) && Before(u, t))
  }

  /** Neighbours of the same sign in different groups: the pairs that need a stop between them. */
  ghost predicate NeedsStop(tags: set<Tag>, s: Tag, t: Tag, plus: bool) {
    Adjacent(tags, s, t) && s.op.Plus() == t.op.Plus() == plus && Group(s.ver) != Group(t.ver)
  }

  /** The pass over "+" tags stops before the upper neighbour, the pass over "-" tags after the lower. */
  ghost function Stops(tags: set<Tag>, l: nat): set<Tag>
    requires l > 0 && Uniform(tags, l)
  {
    PlusStops(tags, l) + MinusStops(tags, l)
  }

  ghost function PlusStops(tags: set<Tag>, l: nat): set<Tag>
    requires l > 0 && Uniform(tags, l)
  {
    set s, t | s in tags && t in tags && NeedsStop(tags, s, t, true) :: AuxTag(t, l)
  }

  ghost function MinusStops(tags: set<Tag>, l: nat): set<Tag>
    requires l > 0 && Uniform(tags, l)
  {
    set s, t | s in tags && t in tags && NeedsStop(tags, s, t, false) :: AuxTag(s, l)
  }

  ghost predicate IsLow(tags: set<Tag>, v: Version, t: Tag) {
    t in tags && AtMost(t.ver, v) && forall u :: u in tags && AtMost(u.ver, v) ==> NotAfter(u, t)
  }

  ghost predicate IsHigh(tags: set<Tag>, v: Version, t: Tag) {
    t in tags && AtMost(v, t.ver) && forall u :: u in tags && AtMost(v, u.ver) ==> NotAfter(t, u)
  }

  predicate Satisfied(t: Tag, v: Version) {
    match t.op
    case Lt => Less(v, t.ver)
    case Le => AtMost(v, t.ver)
    case Ge => AtMost(t.ver, v)
    case Gt => Less(t.ver, v)
  }

  /** Only the nearest tag at or below the version, and the nearest at or above it, decide. */
  ghost predicate NearestSatisfied(tags: set<Tag>, v: Version) {
    && (forall t :: IsLow(tags, v, t) ==> Satisfied(t, v))
    && (forall t :: IsHigh(tags, v, t) ==> Satisfied(t, v))
  }

  ghost predicate Accepted(tags: set<Tag>, v: Version)
    requires |v| > 0 && Uniform(tags, |v|)
  {
    NearestSatisfied(tags + Stops(tags, |v|), v)
  }

  ghost function PaddedSet(tags: seq<Tag>, l: nat): (r: set<Tag>)
    requires forall t :: t in tags ==> |t.ver| <= l
    ensures Uniform(r, l)
  {
    set t | t in tags :: Padded(t, l)
  }

  /** What evaluation returns, with its two assertions and its error. */
  ghost function Evaluation(tags: seq<Tag>, v: Version): Outcome
    requires |v| > 0
  {
    if tags == [] then Verdict(true)
    else if exists t :: t in tags && t.ver == [] then
      if |tags| == 1 && !tags[0].op.Inclusive() then Verdict(tags[0].op.Gt?) else AssertionFailed
    else if exists t :: t in tags && |t.ver| > |v| then TagTooLong
    else Verdict(Accepted(PaddedSet(tags, |v|), v))
  }

  // ----- The algorithm -----

  method FillVer(t: Tag, l: nat) returns (r: Tag)
    requires |t.ver| <= l
    ensures r == Padded(t, l)
    ensures r.op == t.op && |r.ver| == l && t.ver <= r.ver
    ensures t.op.Gt? || t.op.Le? ==> forall i :: |t.ver| <= i < l ==> r.ver[i] == 9999
    ensures t.op.Lt? || t.op.Ge? ==> forall i :: |t.ver| <= i < l ==> r.ver[i] == 0
  {
    var ver := t.ver;
    var fill := if t.op.Gt? || t.op.Le? then SENTINEL else 0;
    while |ver| < l
      invariant |t.ver| <= |ver| <= l
      invariant ver == t.ver + Repeat(fill, |ver| - |t.ver|)
    {
      ver := ver + [fill];
    }
    r := Tag(t.op, ver);
  }

  /** The tag at k directly follows one of the same sign, in another group. */
  predicate StopPair(tags: seq<Tag>, k: int, plus: bool) {
    0 < k < |tags| && tags[k-1].op.Plus() == tags[k].op.Plus() == plus && Group(tags[k-1].ver) != Group(tags[k].ver)
  }

  /** One pass over a list of tags: an auxiliary tag for each tag that directly follows one of the same sign in another group. */
  method AddAuxTags(tags: seq<Tag>, plus: bool, l: nat) returns (newTags: seq<Tag>)
    requires l > 0 && forall t :: t in tags ==> |t.ver| == l
    ensures forall x :: x in newTags <==> exists k :: StopPair(tags, k, plus) && x == AuxTag(tags[k], l)
  {
    newTags := [];
    var lastTag := None;
    for i := 0 to |tags|
      invariant lastTag == if i > 0 && tags[i-1].op.Plus() == plus then Some(Group(tags[i-1].ver)) else None
      invariant forall x :: x in newTags <==> exists k :: k < i && StopPair(tags, k, plus) && x == AuxTag(tags[k], l)
    {
      var tag := tags[i];
      assert StopPair(tags, i, plus) <==> tag.op.Plus() == plus && lastTag.Some? && lastTag.value != Group(tag.ver);
      if tag.op.Plus() == plus {
        if lastTag.Some? && lastTag.value != Group(tag.ver) {
          newTags := newTags + [AuxTag(tag, l)];
        }
        lastTag := Some(Group(tag.ver));
      } else {
        lastTag := None;
      }
    }
  }

  method SearchClosestTags(tags: seq<Tag>, v: Version) returns (lo: Option<Tag>, hi: Option<Tag>)
    requires Sorted(tags)
    ensures forall t :: IsLow(Elements(tags), v, t) <==> lo == Some(t)
    ensures forall t :: IsHigh(Elements(tags), v, t) <==> hi == Some(t)
  {
    BeforeIsTotalOrder();
    lo, hi := None, None;
    for i := 0 to |tags|
      invariant lo.None? ==> forall k :: 0 <= k < i ==> !AtMost(tags[k].ver, v)
      invariant lo.Some? ==> lo.value in tags[..i] && AtMost(lo.value.ver, v)
      invariant lo.Some? ==> forall k :: 0 <= k < i && AtMost(tags[k].ver, v) ==> NotAfter(tags[k], lo.value)
    {
      if AtMost(tags[i].ver, v) {
        lo := Some(tags[i]);
      }
    }
    for i := |tags| downto 0
      invariant hi.None? ==> forall k :: i <= k < |tags| ==> !AtMost(v, tags[k].ver)
      invariant hi.Some? ==> hi.value in tags[i..] && AtMost(v, hi.value.ver)
      invariant hi.Some? ==> forall k :: i <= k < |tags| && AtMost(v, tags[k].ver) ==> NotAfter(hi.value, tags[k])
    {
      if AtMost(v, tags[i].ver) {
        hi := Some(tags[i]);
      }
    }
  }

  /** In a sorted list, the neighbouring tags in different groups are the adjacent tags of the set. */
  lemma ConsecutiveIsAdjacent(tags: seq<Tag>, k: nat)
    requires Sorted(tags) && 0 < k < |tags| && tags[k-1] != tags[k]
    ensures Adjacent(Elements(tags), tags[k-1], tags[k])
  {
    BeforeIsTotalOrder();
    forall u | u in Elements(tags) ensures !(Before(tags[k-1], u) && Before(u, tags[k])) {
      var m :| 0 <= m < |tags| && tags[m] == u;
      assert m < k - 1 ==> NotAfter(u, tags[k-1]);
      assert k < m ==> NotAfter(tags[k], u);
    }
  }

  lemma AdjacentIsConsecutive(tags: seq<Tag>, s: Tag, t: Tag) returns (k: nat)
    requires Sorted(tags) && Adjacent(Elements(tags), s, t)
    ensures 0 < k < |tags| && tags[k-1] == s && tags[k] == t
  {
    BeforeIsTotalOrder();
    var i :| 0 <= i < |tags| && tags[i] == s;
    var j :| 0 <= j < |tags| && tags[j] == t;
    while i + 1 < j && tags[i+1] == s
      invariant i < |tags| && tags[i] == s
    {
      i := i + 1;
    }
    assert i < j;
    k := i + 1;
    assert tags[k] in Elements(tags);
  }

  function Reversed(tags: seq<Tag>): (r: seq<Tag>)
    ensures |r| == |tags| && forall i :: 0 <= i < |tags| ==> r[i] == tags[|tags| - 1 - i]
    ensures forall t :: t in r <==> t in tags
  {
    var r := seq(|tags|, i requires 0 <= i < |tags| => tags[|tags| - 1 - i]);
    assert forall i :: 0 <= i < |tags| ==> tags[i] == r[|tags| - 1 - i];
    r
  }

  /** The pass for "+" over the sorted list adds exactly the lower stops of the set of tags. */
  lemma PlusPassAddsStops(tags: seq<Tag>, l: nat, aux: seq<Tag>)
    requires l > 0 && Sorted(tags) && Uniform(Elements(tags), l)
    requires forall x :: x in aux <==> exists k :: StopPair(tags, k, true) && x == AuxTag(tags[k], l)
    ensures Elements(aux) == PlusStops(Elements(tags), l)
  {
    var P := Elements(tags);
    forall x ensures x in aux <==> x in PlusStops(P, l) {
      if x in aux {
        var k :| StopPair(tags, k, true) && x == AuxTag(tags[k], l);
        ConsecutiveIsAdjacent(tags, k);
        assert NeedsStop(P, tags[k-1], tags[k], true);
      }
      if x in PlusStops(P, l) {
        var s, t :| s in P && t in P && NeedsStop(P, s, t, true) && x == AuxTag(t, l);
        var k := AdjacentIsConsecutive(tags, s, t);
        assert StopPair(tags, k, true);
      }
    }
  }

  /** A consecutive pair of the reversed list is an adjacent pair of the set. */
  lemma PairOfReversed(tags: seq<Tag>, k: nat)
    requires Sorted(tags) && StopPair(Reversed(tags), k, false)
    ensures NeedsStop(Elements(tags), Reversed(tags)[k], Reversed(tags)[k-1], false)
  {
    ReversedPair(tags, |tags| - k);
    ConsecutiveIsAdjacent(tags, |tags| - k);
  }

  lemma PairIsReversed(tags: seq<Tag>, s: Tag, t: Tag) returns (k: nat)
    requires Sorted(tags) && NeedsStop(Elements(tags), s, t, false)
    ensures StopPair(Reversed(tags), k, false) && Reversed(tags)[k] == s
  {
    var i := AdjacentIsConsecutive(tags, s, t);
    ReversedPair(tags, i);
    k := |tags| - i;
  }

  /** The pass for "-" over the reversed list adds exactly the upper stops. */
  lemma MinusPassAddsStops(tags: seq<Tag>, l: nat, aux: seq<Tag>)
    requires l > 0 && Sorted(tags) && Uniform(Elements(tags), l)
    requires forall x :: x in aux <==>
                         exists k :: StopPair(Reversed(tags), k, false) && x == AuxTag(Reversed(tags)[k], l)
    ensures Elements(aux) == MinusStops(Elements(tags), l)
  {
    var P, r := Elements(tags), Reversed(tags);
    forall x | x in aux ensures x in MinusStops(P, l) {
      var k :| StopPair(r, k, false) && x == AuxTag(r[k], l);
      PairOfReversed(tags, k);
    }
    forall x | x in MinusStops(P, l) ensures x in aux {
      var s, t :| s in P && t in P && NeedsStop(P, s, t, false) && x == AuxTag(s, l);
      var k := PairIsReversed(tags, s, t);
      assert x == AuxTag(r[k], l);
    }
  }

  lemma ReversedPair(tags: seq<Tag>, k: nat)
    requires 0 < k < |tags|
    ensures Reversed(tags)[|tags|-k-1] == tags[k] && Reversed(tags)[|tags|-k] == tags[k-1]
  {
  }

  lemma ElementsOfJoin(a: seq<Tag>, b: seq<Tag>, c: seq<Tag>)
    ensures Elements(SortTags(a + Reversed(b) + c)) == Elements(a) + Elements(b) + Elements(c)
  {
    SortedTags(a + Reversed(b) + c);
  }

  /** Sort, run both passes over the sorted tags, and sort the tags together with what the passes add. */
  method AddStops(tags: seq<Tag>, l: nat) returns (all: seq<Tag>)
    requires l > 0 && Uniform(Elements(tags), l)
    ensures Sorted(all) && Elements(all) == Elements(tags) + Stops(Elements(tags), l)
  {
    var sorted := SortTags(tags);
    SortedTags(tags);
    assert Elements(sorted) == Elements(tags);
    assert forall t :: t in sorted ==> t in Elements(tags);
    var tags1 := AddAuxTags(Reversed(sorted), false, l);
    var tags2 := AddAuxTags(sorted, true, l);
    MinusPassAddsStops(sorted, l, tags1);
    PlusPassAddsStops(sorted, l, tags2);
    all := SortTags(sorted + Reversed(tags1) + tags2);
    SortedTags(sorted + Reversed(tags1) + tags2);
    ElementsOfJoin(sorted, tags1, tags2);
  }

  /** Evaluation of tags already padded to the length of the version. */
  method EvalPadded(tags: seq<Tag>, v: Version) returns (accepted: bool)
    requires |v| > 0 && Uniform(Elements(tags), |v|)
    ensures accepted <==> Accepted(Elements(tags), v)
  {
    var all := AddStops(tags, |v|);
    var lo, hi := SearchClosestTags(all, v);
    accepted := (lo.Some? ==> Satisfied(lo.value, v)) && (hi.Some? ==> Satisfied(hi.value, v));
  }

  method TestVersionTagEval(verTags: seq<Tag>, version: Version) returns (r: Outcome)
    requires |version| > 0
    ensures r == Evaluation(verTags, version)
  {
    var l := |version|;
    if verTags == [] {
      return Verdict(true);
    }
    for i := 0 to |verTags|
      invariant forall k :: 0 <= k < i ==> verTags[k].ver != []
    {
      if verTags[i].ver == [] {
        assert verTags[i] in verTags;
        if verTags[i].op.Inclusive() || |verTags| != 1 {
          return AssertionFailed;
        }
        return Verdict(verTags[i].op.Gt?);
      }
    }
    for i := 0 to |verTags|
      invariant forall k :: 0 <= k < i ==> |verTags[k].ver| <= l
    {
      if |verTags[i].ver| > l {
        assert verTags[i] in verTags;
        return TagTooLong;
      }
    }
    var tags := [];
    for i := 0 to |verTags|
      invariant |tags| == i && forall k :: 0 <= k < i ==> tags[k] == Padded(verTags[k], l)
    {
      var t := FillVer(verTags[i], l);
      tags := tags + [t];
    }
    assert Elements(tags) == PaddedSet(verTags, l) by {
      forall t | t in PaddedSet(verTags, l) ensures t in tags {
        var k :| 0 <= k < |verTags| && Padded(verTags[k], l) == t;
        assert tags[k] == t;
      }
    }
    var accepted := EvalPadded(tags, version);
    r := Verdict(accepted);
  }
}
