/**
 * Verdicts read off the tags as they are written: comparing as many components of the version as
 * the tag has, without padding, branches or stops.
 */
module VersionWritten {
  import opened VersionOrder
  import opened VersionTags
  import opened VersionLaws
  import opened VersionClosedForm
  import opened VersionOneSign

  // ----- What evaluation refuses -----

  /** Evaluation fails for a bare tag beside others or with "=", and else for a tag longer than the version. */
  lemma Refusals(tags: seq<Tag>, v: Version)
    requires |v| > 0
    ensures Evaluation(tags, v) == AssertionFailed <==>
            exists t :: t in tags && t.ver == [] && (|tags| > 1 || t.op.Le? || t.op.Ge?)
    ensures Evaluation(tags, v) == TagTooLong <==>
            (forall t :: t in tags ==> t.ver != []) && exists t :: t in tags && |t.ver| > |v|
    ensures tags == [] ==> Evaluation(tags, v) == Verdict(true)
  {
    if t :| t in tags && t.ver == [] {
      if |tags| == 1 { assert tags[0] == t; }
    }
  }

  /** A lone bare "+" always accepts, and a lone bare "-" never. */
  lemma BareTag(op: Op, v: Version)
    requires |v| > 0
    ensures Evaluation([Tag(op, [])], v) == match op
                                            case Gt => Verdict(true)
                                            case Lt => Verdict(false)
                                            case Ge => AssertionFailed
                                            case Le => AssertionFailed
  {
    assert Tag(op, []) in [Tag(op, [])];
  }

  // ----- One tag -----

  /** Comparing a version with a filled-up one compares the written components first. */
  lemma FilledCompares(w: Version, fill: Version, v: Version)
    requires |w| + |fill| == |v|
    ensures var p, rest := v[..|w|], v[|w|..];
            && (Less(v, w + fill) <==> Less(p, w) || (p == w && Less(rest, fill)))
            && (Less(w + fill, v) <==> Less(w, p) || (p == w && Less(fill, rest)))
            && (v == w + fill <==> p == w && rest == fill)
  {
    var p, rest := v[..|w|], v[|w|..];
    assert v == p + rest;
    LessByPrefix(p, rest, w, fill);
    LessByPrefix(w, fill, p, rest);
    assert (w + fill)[..|w|] == w && (w + fill)[|w|..] == fill;
  }

  lemma PaddedIs(t: Tag, l: nat)
    requires |t.ver| <= l
    ensures Padded(t, l) == Tag(t.op, t.ver + Repeat(if t.op.Gt? || t.op.Le? then SENTINEL else 0, l - |t.ver|))
  {
  }

  lemma ZerosAreFirst(rest: Version)
    ensures !Less(rest, Repeat(0, |rest|)) && AtMost(Repeat(0, |rest|), rest)
    ensures rest == Repeat(0, |rest|) <==> AllZero(rest)
  {
    ZerosAreLeast(rest);
    Trichotomy(rest, Repeat(0, |rest|));
  }

  lemma ZerosCompare(w: Version, v: Version, zeros: Version)
    requires |w| <= |v| && zeros == Repeat(0, |v| - |w|)
    ensures Less(v, w + zeros) <==> Less(v[..|w|], w)
    ensures Less(w + zeros, v) || v == w + zeros <==> AtMost(w, v[..|w|])
    ensures v == w + zeros <==> v[..|w|] == w && AllZero(v[|w|..])
  {
    FilledCompares(w, zeros, v);
    ZerosAreFirst(v[|w|..]);
  }

  /** A tag filled with zeros is at most the version exactly if what is written is. */
  lemma ZeroFilled(t: Tag, v: Version)
    requires |t.ver| <= |v| && (t.op.Lt? || t.op.Ge?)
    ensures Less(v, Padded(t, |v|).ver) <==> Less(v[..|t.ver|], t.ver)
    ensures AtMost(Padded(t, |v|).ver, v) <==> AtMost(t.ver, v[..|t.ver|])
    ensures v == Padded(t, |v|).ver <==> v[..|t.ver|] == t.ver && AllZero(v[|t.ver|..])
  {
    var zeros := Repeat(0, |v| - |t.ver|);
    ZerosCompare(t.ver, v, zeros);
    assert Padded(t, |v|).ver == t.ver + zeros by { PaddedIs(t, |v|); }
  }

  lemma NinesCompare(w: Version, v: Version, nines: Version)
    requires |w| <= |v| && nines == Repeat(SENTINEL, |v| - |w|)
    ensures var p, past := v[..|w|], Less(nines, v[|w|..]);
            && (AtMost(v, w + nines) <==> Less(p, w) || (p == w && !past))
            && (Less(w + nines, v) <==> Less(w, p) || (p == w && past))
  {
    FilledCompares(w, nines, v);
    Trichotomy(v[|w|..], nines);
  }

  /** A tag filled with the sentinel compares as what is written does, but for components past the sentinel. */
  lemma SentinelFilled(t: Tag, v: Version)
    requires |t.ver| <= |v| && (t.op.Gt? || t.op.Le?)
    ensures var p, rest := v[..|t.ver|], v[|t.ver|..];
            var past := Less(Repeat(SENTINEL, |rest|), rest);
            && (AtMost(v, Padded(t, |v|).ver) <==> Less(p, t.ver) || (p == t.ver && !past))
            && (Less(Padded(t, |v|).ver, v) <==> Less(t.ver, p) || (p == t.ver && past))
  {
    var nines := Repeat(SENTINEL, |v| - |t.ver|);
    NinesCompare(t.ver, v, nines);
    assert Padded(t, |v|).ver == t.ver + nines by { PaddedIs(t, |v|); }
  }

  /** With one padded tag there are no stops, and it decides alone. */
  lemma Alone(t: Tag, v: Version)
    requires |t.ver| == |v| > 0
    ensures Uniform({t}, |v|) && (Accepted({t}, v) <==> Satisfied(t, v))
  {
    BeforeTrichotomy(t, t);
    assert Stops({t}, |v|) == {} && {t} + {} == {t};
    Trichotomy(t.ver, v);
    assert AtMost(t.ver, v) ==> IsLow({t}, v, t);
    assert AtMost(v, t.ver) ==> IsHigh({t}, v, t);
  }

  lemma OnlyTag(t: Tag, v: Version)
    requires 0 < |t.ver| <= |v|
    ensures Evaluation([t], v) == Verdict(Satisfied(Padded(t, |v|), v))
  {
    assert t in [t];
    assert PaddedSet([t], |v|) == {Padded(t, |v|)};
    Alone(Padded(t, |v|), v);
  }

  /**
   * One tag of any length, with as many components of the version as it has: "-" accepts what is
   * before, "+=" what is not before, "-=" what is not after and "+" what is after. On the written
   * version itself "-=" rejects, and "+" accepts, only what has its further components past the sentinel.
   */
  lemma OneTag(t: Tag, v: Version)
    requires 0 < |t.ver| <= |v|
    ensures var p, rest := v[..|t.ver|], v[|t.ver|..];
            var past := Less(Repeat(9999, |rest|), rest);
            Evaluation([t], v) == Verdict(match t.op
                                          case Lt => Less(p, t.ver)
                                          case Ge => AtMost(t.ver, p)
                                          case Le => Less(p, t.ver) || (p == t.ver && !past)
                                          case Gt => Less(t.ver, p) || (p == t.ver && past))
  {
    OnlyTag(t, v);
    if t.op.Lt? || t.op.Ge? { ZeroFilled(t, v); } else { SentinelFilled(t, v); }
  }

  /** So each operator compares just the written components, unless those after them exceed the sentinel. */
  lemma OneOrdinaryTag(t: Tag, v: Version)
    requires 0 < |t.ver| <= |v| && forall i :: |t.ver| <= i < |v| ==> v[i] <= 9999
    ensures var p := v[..|t.ver|];
            Evaluation([t], v) == Verdict(match t.op
                                          case Lt => Less(p, t.ver)
                                          case Le => AtMost(p, t.ver)
                                          case Ge => AtMost(t.ver, p)
                                          case Gt => Less(t.ver, p))
  {
    OneTag(t, v);
    var rest := v[|t.ver|..];
    SentinelsAreGreatest(rest);
    Trichotomy(rest, Repeat(SENTINEL, |rest|));
  }

  // ----- Lists of one sign, on three components or more -----

  /** The version is the release that the "+=" tag names: what is written, and zeros. */
  predicate NamesFirst(t: Tag, v: Version) {
    |t.ver| <= |v| && v[..|t.ver|] == t.ver && forall i :: |t.ver| <= i < |v| ==> v[i] == 0
  }

  /** The tag is of the branch of the version: the first two components agree, where a missing one counts as `fill`. */
  predicate OfBranch(t: Tag, v: Version, fill: nat)
    requires |v| >= 2 && t.ver != []
  {
    t.ver[0] == v[0] && (if |t.ver| > 1 then t.ver[1] else fill) == v[1]
  }

  lemma BranchAsWritten(t: Tag, v: Version)
    requires |v| > 2 && 0 < |t.ver| <= |v|
    ensures Branch(Padded(t, |v|).ver) == Branch(v) <==> OfBranch(t, v, if t.op.Gt? || t.op.Le? then SENTINEL else 0)
  {
    var w := Padded(t, |v|).ver;
    assert Branch(w) == [w[0], w[1]] && Branch(v) == [v[0], v[1]];
  }

  lemma NamedIsPadded(t: Tag, v: Version)
    requires |t.ver| <= |v| && t.op.Ge?
    ensures NamesFirst(t, v) <==> Padded(t, |v|).ver == v
  {
    ZeroFilled(t, v);
    assert forall i :: |t.ver| <= i < |v| ==> v[i] == v[|t.ver|..][i-|t.ver|];
  }

  /**
   * "+=" tags in any order and of any lengths, on three components or more: the version is one they
   * name, or not before one of them and not before any of its own first two components.
   */
  lemma PlusList(tags: seq<Tag>, v: Version)
    requires tags != [] && |v| > 2 && forall t :: t in tags ==> t.op.Ge? && 0 < |t.ver| <= |v|
    ensures Evaluation(tags, v) == Verdict(
              || (exists t :: t in tags && NamesFirst(t, v))
              || ((exists t :: t in tags && AtMost(t.ver, v[..|t.ver|]))
                  && forall t :: t in tags && OfBranch(t, v, 0) ==> AtMost(t.ver, v[..|t.ver|])))
  {
    var P := PaddedSet(tags, |v|);
    PlusTagsAsWritten(tags, v);
    forall t | t in tags
      ensures Padded(t, |v|) in P && (NamesFirst(t, v) <==> Padded(t, |v|).ver == v)
      ensures AtMost(Padded(t, |v|).ver, v) <==> AtMost(t.ver, v[..|t.ver|])
      ensures Branch(Padded(t, |v|).ver) == Branch(v) <==> OfBranch(t, v, 0)
    {
      ZeroFilled(t, v);
      NamedIsPadded(t, v);
      BranchAsWritten(t, v);
    }
    assert forall u :: u in P ==> exists t :: t in tags && u == Padded(t, |v|);
    assert !Misplaced(P, v);
  }

  /**
   * "-=" tags, on three components or more, all below the sentinel: the version is one they name in
   * full, or not after one of them and not after any of its own first two components.
   */
  lemma MinusList(tags: seq<Tag>, v: Version)
    requires tags != [] && |v| > 2 && forall t :: t in tags ==> t.op.Le? && 0 < |t.ver| <= |v|
    requires (forall t, i :: t in tags && 0 <= i < |t.ver| ==> t.ver[i] <= 9999) && forall i :: 0 <= i < |v| ==> v[i] < 9999
    ensures Evaluation(tags, v) == Verdict(
              || (exists t :: t in tags && t.ver == v)
              || ((exists t :: t in tags && AtMost(v[..|t.ver|], t.ver))
                  && forall t :: t in tags && OfBranch(t, v, 9999) ==> AtMost(v[..|t.ver|], t.ver)))
  {
    var P := PaddedSet(tags, |v|);
    MinusTagsAsWritten(tags, v);
    forall t | t in tags
      ensures Padded(t, |v|) in P && (t.ver == v <==> Padded(t, |v|).ver == v)
      ensures AtMost(v, Padded(t, |v|).ver) <==> AtMost(v[..|t.ver|], t.ver)
      ensures Branch(Padded(t, |v|).ver) == Branch(v) <==> OfBranch(t, v, 9999)
    {
      MinusAsWritten(t, v);
      BranchAsWritten(t, v);
    }
    assert forall u :: u in P ==> exists t :: t in tags && u == Padded(t, |v|);
    assert !EndStop(P, v) && !StopAboveAll(P, v);
  }

  lemma MinusAsWritten(t: Tag, v: Version)
    requires |t.ver| <= |v| && t.op.Le? && forall i :: 0 <= i < |v| ==> v[i] < SENTINEL
    ensures t.ver == v <==> Padded(t, |v|).ver == v
    ensures AtMost(v, Padded(t, |v|).ver) <==> AtMost(v[..|t.ver|], t.ver)
  {
    SentinelFilled(t, v);
    var rest := v[|t.ver|..];
    SentinelsAreGreatest(rest);
    Trichotomy(rest, Repeat(SENTINEL, |rest|));
    if |t.ver| < |v| { assert Padded(t, |v|).ver[|t.ver|] == SENTINEL; }
  }
}
