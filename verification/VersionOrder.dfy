/** Version numbers as lists of components, under the lexicographic order of Python lists. */
module VersionOrder {
  type Version = seq<nat>

  /** The component that stands for "any later release". */
  const SENTINEL: nat := 9999

  predicate Less(a: Version, b: Version) {
    if b == [] then false
    else if a == [] then true
    else a[0] < b[0] || (a[0] == b[0] && Less(a[1..], b[1..]))
  }

  predicate AtMost(a: Version, b: Version) {
    a == b || Less(a, b)
  }

  function Repeat(x: nat, n: nat): (r: Version)
    ensures |r| == n && forall i :: 0 <= i < n ==> r[i] == x
  {
    seq(n, _ => x)
  }

  lemma {:induction false} Trichotomy(a: Version, b: Version)
    ensures Less(a, b) ==> a != b && !Less(b, a)
    ensures a == b || Less(a, b) || Less(b, a)
  {
    if a != [] && b != [] {
      Trichotomy(a[1..], b[1..]);
      assert a == [a[0]] + a[1..] && b == [b[0]] + b[1..];
    }
  }

  lemma {:induction false} Transitive(a: Version, b: Version, c: Version)
    requires Less(a, b) && Less(b, c)
    ensures Less(a, c)
  {
    if a != [] && a[0] == b[0] == c[0] {
      Transitive(a[1..], b[1..], c[1..]);
    }
  }

  lemma AtMostTransitive(a: Version, b: Version, c: Version)
    requires AtMost(a, b) && AtMost(b, c)
    ensures AtMost(a, c)
  {
    if a != b && b != c { Transitive(a, b, c); }
  }

  /** The order laws in quantified form, for proofs that compare several versions. */
  lemma TotalOrder()
    ensures forall a: Version, b: Version {:trigger Less(a, b)} :: Less(a, b) ==> a != b && !Less(b, a)
    ensures forall a: Version, b: Version {:trigger Less(a, b)} :: a == b || Less(a, b) || Less(b, a)
    ensures forall a: Version, b: Version, c: Version {:trigger Less(a, b), Less(b, c)} ::
              Less(a, b) && Less(b, c) ==> Less(a, c)
  {
    forall a: Version, b: Version
      ensures Less(a, b) ==> a != b && !Less(b, a)
      ensures a == b || Less(a, b) || Less(b, a)
    {
      Trichotomy(a, b);
    }
    forall a: Version, b: Version, c: Version | Less(a, b) && Less(b, c)
      ensures Less(a, c)
    {
      Transitive(a, b, c);
    }
  }

  /** Comparing two versions compares leading parts of the same length first. */
  lemma {:induction false} LessByPrefix(p: Version, x: Version, q: Version, y: Version)
    requires |p| == |q|
    ensures Less(p + x, q + y) <==> Less(p, q) || (p == q && Less(x, y))
  {
    if p == [] {
      assert p + x == x && q + y == y;
    } else {
      LessByPrefix(p[1..], x, q[1..], y);
      assert (p + x)[1..] == p[1..] + x && (q + y)[1..] == q[1..] + y;
      assert p == [p[0]] + p[1..] && q == [q[0]] + q[1..];
    }
  }

  lemma {:induction false} ZerosAreLeast(a: Version)
    ensures AtMost(Repeat(0, |a|), a)
  {
    if a != [] {
      ZerosAreLeast(a[1..]);
      assert Repeat(0, |a|)[1..] == Repeat(0, |a| - 1);
      assert Repeat(0, |a|) == [0] + Repeat(0, |a| - 1) && a == [a[0]] + a[1..];
    }
  }

  lemma {:induction false} SentinelsAreGreatest(a: Version)
    requires forall i :: 0 <= i < |a| ==> a[i] <= SENTINEL
    ensures AtMost(a, Repeat(SENTINEL, |a|))
  {
    if a != [] {
      SentinelsAreGreatest(a[1..]);
      assert Repeat(SENTINEL, |a|)[1..] == Repeat(SENTINEL, |a| - 1);
      assert Repeat(SENTINEL, |a|) == [SENTINEL] + Repeat(SENTINEL, |a| - 1) && a == [a[0]] + a[1..];
    }
  }
}
