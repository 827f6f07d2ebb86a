/** Filtering a list: what is kept, by position. */
module Selection {

  /** What f makes of the elements with the property, in order. */
  function Select<S, T>(p: S -> bool, f: S -> T, s: seq<S>): seq<T> {
    if s == [] then [] else (if p(s[0]) then [f(s[0])] else []) + Select(p, f, s[1..])
  }

  ghost predicate Ascending(idx: seq<nat>) {
    forall k, l :: 0 <= k < l < |idx| ==> idx[k] < idx[l]
  }

  /** idx are the positions of the elements with the property, in ascending order, and r is what f makes of those elements. */
  ghost predicate Selects<S, T>(p: S -> bool, f: S -> T, s: seq<S>, idx: seq<nat>, r: seq<T>) {
    SelectsFrom(p, f, s, 0, idx, r)
  }

  /** The same for the elements from position n on. */
  ghost predicate SelectsFrom<S, T>(p: S -> bool, f: S -> T, s: seq<S>, n: nat, idx: seq<nat>, r: seq<T>) {
    && |r| == |idx|
    && (forall k :: 0 <= k < |idx| ==> idx[k] < |s| && r[k] == f(s[idx[k]]))
    && Ascending(idx)
    && (forall i: nat :: i in idx <==> n <= i < |s| && p(s[i]))
  }

  lemma Before(n: nat, rest: seq<nat>)
    requires Ascending(rest) && forall i :: i in rest ==> n < i
    ensures Ascending([n] + rest) && forall i: nat :: i in [n] + rest <==> i == n || i in rest
  {
    assert forall k :: 0 <= k < |rest| ==> rest[k] in rest;
  }

  lemma SelectsCons<S, T>(p: S -> bool, f: S -> T, s: seq<S>, n: nat, rest: seq<nat>, r: seq<T>)
    requires n < |s| && p(s[n]) && SelectsFrom(p, f, s, n + 1, rest, r)
    ensures SelectsFrom(p, f, s, n, [n] + rest, [f(s[n])] + r)
  {
    Before(n, rest);
    assert forall i: nat :: n <= i < |s| && p(s[i]) <==> i == n || (n + 1 <= i < |s| && p(s[i]));
  }

  lemma SelectsSkip<S, T>(p: S -> bool, f: S -> T, s: seq<S>, n: nat, rest: seq<nat>, r: seq<T>)
    requires n < |s| && !p(s[n]) && SelectsFrom(p, f, s, n + 1, rest, r)
    ensures SelectsFrom(p, f, s, n, rest, r)
  {
  }

  lemma SelectStep<S, T>(p: S -> bool, f: S -> T, s: seq<S>, n: nat)
    requires n < |s|
    ensures Select(p, f, s[n..]) == if p(s[n]) then [f(s[n])] + Select(p, f, s[n+1..]) else Select(p, f, s[n+1..])
  {
    assert s[n..][1..] == s[n+1..];
  }

  lemma {:induction false} SelectFrom<S, T>(p: S -> bool, f: S -> T, s: seq<S>, n: nat) returns (idx: seq<nat>)
    requires n <= |s|
    ensures SelectsFrom(p, f, s, n, idx, Select(p, f, s[n..]))
    decreases |s| - n
  {
    if n == |s| {
      idx := [];
    } else {
      idx := SelectFrom(p, f, s, n + 1);
      SelectStep(p, f, s, n);
      if p(s[n]) {
        SelectsCons(p, f, s, n, idx, Select(p, f, s[n+1..]));
        idx := [n] + idx;
      } else {
        SelectsSkip(p, f, s, n, idx, Select(p, f, s[n+1..]));
      }
    }
  }

  lemma SelectSelects<S, T>(p: S -> bool, f: S -> T, s: seq<S>) returns (idx: seq<nat>)
    ensures Selects(p, f, s, idx, Select(p, f, s))
  {
    idx := SelectFrom(p, f, s, 0);
    assert s[0..] == s;
  }
}
