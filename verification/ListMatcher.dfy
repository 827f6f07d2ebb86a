/**
 * Comparison of a list of strings with a list of expected entries, some optional. Which entry
 * matches which string is an arbitrary relation; the subject is the backtracking search for
 * distinct (or increasing) indexes.
 */
module ListMatcher {
  import opened Wrappers

  datatype MatchResult = Matched | NotFound(entry: nat) | Unexpected(index: nat) | NoAssignment

  /** A choice for each entry: an index of one of its candidates, or nothing if it is optional. */
  ghost predicate ValidPicks(lst: seq<seq<nat>>, required: seq<bool>, seen: set<nat>, ordered: bool, picks: seq<Option<nat>>) {
    && |picks| == |lst| <= |required|
    && (forall k :: 0 <= k < |picks| && picks[k].None? ==> !required[k])
    && (forall k :: 0 <= k < |picks| && picks[k].Some? ==> Fits(lst[k], seen, ordered, picks[k].value))
    && (forall j, k :: 0 <= j < k < |picks| && picks[j].Some? && picks[k].Some? ==>
          if ordered then picks[j].value < picks[k].value else picks[j].value != picks[k].value)
  }

  /** A candidate that is not taken and, if order matters, lies after all that are. */
  ghost predicate Fits(candidates: seq<nat>, seen: set<nat>, ordered: bool, i: nat) {
    i in candidates && i !in seen && (ordered ==> forall s :: s in seen ==> s < i)
  }

  ghost predicate Assignable(lst: seq<seq<nat>>, required: seq<bool>, seen: set<nat>, ordered: bool) {
    exists picks :: ValidPicks(lst, required, seen, ordered, picks)
  }

  // ----- The search -----

  lemma NoEntries(required: seq<bool>, seen: set<nat>, ordered: bool)
    ensures Assignable([], required, seen, ordered)
  {
    assert ValidPicks([], required, seen, ordered, []);
  }

  lemma SkipEntry(lst: seq<seq<nat>>, required: seq<bool>, seen: set<nat>, ordered: bool)
    requires 0 < |lst| <= |required| && !required[0] && Assignable(lst[1..], required[1..], seen, ordered)
    ensures Assignable(lst, required, seen, ordered)
  {
    var rest: seq<Option<nat>> :| ValidPicks(lst[1..], required[1..], seen, ordered, rest);
    assert ValidPicks(lst, required, seen, ordered, [None] + rest);
  }

  lemma TakeEntry(lst: seq<seq<nat>>, required: seq<bool>, seen: set<nat>, ordered: bool, i: nat)
    requires 0 < |lst| <= |required| && Fits(lst[0], seen, ordered, i)
    requires Assignable(lst[1..], required[1..], seen + {i}, ordered)
    ensures Assignable(lst, required, seen, ordered)
  {
    var rest: seq<Option<nat>> :| ValidPicks(lst[1..], required[1..], seen + {i}, ordered, rest);
    assert ValidPicks(lst, required, seen, ordered, [Some(i)] + rest);
  }

  /** Any assignment starts by skipping an optional entry or by taking a fitting candidate. */
  lemma FirstStep(lst: seq<seq<nat>>, required: seq<bool>, seen: set<nat>, ordered: bool)
    requires 0 < |lst| <= |required| && Assignable(lst, required, seen, ordered)
    ensures (!required[0] && Assignable(lst[1..], required[1..], seen, ordered))
            || exists i :: Fits(lst[0], seen, ordered, i) && Assignable(lst[1..], required[1..], seen + {i}, ordered)
  {
    var picks: seq<Option<nat>> :| ValidPicks(lst, required, seen, ordered, picks);
    var rest := picks[1..];
    if picks[0].None? {
      assert ValidPicks(lst[1..], required[1..], seen, ordered, rest);
    } else {
      var i := picks[0].value;
      forall k | 0 <= k < |rest| && rest[k].Some? ensures Fits(lst[1..][k], seen + {i}, ordered, rest[k].value) {
        assert rest[k] == picks[k+1];
      }
      assert ValidPicks(lst[1..], required[1..], seen + {i}, ordered, rest);
      assert Fits(lst[0], seen, ordered, i);
    }
  }

  /** The search: it marks indexes as seen while it tries them, and leaves the marks as it found them. */
  class Search {
    const lst: seq<seq<nat>>
    const required: seq<bool>
    const ignoreOrder: bool
    var seen: set<nat>

    constructor (lst: seq<seq<nat>>, required: seq<bool>, ignoreOrder: bool)
      ensures this.lst == lst && this.required == required && this.ignoreOrder == ignoreOrder && seen == {}
    {
      this.lst, this.required, this.ignoreOrder, this.seen := lst, required, ignoreOrder, {};
    }

    method HasUniquePermutation(base: nat) returns (good: bool)
      requires base <= |lst| <= |required|
      modifies this`seen
      ensures seen == old(seen)
      ensures good <==> Assignable(lst[base..], required[base..], seen, !ignoreOrder)
      decreases |lst| - base
    {
      if base >= |lst| {
        NoEntries(required[base..], seen, !ignoreOrder);
        return true;
      }
      ghost var l, r := lst[base..], required[base..];
      assert l[1..] == lst[base+1..] && r[1..] == required[base+1..];
      if !required[base] {
        good := HasUniquePermutation(base + 1);
        if good {
          SkipEntry(l, r, seen, !ignoreOrder);
          return;
        }
      }
      for k := 0 to |lst[base]|
        invariant seen == old(seen)
        invariant !required[base] ==> !Assignable(l[1..], r[1..], seen, !ignoreOrder)
        invariant forall j :: 0 <= j < k && Fits(l[0], seen, !ignoreOrder, lst[base][j]) ==>
                    !Assignable(l[1..], r[1..], seen + {lst[base][j]}, !ignoreOrder)
      {
        var i := lst[base][k];
        if i in seen {
          continue;
        }
        if !ignoreOrder && exists s :: s in seen && i < s {
          continue;
        }
        assert Fits(l[0], seen, !ignoreOrder, i);
        seen := seen + {i};
        good := HasUniquePermutation(base + 1);
        seen := seen - {i};
        assert seen == old(seen);
        if good {
          TakeEntry(l, r, seen, !ignoreOrder, i);
          return;
        }
      }
      good := false;
      if Assignable(l, r, seen, !ignoreOrder) {
        FirstStep(l, r, seen, !ignoreOrder);
      }
    }
  }

  // ----- The comparison -----

  /** The strings that match entry i, in ascending order. */
  function Candidates(matches: (nat, nat) -> bool, i: nat, m: nat): (r: seq<nat>)
    ensures forall j: nat :: j in r <==> j < m && matches(i, j)
  {
    if m == 0 then [] else Candidates(matches, i, m - 1) + (if matches(i, m - 1) then [m - 1] else [])
  }

  function AllCandidates(matches: (nat, nat) -> bool, n: nat, m: nat): (r: seq<seq<nat>>)
    ensures |r| == n && forall i :: 0 <= i < n ==> r[i] == Candidates(matches, i, m)
  {
    seq(n, i requires 0 <= i < n => Candidates(matches, i, m))
  }

  /** The candidate lists that are not empty; the source drops the others. */
  function DropEmpty(lst: seq<seq<nat>>): (r: seq<seq<nat>>)
    ensures |r| <= |lst|
  {
    if lst == [] then [] else (if lst[0] == [] then [] else [lst[0]]) + DropEmpty(lst[1..])
  }

  /** A required entry that matches no string, the first such. */
  ghost predicate FirstMissing(required: seq<bool>, lists: seq<seq<nat>>, i: nat) {
    && i < |required| == |lists| && required[i] && lists[i] == []
    && forall k :: 0 <= k < i ==> !required[k] || lists[k] != []
  }

  /** A string that no entry matches, the first such. */
  ghost predicate FirstExtra(lists: seq<seq<nat>>, m: nat, j: nat) {
    j < m && !Covered(lists, j) && forall k: nat :: k < j ==> Covered(lists, k)
  }

  ghost predicate Covered(lists: seq<seq<nat>>, j: nat) {
    exists i :: 0 <= i < |lists| && j in lists[i]
  }

  /** What the comparison returns: the first missing entry, else the first extra string, else the result of the search. */
  ghost predicate Comparison(required: seq<bool>, lists: seq<seq<nat>>, m: nat, ignoreExtra: bool, ignoreOrder: bool,
                             r: MatchResult)
  {
    match r
    case NotFound(i) => FirstMissing(required, lists, i)
    case Unexpected(j) => !ignoreExtra && FirstExtra(lists, m, j) && (forall i :: !FirstMissing(required, lists, i))
    case NoAssignment => Searched(required, lists, m, ignoreExtra) && !Assignable(DropEmpty(lists), required, {}, !ignoreOrder)
    case Matched => Searched(required, lists, m, ignoreExtra) && Assignable(DropEmpty(lists), required, {}, !ignoreOrder)
  }

  /** Every required entry has a candidate, and extra strings are ignored or absent. */
  ghost predicate Searched(required: seq<bool>, lists: seq<seq<nat>>, m: nat, ignoreExtra: bool) {
    && |lists| == |required|
    && (forall i :: 0 <= i < |required| && required[i] ==> lists[i] != [])
    && (ignoreExtra || forall j: nat :: j < m ==> Covered(lists, j))
  }

  /** The candidates of one entry, with the strings it matches marked. */
  method MatchEntry(matches: (nat, nat) -> bool, i: nat, matched: seq<bool>) returns (idxes: seq<nat>, marked: seq<bool>)
    ensures idxes == Candidates(matches, i, |matched|)
    ensures |marked| == |matched| && forall k :: 0 <= k < |matched| ==> marked[k] == (matched[k] || k in idxes)
  {
    idxes, marked := [], matched;
    for j := 0 to |matched|
      invariant idxes == Candidates(matches, i, j)
      invariant |marked| == |matched| && forall k :: 0 <= k < |matched| ==> marked[k] == (matched[k] || k in idxes)
    {
      if matches(i, j) {
        marked := marked[j := true];
        idxes := idxes + [j];
      }
    }
  }

  method CompareStrvList(required: seq<bool>, m: nat, matches: (nat, nat) -> bool, ignoreExtra: bool, ignoreOrder: bool)
    returns (r: MatchResult)
    ensures Comparison(required, AllCandidates(matches, |required|, m), m, ignoreExtra, ignoreOrder, r)
  {
    ghost var all := AllCandidates(matches, |required|, m);
    var matched := seq(m, _ => false);
    var lists: seq<seq<nat>> := [];
    for i := 0 to |required|
      invariant lists == all[..i] && |matched| == m
      invariant forall j :: 0 <= j < m ==> matched[j] == Covered(lists, j)
      invariant forall k :: 0 <= k < i ==> !required[k] || all[k] != []
    {
      var idxes;
      idxes, matched := MatchEntry(matches, i, matched);
      if idxes == [] && required[i] {
        assert FirstMissing(required, all, i);
        return NotFound(i);
      }
      CoveredByMore(lists, idxes);
      lists := lists + [idxes];
    }
    assert lists == all;
    if !ignoreExtra {
      for j := 0 to m
        invariant forall k :: 0 <= k < j ==> matched[k]
      {
        if !matched[j] {
          assert FirstExtra(lists, m, j);
          return Unexpected(j);
        }
      }
    }
    var search := new Search(DropEmpty(lists), required, ignoreOrder);
    var has := search.HasUniquePermutation(0);
    assert search.lst[0..] == search.lst && required[0..] == required;
    r := if has then Matched else NoAssignment;
  }

  lemma CoveredByMore(lists: seq<seq<nat>>, idxes: seq<nat>)
    ensures forall j: nat :: Covered(lists + [idxes], j) <==> Covered(lists, j) || j in idxes
  {
    forall j: nat ensures Covered(lists + [idxes], j) <==> Covered(lists, j) || j in idxes {
      if Covered(lists, j) {
        var i :| 0 <= i < |lists| && j in lists[i];
        assert j in (lists + [idxes])[i];
      }
      assert (lists + [idxes])[|lists|] == idxes;
    }
  }

  /** The result is determined by the candidates. */
  lemma ComparisonIsFunctional(required: seq<bool>, lists: seq<seq<nat>>, m: nat, ignoreExtra: bool, ignoreOrder: bool,
                               r: MatchResult, q: MatchResult)
    requires Comparison(required, lists, m, ignoreExtra, ignoreOrder, r)
    requires Comparison(required, lists, m, ignoreExtra, ignoreOrder, q)
    ensures r == q
  {
    if r.Unexpected? && q.Unexpected? {
      assert !(r.index < q.index) && !(q.index < r.index);
    }
    if i: nat :| FirstMissing(required, lists, i) {
      assert r == NotFound(i) && q == NotFound(i);
    } else if j: nat :| FirstExtra(lists, m, j) {
      assert !Covered(lists, j);
    }
  }

  // ----- Optional entries that match nothing -----

  /** The flags of the entries whose candidate lists are kept. */
  function KeptFlags(required: seq<bool>, lists: seq<seq<nat>>): (r: seq<bool>)
    requires |required| == |lists|
    ensures |r| == |DropEmpty(lists)|
  {
    if lists == [] then [] else (if lists[0] == [] then [] else [required[0]]) + KeptFlags(required[1..], lists[1..])
  }

  function Count(flags: seq<bool>): nat {
    if flags == [] then 0 else (if flags[0] then 1 else 0) + Count(flags[1..])
  }

  ghost predicate OnlyOptionalEmpty(required: seq<bool>, lists: seq<seq<nat>>) {
    |required| == |lists| && forall i :: 0 <= i < |lists| && required[i] ==> lists[i] != []
  }

  /** Dropping an optional entry without candidates, together with its flag, changes nothing. */
  lemma {:induction false} DroppingWithFlags(required: seq<bool>, lists: seq<seq<nat>>, seen: set<nat>, ordered: bool)
    requires OnlyOptionalEmpty(required, lists)
    ensures Assignable(lists, required, seen, ordered) <==> Assignable(DropEmpty(lists), KeptFlags(required, lists), seen, ordered)
    decreases |lists|
  {
    if lists == [] {
      NoEntries(required, seen, ordered);
      NoEntries([], seen, ordered);
    } else {
      var kept, flags := DropEmpty(lists[1..]), KeptFlags(required[1..], lists[1..]);
      if lists[0] == [] {
        DroppingWithFlags(required[1..], lists[1..], seen, ordered);
        if Assignable(lists, required, seen, ordered) {
          FirstStep(lists, required, seen, ordered);
        } else if Assignable(lists[1..], required[1..], seen, ordered) {
          SkipEntry(lists, required, seen, ordered);
        }
        assert [] + kept == kept && [] + flags == flags;
      } else {
        var l, f := [lists[0]] + kept, [required[0]] + flags;
        assert l[1..] == kept && f[1..] == flags;
        DroppingWithFlags(required[1..], lists[1..], seen, ordered);
        forall i ensures Assignable(lists[1..], required[1..], seen + {i}, ordered) <==> Assignable(kept, flags, seen + {i}, ordered) {
          DroppingWithFlags(required[1..], lists[1..], seen + {i}, ordered);
        }
        SameSteps(lists, required, l, f, seen, ordered);
        SameSteps(l, f, lists, required, seen, ordered);
        assert DropEmpty(lists) == l && KeptFlags(required, lists) == f;
      }
    }
  }

  /** Two searches that agree on the first entry and on everything after it agree. */
  lemma SameSteps(a: seq<seq<nat>>, r: seq<bool>, b: seq<seq<nat>>, q: seq<bool>, seen: set<nat>, ordered: bool)
    requires 0 < |a| <= |r| && 0 < |b| <= |q| && a[0] == b[0] && r[0] == q[0]
    requires Assignable(a[1..], r[1..], seen, ordered) ==> Assignable(b[1..], q[1..], seen, ordered)
    requires forall i :: Assignable(a[1..], r[1..], seen + {i}, ordered) ==> Assignable(b[1..], q[1..], seen + {i}, ordered)
    ensures Assignable(a, r, seen, ordered) ==> Assignable(b, q, seen, ordered)
  {
    if Assignable(a, r, seen, ordered) {
      FirstStep(a, r, seen, ordered);
      if !r[0] && Assignable(a[1..], r[1..], seen, ordered) {
        SkipEntry(b, q, seen, ordered);
      } else {
        var i :| Fits(a[0], seen, ordered, i) && Assignable(a[1..], r[1..], seen + {i}, ordered);
        TakeEntry(b, q, seen, ordered, i);
      }
    }
  }

  lemma {:induction false} CountAppend(a: seq<bool>, b: seq<bool>)
    ensures Count(a + b) == Count(a) + Count(b)
  {
    if a == [] {
      assert a + b == b;
    } else {
      CountAppend(a[1..], b);
      assert (a + b)[1..] == a[1..] + b;
    }
  }

  lemma {:induction false} CountKept(required: seq<bool>, lists: seq<seq<nat>>)
    requires OnlyOptionalEmpty(required, lists)
    ensures Count(KeptFlags(required, lists)) == Count(required)
  {
    if lists != [] {
      CountKept(required[1..], lists[1..]);
      var flags := KeptFlags(required[1..], lists[1..]);
      assert [] + flags == flags && ([required[0]] + flags)[1..] == flags;
    }
  }

  lemma {:induction false} CountTrue(f: seq<bool>, i: nat)
    requires i < |f| && f[i]
    ensures Count(f) >= 1
  {
    if i > 0 { CountTrue(f[1..], i - 1); }
  }

  lemma {:induction false} CountTwo(f: seq<bool>, i: nat, j: nat)
    requires i < j < |f| && f[i] && f[j]
    ensures Count(f) >= 2
  {
    if i > 0 { CountTwo(f[1..], i - 1, j - 1); } else { CountTrue(f[1..], j - 1); }
  }

  /** More than one flag is set, so one is set elsewhere than at a. */
  lemma {:induction false} AnotherTrue(f: seq<bool>, a: int) returns (b: nat)
    requires Count(f) >= if 0 <= a < |f| && f[a] then 2 else 1
    ensures b < |f| && f[b] && b != a
  {
    if f[0] && a != 0 {
      b := 0;
    } else {
      b := AnotherTrue(f[1..], a - 1);
      b := b + 1;
    }
  }

  /** Flags that are no fewer than others and set only where those are set are the same flags. */
  lemma {:induction false} DominatedFlags(x: seq<bool>, y: seq<bool>)
    requires |x| == |y| && (forall i :: 0 <= i < |x| && y[i] ==> x[i]) && Count(x) <= Count(y)
    ensures x == y
  {
    if x != [] {
      CountLess(x[1..], y[1..]);
      DominatedFlags(x[1..], y[1..]);
      assert x == [x[0]] + x[1..] && y == [y[0]] + y[1..];
    }
  }

  lemma {:induction false} CountLess(x: seq<bool>, y: seq<bool>)
    requires |x| == |y| && forall i :: 0 <= i < |x| && y[i] ==> x[i]
    ensures Count(y) <= Count(x)
  {
    if x != [] { CountLess(x[1..], y[1..]); }
  }

  /** With at most one required entry any candidates will do. */
  lemma AtMostOneRequired(lst: seq<seq<nat>>, flags: seq<bool>, ordered: bool)
    requires |lst| <= |flags| && Count(flags[..|lst|]) <= 1 && forall k :: 0 <= k < |lst| ==> lst[k] != []
    ensures Assignable(lst, flags, {}, ordered)
  {
    var picks := seq(|lst|, k requires 0 <= k < |lst| => if flags[k] then Some(lst[k][0]) else None);
    forall j, k | 0 <= j < k < |picks| ensures picks[j].None? || picks[k].None? {
      if flags[j] && flags[k] { CountTwo(flags[..|lst|], j, k); }
    }
    assert ValidPicks(lst, flags, {}, ordered, picks);
  }

  /** Candidates that tell two sets of flags apart: entries a and b need the same string, all others have their own. */
  lemma TellApart(n: nat, flags: seq<bool>, used: seq<bool>, a: nat, b: nat, ordered: bool) returns (lst: seq<seq<nat>>)
    requires |flags| == n <= |used| && a < n && b < n && a != b && flags[a] && flags[b] && !used[a]
    ensures |lst| == n && (forall k :: 0 <= k < n ==> lst[k] != [])
    ensures Assignable(lst, used, {}, ordered) && !Assignable(lst, flags, {}, ordered)
  {
    lst := seq(n, k requires 0 <= k < n => [if k == a then b else k]);
    var picks := seq(n, k requires 0 <= k < n => if used[k] then Some(k) else None);
    assert ValidPicks(lst, used, {}, ordered, picks);
  }

  /**
   * The source looks up the flags of kept entries by their new positions. For given flags, and
   * given entries without candidates, its search is right whatever the candidates of the others
   * exactly when the flags still line up or at most one entry is required.
   */
  lemma FlagsLineUp(required: seq<bool>, lists: seq<seq<nat>>, ordered: bool)
    requires OnlyOptionalEmpty(required, lists)
    ensures var flags := KeptFlags(required, lists);
            (forall lst :: |lst| == |flags| && (forall k :: 0 <= k < |lst| ==> lst[k] != []) ==>
               (Assignable(lst, required, {}, ordered) <==> Assignable(lst, flags, {}, ordered)))
            <==> required[..|flags|] == flags || Count(flags) <= 1
  {
    var flags := KeptFlags(required, lists);
    var n, used := |flags|, required[..|flags|];
    CountKept(required, lists);
    CountAppend(used, required[n..]);
    assert used + required[n..] == required;
    if used == flags || Count(flags) <= 1 {
      forall lst: seq<seq<nat>> | |lst| == n && (forall k :: 0 <= k < |lst| ==> lst[k] != [])
        ensures Assignable(lst, required, {}, ordered) <==> Assignable(lst, flags, {}, ordered)
      {
        if used == flags {
          SameFlags(lst, required, flags, ordered);
          SameFlags(lst, flags, required, ordered);
        } else {
          assert flags[..n] == flags;
          AtMostOneRequired(lst, required, ordered);
          AtMostOneRequired(lst, flags, ordered);
        }
      }
    } else {
      if forall i :: 0 <= i < n && flags[i] ==> used[i] {
        DominatedFlags(used, flags);
      }
      var a :| 0 <= a < n && flags[a] && !used[a];
      var b := AnotherTrue(flags, a);
      var lst := TellApart(n, flags, required, a, b, ordered);
    }
  }

  lemma SameFlags(lst: seq<seq<nat>>, f: seq<bool>, g: seq<bool>, ordered: bool)
    requires |lst| <= |f| && |lst| <= |g| && f[..|lst|] == g[..|lst|]
    ensures Assignable(lst, f, {}, ordered) ==> Assignable(lst, g, {}, ordered)
  {
    assert forall k :: 0 <= k < |lst| ==> f[k] == f[..|lst|][k] == g[k];
    if Assignable(lst, f, {}, ordered) {
      var picks: seq<Option<nat>> :| ValidPicks(lst, f, {}, ordered, picks);
      assert ValidPicks(lst, g, {}, ordered, picks);
    }
  }

  /** When every entry has a candidate, the comparison succeeds exactly if the documented assignment exists. */
  lemma ComparisonMeaning(required: seq<bool>, lists: seq<seq<nat>>, m: nat, ignoreExtra: bool, ignoreOrder: bool, r: MatchResult)
    requires Comparison(required, lists, m, ignoreExtra, ignoreOrder, r) && |required| == |lists|
    requires OnlyOptionalEmpty(required, lists) ==>
               required[..|DropEmpty(lists)|] == KeptFlags(required, lists) || Count(KeptFlags(required, lists)) <= 1
    ensures r == Matched <==> Searched(required, lists, m, ignoreExtra) && Assignable(lists, required, {}, !ignoreOrder)
  {
    if OnlyOptionalEmpty(required, lists) {
      DroppingWithFlags(required, lists, {}, !ignoreOrder);
      FlagsLineUp(required, lists, !ignoreOrder);
      KeptAreNotEmpty(lists);
      assert Assignable(DropEmpty(lists), required, {}, !ignoreOrder)
        <==> Assignable(DropEmpty(lists), KeptFlags(required, lists), {}, !ignoreOrder);
    }
  }

  lemma {:induction false} KeptAreNotEmpty(lists: seq<seq<nat>>)
    ensures forall k :: 0 <= k < |DropEmpty(lists)| ==> DropEmpty(lists)[k] != []
  {
    if lists != [] { KeptAreNotEmpty(lists[1..]); }
  }

  /** One string "a" and the entries "?x", "a", "a": the last two both need it, and the source still reports a match. */
  lemma MisalignedFlags()
    ensures var required, lists := [false, true, true], [[], [0], [0]];
            && Comparison(required, lists, 1, true, true, Matched)
            && !Assignable(lists, required, {}, false)
  {
    var required: seq<bool>, lists: seq<seq<nat>> := [false, true, true], [[], [0], [0]];
    assert DropEmpty(lists) == [[0], [0]] by {
      assert lists[1..] == [[0], [0]] && lists[1..][1..] == [[0]];
    }
    var picks: seq<Option<nat>> := [None, Some(0)];
    assert ValidPicks([[0], [0]], required, {}, false, picks);
  }

  // ----- Extra strings -----

  /** The assignment uses every string. */
  ghost predicate UsesAll(picks: seq<Option<nat>>, m: nat) {
    forall j :: 0 <= j < m ==> Some(j) in picks
  }

  /** An assignment that leaves no string unused. */
  ghost predicate FullyAssignable(lists: seq<seq<nat>>, required: seq<bool>, m: nat, ordered: bool) {
    exists picks :: ValidPicks(lists, required, {}, ordered, picks) && UsesAll(picks, m)
  }

  /** The candidates of a comparison with m strings in which no string is extra and no required entry is missing. */
  ghost predicate Complete(required: seq<bool>, lists: seq<seq<nat>>, m: nat) {
    && Searched(required, lists, m, false)
    && forall i, j :: 0 <= i < |lists| && j in lists[i] ==> j < m
  }

  /** The strings that an assignment uses. */
  function Used(picks: seq<Option<nat>>): set<nat> {
    set k | 0 <= k < |picks| && picks[k].Some? :: picks[k].value
  }

  lemma UsedStep(picks: seq<Option<nat>>)
    requires picks != []
    ensures Used(picks) == Used(picks[1..]) + (if picks[0].Some? then {picks[0].value} else {})
  {
    var rest := picks[1..];
    forall x | x in Used(picks) ensures x in Used(rest) || picks[0] == Some(x) {
      var k :| 0 <= k < |picks| && picks[k] == Some(x);
      if k > 0 { assert rest[k-1] == Some(x); }
    }
    forall x | x in Used(rest) ensures x in Used(picks) {
      var k :| 0 <= k < |rest| && rest[k] == Some(x);
      assert picks[k+1] == Some(x);
    }
  }

  /** Distinct picks for all set flags use at least as many strings. */
  lemma {:induction false} UsedAtLeast(picks: seq<Option<nat>>, flags: seq<bool>)
    requires |picks| == |flags| && forall k :: 0 <= k < |picks| && flags[k] ==> picks[k].Some?
    requires forall j, k :: 0 <= j < k < |picks| && picks[j].Some? && picks[k].Some? ==> picks[j].value != picks[k].value
    ensures Count(flags) <= |Used(picks)|
  {
    if picks != [] {
      UsedStep(picks);
      UsedAtLeast(picks[1..], flags[1..]);
      if picks[0].Some? { assert picks[0].value !in Used(picks[1..]); }
    }
  }

  /** Picks for set flags only use at most as many strings. */
  lemma {:induction false} UsedAtMost(picks: seq<Option<nat>>, flags: seq<bool>)
    requires |picks| == |flags| && forall k :: 0 <= k < |picks| && picks[k].Some? ==> flags[k]
    ensures |Used(picks)| <= Count(flags)
  {
    if picks != [] {
      UsedStep(picks);
      UsedAtMost(picks[1..], flags[1..]);
    }
  }

  function Strings(m: nat): (r: set<nat>)
    ensures |r| == m && forall j: nat :: j in r <==> j < m
  {
    if m == 0 then {} else Strings(m - 1) + {m - 1}
  }

  lemma SubsetSize(a: set<nat>, b: set<nat>)
    requires a <= b
    ensures |a| <= |b| && (|a| == |b| ==> a == b)
  {
    assert b == a + (b - a);
  }

  lemma UsesAllIff(picks: seq<Option<nat>>, m: nat)
    ensures UsesAll(picks, m) <==> Strings(m) <= Used(picks)
  {
    if UsesAll(picks, m) {
      forall j | j in Strings(m) ensures j in Used(picks) {
        assert Some(j) in picks;
        var k :| 0 <= k < |picks| && picks[k] == Some(j);
      }
    }
    if Strings(m) <= Used(picks) {
      forall j | 0 <= j < m ensures Some(j) in picks {
        assert (j as nat) in Strings(m);
      }
    }
  }

  /** With as many required entries as strings, every assignment uses every string. */
  lemma EnoughRequired(required: seq<bool>, lists: seq<seq<nat>>, m: nat, ordered: bool, picks: seq<Option<nat>>)
    requires Complete(required, lists, m) && ValidPicks(lists, required, {}, ordered, picks) && m <= Count(required)
    ensures UsesAll(picks, m)
  {
    UsedAtLeast(picks, required);
    SubsetSize(Used(picks), Strings(m));
    UsesAllIff(picks, m);
  }

  /** A single string is used by some assignment if any entry matches it. */
  lemma OneString(required: seq<bool>, lists: seq<seq<nat>>, ordered: bool)
    requires Complete(required, lists, 1) && Assignable(lists, required, {}, ordered)
    ensures FullyAssignable(lists, required, 1, ordered)
  {
    var picks: seq<Option<nat>> :| ValidPicks(lists, required, {}, ordered, picks);
    if Some(0) in picks {
      assert UsesAll(picks, 1);
    } else {
      assert Covered(lists, 0);
      var i :| 0 <= i < |lists| && 0 in lists[i];
      assert forall k :: 0 <= k < |picks| ==> picks[k].None?;
      var more := picks[i := Some(0)];
      assert more[i] == Some(0) && ValidPicks(lists, required, {}, ordered, more);
      assert UsesAll(more, 1);
    }
  }

  /** The number of set flags before a position. */
  function Rank(flags: seq<bool>, k: nat): nat
    requires k <= |flags|
  {
    Count(flags[..k])
  }

  lemma RankGrows(flags: seq<bool>, j: nat, k: nat)
    requires j < k <= |flags| && flags[j]
    ensures Rank(flags, j) < Rank(flags, k)
  {
    CountAppend(flags[..j], flags[j..k]);
    assert flags[..j] + flags[j..k] == flags[..k];
    assert flags[j..k][0] == flags[j];
  }

  lemma {:induction false} FirstSet(flags: seq<bool>) returns (k: nat)
    requires Count(flags) > 0
    ensures k < |flags| && flags[k] && Rank(flags, k) == 0
  {
    if flags[0] {
      k := 0;
    } else {
      k := FirstSet(flags[1..]);
      k := k + 1;
      assert flags[..k][1..] == flags[1..][..k-1];
    }
  }

  /** Candidates for the entries with set flags only: the first of them has all strings, each other one a string of its own. */
  function Spread(flags: seq<bool>, m: nat): (r: seq<seq<nat>>)
    ensures |r| == |flags|
    ensures forall k :: 0 <= k < |flags| ==>
              r[k] == if !flags[k] then [] else if Rank(flags, k) == 0 then seq(m, i => i) else [Rank(flags, k)]
  {
    seq(|flags|, k requires 0 <= k < |flags| =>
      if !flags[k] then [] else if Rank(flags, k) == 0 then seq(m, i => i) else [Rank(flags, k)])
  }

  lemma SpreadIsComplete(required: seq<bool>, flags: seq<bool>, m: nat)
    requires |required| == |flags| && (forall k :: 0 <= k < |flags| && required[k] ==> flags[k]) && 0 < Count(flags) < m
    ensures Complete(required, Spread(flags, m), m)
  {
    var lists := Spread(flags, m);
    var first := FirstSet(flags);
    forall j: nat | j < m ensures Covered(lists, j) { assert lists[first][j] == j; }
    forall i, j | 0 <= i < |lists| && j in lists[i] ensures j < m {
      if flags[i] {
        RankGrows(flags, i, |flags|);
        assert flags[..|flags|] == flags;
      }
    }
  }

  lemma SpreadIsAssignable(required: seq<bool>, flags: seq<bool>, m: nat, ordered: bool)
    requires |required| == |flags| && (forall k :: 0 <= k < |flags| && required[k] ==> flags[k]) && m > 0
    ensures Assignable(Spread(flags, m), required, {}, ordered)
  {
    var lists := Spread(flags, m);
    var picks := seq(|flags|, k requires 0 <= k < |flags| => if required[k] then Some(Rank(flags, k)) else None);
    forall j, k | 0 <= j < k < |picks| && picks[j].Some? && picks[k].Some? ensures picks[j].value < picks[k].value {
      RankGrows(flags, j, k);
    }
    forall k | 0 <= k < |picks| && picks[k].Some? ensures picks[k].value in lists[k] {
      if Rank(flags, k) == 0 { assert lists[k][0] == 0; }
    }
    assert ValidPicks(lists, required, {}, ordered, picks);
  }

  /** Fewer picks than strings leave a string unused. */
  lemma TooFewPicks(picks: seq<Option<nat>>, flags: seq<bool>, m: nat)
    requires |picks| == |flags| && (forall k :: 0 <= k < |picks| && picks[k].Some? ==> flags[k]) && Count(flags) < m
    ensures !UsesAll(picks, m)
  {
    UsedAtMost(picks, flags);
    UsesAllIff(picks, m);
    if UsesAll(picks, m) { SubsetSize(Strings(m), Used(picks)); }
  }

  lemma SpreadLeavesUnused(required: seq<bool>, flags: seq<bool>, m: nat, ordered: bool)
    requires |required| == |flags| && Count(flags) < m
    ensures !FullyAssignable(Spread(flags, m), required, m, ordered)
  {
    var lists := Spread(flags, m);
    forall picks: seq<Option<nat>> | ValidPicks(lists, required, {}, ordered, picks) ensures !UsesAll(picks, m) {
      TooFewPicks(picks, flags, m);
    }
  }

  /** Entries that get candidates in the counterexample: the required ones, or the first if there is none. */
  function Served(required: seq<bool>): (flags: seq<bool>)
    requires required != []
    ensures |flags| == |required| && forall k :: 0 <= k < |flags| && required[k] ==> flags[k]
  {
    if Count(required) == 0 then required[0 := true] else required
  }

  lemma CountServed(required: seq<bool>)
    requires required != []
    ensures Count(Served(required)) == if Count(required) == 0 then 1 else Count(required)
  {
    if Count(required) == 0 {
      assert required[0 := true][1..] == required[1..];
    }
  }

  /**
   * When extra strings are not ignored, the source asks that each string is a candidate of some
   * entry. For given flags and a given number of strings, that is enough for an assignment that
   * uses every string, whatever the candidates are, exactly if there is at most one string, or no
   * entry, or there are as many required entries as strings.
   */
  lemma ExtraStringsUsed(required: seq<bool>, m: nat, ordered: bool)
    ensures (forall lists :: Complete(required, lists, m) && Assignable(lists, required, {}, ordered) ==> FullyAssignable(lists, required, m, ordered))
            <==> required == [] || m <= 1 || m <= Count(required)
  {
    if required == [] || m <= 1 || m <= Count(required) {
      forall lists | Complete(required, lists, m) && Assignable(lists, required, {}, ordered)
        ensures FullyAssignable(lists, required, m, ordered)
      {
        var picks: seq<Option<nat>> :| ValidPicks(lists, required, {}, ordered, picks);
        if m == 1 {
          OneString(required, lists, ordered);
        } else if m > 0 && required != [] {
          EnoughRequired(required, lists, m, ordered, picks);
        } else {
          assert m > 0 ==> Covered(lists, 0);
          assert UsesAll(picks, m);
        }
      }
    } else {
      var flags := Served(required);
      CountServed(required);
      SpreadIsComplete(required, flags, m);
      SpreadIsAssignable(required, flags, m, ordered);
      SpreadLeavesUnused(required, flags, m, ordered);
    }
  }

  /** One required entry that matches both of two strings: neither is reported as extra, and one is not used. */
  lemma UnusedString()
    ensures Comparison([true], [[0, 1]], 2, false, true, Matched) && !FullyAssignable([[0, 1]], [true], 2, false)
  {
    var lists: seq<seq<nat>> := [[0, 1]];
    assert lists[0] == [0, 1] && DropEmpty(lists) == lists by { assert lists[1..] == []; }
    forall j: nat | j < 2 ensures Covered(lists, j) { assert lists[0][j] == j; }
    var picks: seq<Option<nat>> := [Some(0)];
    assert ValidPicks(lists, [true], {}, false, picks);
    forall more: seq<Option<nat>> | ValidPicks(lists, [true], {}, false, more) ensures !UsesAll(more, 2) {
      TooFewPicks(more, [true], 2);
    }
  }

  /**
   * The comparison with no string ignored, when the flags line up and there are as many required
   * entries as strings: it succeeds exactly if some assignment uses every string.
   */
  lemma ComparisonOfAll(required: seq<bool>, lists: seq<seq<nat>>, m: nat, ignoreOrder: bool, r: MatchResult)
    requires Comparison(required, lists, m, false, ignoreOrder, r) && |required| == |lists|
    requires forall i, j :: 0 <= i < |lists| && j in lists[i] ==> j < m
    requires OnlyOptionalEmpty(required, lists) ==>
               required[..|DropEmpty(lists)|] == KeptFlags(required, lists) || Count(KeptFlags(required, lists)) <= 1
    requires required == [] || m <= 1 || m <= Count(required)
    ensures r == Matched <==> OnlyOptionalEmpty(required, lists) && FullyAssignable(lists, required, m, !ignoreOrder)
  {
    ComparisonMeaning(required, lists, m, false, ignoreOrder, r);
    ExtraStringsUsed(required, m, !ignoreOrder);
    if FullyAssignable(lists, required, m, !ignoreOrder) {
      var picks: seq<Option<nat>> :| ValidPicks(lists, required, {}, !ignoreOrder, picks) && UsesAll(picks, m);
      forall j: nat | j < m ensures Covered(lists, j) {
        assert Some(j) in picks;
        var k :| 0 <= k < |picks| && picks[k] == Some(j);
        assert j in lists[k];
      }
    }
  }
}
