/** Captions such as "1,2,4..7,10": lists of numbers with their runs of consecutive numbers shortened. */
module Intervals {
  import opened Wrappers
  import opened Text
  import opened Selection

  /** What f makes of each element, one after the other. */
  function FlatMap<S, T>(f: S -> seq<T>, s: seq<S>): seq<T> {
    if s == [] then [] else f(s[0]) + FlatMap(f, s[1..])
  }

  lemma FlatMapOne<S, T>(f: S -> seq<T>, x: S)
    ensures FlatMap(f, [x]) == f(x)
  {
    assert [x][1..] == [];
  }

  lemma FlatMapCons<S, T>(f: S -> seq<T>, x: S, s: seq<S>)
    ensures FlatMap(f, [x] + s) == f(x) + FlatMap(f, s)
  {
    assert ([x] + s)[0] == x && ([x] + s)[1..] == s;
  }

  lemma {:induction false} FlatMapJoin<S, T>(f: S -> seq<T>, a: seq<S>, b: seq<S>)
    ensures FlatMap(f, a + b) == FlatMap(f, a) + FlatMap(f, b)
  {
    if a == [] {
      assert a + b == b;
    } else {
      FlatMapJoin(f, a[1..], b);
      assert (a + b)[0] == a[0] && (a + b)[1..] == a[1..] + b;
      Regroup(f(a[0]), FlatMap(f, a[1..]), FlatMap(f, b));
    }
  }

  // ----- Runs -----

  ghost predicate IsRun(run: seq<int>) {
    run != [] && forall k :: 0 < k < |run| ==> run[k] == run[k-1] + 1
  }

  /** The second run does not continue the first. */
  ghost predicate Apart(a: seq<int>, b: seq<int>) {
    a != [] && b != [] && b[0] != a[|a|-1] + 1
  }

  /** The runs of a list that continues an open run. */
  function RunsFrom(run: seq<int>, rest: seq<int>): (r: seq<seq<int>>)
    requires run != []
    ensures r != []
    decreases |rest|
  {
    if rest == [] then [run]
    else if run[|run|-1] + 1 == rest[0] then RunsFrom(run + [rest[0]], rest[1..])
    else [run] + RunsFrom([rest[0]], rest[1..])
  }

  function RunsOf(numbers: seq<int>): seq<seq<int>> {
    if numbers == [] then [] else RunsFrom([numbers[0]], numbers[1..])
  }

  function Flatten(runs: seq<seq<int>>): seq<int> {
    FlatMap((run: seq<int>) => run, runs)
  }

  lemma {:induction false} RunsFromAreMaximal(run: seq<int>, rest: seq<int>)
    requires IsRun(run)
    ensures var runs := RunsFrom(run, rest);
            && Flatten(runs) == run + rest && run <= runs[0]
            && (forall k :: 0 <= k < |runs| ==> IsRun(runs[k]))
            && (forall k :: 0 < k < |runs| ==> Apart(runs[k-1], runs[k]))
    decreases |rest|
  {
    var id := (run: seq<int>) => run;
    if rest == [] {
      FlatMapOne(id, run);
    } else {
      assert rest == [rest[0]] + rest[1..];
      if run[|run|-1] + 1 == rest[0] {
        RunsFromAreMaximal(run + [rest[0]], rest[1..]);
        Regroup(run, [rest[0]], rest[1..]);
      } else {
        RunsFromAreMaximal([rest[0]], rest[1..]);
        FlatMapCons(id, run, RunsFrom([rest[0]], rest[1..]));
        assert RunsFrom([rest[0]], rest[1..])[0][0] == rest[0];
      }
    }
  }

  /** The runs make up the list, each is consecutive, and no two neighbours could be joined. */
  lemma RunsAreMaximal(numbers: seq<int>)
    ensures var runs := RunsOf(numbers);
            && Flatten(runs) == numbers
            && (forall k :: 0 <= k < |runs| ==> IsRun(runs[k]))
            && (forall k :: 0 < k < |runs| ==> Apart(runs[k-1], runs[k]))
  {
    if numbers != [] {
      RunsFromAreMaximal([numbers[0]], numbers[1..]);
      assert [numbers[0]] + numbers[1..] == numbers;
      var runs := RunsOf(numbers);
      assert forall k :: 0 <= k < |runs| ==> IsRun(runs[k]);
    }
  }

  // ----- Captions -----

  /** Short runs are written out, longer ones as their ends. */
  function RunTexts(run: seq<int>): seq<string> {
    if |run| <= 2 then seq(|run|, i requires 0 <= i < |run| => PrintInt(run[i]))
    else [PrintInt(run[0]) + ".." + PrintInt(run[|run|-1])]
  }

  function Texts(runs: seq<seq<int>>): seq<string> {
    FlatMap(RunTexts, runs)
  }

  function Caption(numbers: seq<int>): string {
    Join(Texts(RunsOf(numbers)), ',')
  }

  /** What is still to be written when `run` is open and `rest` is unread. */
  function Remaining(run: seq<int>, rest: seq<int>): seq<string>
    requires run != []
  {
    Texts(RunsFrom(run, rest))
  }

  lemma RemainingStep(done: seq<string>, run: seq<int>, rest: seq<int>)
    requires run != []
    ensures rest == [] ==> done + Remaining(run, rest) == done + RunTexts(run)
    ensures rest != [] && run[|run|-1] + 1 != rest[0] ==>
              done + Remaining(run, rest) == done + RunTexts(run) + Remaining([rest[0]], rest[1..])
    ensures rest != [] && run[|run|-1] + 1 == rest[0] ==> Remaining(run, rest) == Remaining(run + [rest[0]], rest[1..])
  {
    if rest == [] {
      FlatMapOne(RunTexts, run);
    } else if run[|run|-1] + 1 != rest[0] {
      FlatMapCons(RunTexts, run, RunsFrom([rest[0]], rest[1..]));
      Regroup(done, RunTexts(run), Remaining([rest[0]], rest[1..]));
    }
  }

  /** The texts of a finished run: each number of a short one, the ends of a long one. */
  method CloseRun(run: seq<int>) returns (texts: seq<string>)
    requires run != []
    ensures texts == RunTexts(run)
  {
    if |run| <= 2 {
      texts := [];
      for i := 0 to |run|
        invariant texts == RunTexts(run)[..i]
      {
        texts := texts + [PrintInt(run[i])];
      }
    } else {
      texts := [PrintInt(run[0]) + ".." + PrintInt(run[|run|-1])];
    }
  }

  method ListToIntervals(numbers: seq<int>) returns (caption: string)
    ensures caption == Caption(numbers)
  {
    var intervals: seq<string>, lastInterval: seq<int> := [], [];
    // One round more than there are numbers, so that the last run is closed in the loop.
    for i := 0 to |numbers| + 1
      invariant i == 0 ==> lastInterval == [] && intervals == []
      invariant 0 < i <= |numbers| ==>
                  lastInterval != [] && Texts(RunsOf(numbers)) == intervals + Remaining(lastInterval, numbers[i..])
      invariant i == |numbers| + 1 ==> intervals == Texts(RunsOf(numbers))
    {
      if lastInterval == [] {
        if i < |numbers| {
          lastInterval := [numbers[i]];
        }
        continue;
      }
      RemainingStep(intervals, lastInterval, numbers[i..]);
      if i < |numbers| {
        assert numbers[i..][0] == numbers[i] && numbers[i..][1..] == numbers[i+1..];
      } else {
        assert numbers[i..] == [];
      }
      if i < |numbers| && lastInterval[|lastInterval|-1] + 1 == numbers[i] {
        lastInterval := lastInterval + [numbers[i]];
        continue;
      }
      var texts := CloseRun(lastInterval);
      intervals := intervals + texts;
      lastInterval := if i < |numbers| then [numbers[i]] else [];
    }
    caption := Join(intervals, ',');
  }

  // ----- Reading a caption -----

  function Range(a: int, b: int): (r: seq<int>)
    ensures a <= b ==> |r| == b - a + 1 && forall k :: 0 <= k < |r| ==> r[k] == a + k
  {
    if a <= b then seq(b - a + 1, k => a + k) else []
  }

  /** The numbers of one item: a number, or two numbers with two dots between. */
  function ExpandItem(item: string): seq<int> {
    var ends := Split(item, '.');
    if |ends| == 3 && IsInt(ends[0]) && IsInt(ends[2]) then Range(ParseInt(ends[0]), ParseInt(ends[2]))
    else if IsInt(item) then [ParseInt(item)] else []
  }

  function ExpandItems(items: seq<string>): seq<int> {
    FlatMap(ExpandItem, items)
  }

  function Expand(caption: string): seq<int> {
    if caption == "" then [] else ExpandItems(Split(caption, ','))
  }

  lemma PrintedIntChars(n: int, c: char)
    requires !IsDigit(c) && c != '-'
    ensures c !in PrintInt(n)
  {
    var digits := PrintNat(if n < 0 then -n else n);
    assert forall i :: 0 <= i < |digits| ==> IsDigit(digits[i]);
  }

  lemma ExpandNumber(n: int)
    ensures ExpandItem(PrintInt(n)) == [n]
  {
    ParsePrintInt(n);
    PrintedIntChars(n, '.');
    SplitOnePart(PrintInt(n), '.');
  }

  lemma ExpandRange(a: int, b: int)
    ensures ExpandItem(PrintInt(a) + ".." + PrintInt(b)) == Range(a, b)
  {
    var s, t := PrintInt(a), PrintInt(b);
    ParsePrintInt(a);
    ParsePrintInt(b);
    PrintedIntChars(a, '.');
    PrintedIntChars(b, '.');
    SplitAfterPart(s, "." + t, '.');
    SplitAfterPart("", t, '.');
    SplitOnePart(t, '.');
    assert s + ".." + t == s + ['.'] + ("." + t) && "." + t == "" + ['.'] + t;
    assert Split(s + ".." + t, '.') == [s, "", t];
  }

  lemma {:induction false} RunValues(run: seq<int>, k: nat)
    requires IsRun(run) && k < |run|
    ensures run[k] == run[0] + k
  {
    if k > 0 { RunValues(run, k - 1); }
  }

  /** A run of one or two numbers is written out. */
  lemma ExpandShort(run: seq<int>)
    requires IsRun(run) && |run| <= 2
    ensures ExpandItems(RunTexts(run)) == run
  {
    ExpandNumber(run[0]);
    FlatMapOne(ExpandItem, PrintInt(run[0]));
    if |run| == 1 {
      assert RunTexts(run) == [PrintInt(run[0])] && run == [run[0]];
    } else {
      ExpandNumber(run[1]);
      FlatMapOne(ExpandItem, PrintInt(run[1]));
      FlatMapJoin(ExpandItem, [PrintInt(run[0])], [PrintInt(run[1])]);
      assert RunTexts(run) == [PrintInt(run[0])] + [PrintInt(run[1])] && run == [run[0]] + [run[1]];
    }
  }

  /** A longer run is written as its ends. */
  lemma ExpandLong(run: seq<int>)
    requires IsRun(run) && |run| > 2
    ensures ExpandItems(RunTexts(run)) == run
  {
    var a, b := run[0], run[|run|-1];
    forall k | 0 <= k < |run| ensures run[k] == a + k { RunValues(run, k); }
    ExpandRange(a, b);
    FlatMapOne(ExpandItem, PrintInt(a) + ".." + PrintInt(b));
    assert Range(a, b) == run;
  }

  lemma RunTextChars(run: seq<int>)
    requires IsRun(run)
    ensures forall t :: t in RunTexts(run) ==> ',' !in t
  {
    forall n ensures ',' !in PrintInt(n) { PrintedIntChars(n, ','); }
  }

  lemma ExpandRunTexts(run: seq<int>)
    requires IsRun(run)
    ensures ExpandItems(RunTexts(run)) == run
    ensures forall t :: t in RunTexts(run) ==> ',' !in t
  {
    RunTextChars(run);
    if |run| <= 2 { ExpandShort(run); } else { ExpandLong(run); }
  }

  lemma {:induction false} ExpandTexts(runs: seq<seq<int>>)
    requires forall k :: 0 <= k < |runs| ==> IsRun(runs[k])
    ensures ExpandItems(Texts(runs)) == Flatten(runs)
    ensures forall t :: t in Texts(runs) ==> ',' !in t
  {
    if runs != [] {
      ExpandTexts(runs[1..]);
      ExpandRunTexts(runs[0]);
      FlatMapJoin(ExpandItem, RunTexts(runs[0]), Texts(runs[1..]));
    }
  }

  /** A caption expands back to exactly the numbers it was made from. */
  lemma ExpandCaption(numbers: seq<int>)
    ensures Expand(Caption(numbers)) == numbers
  {
    RunsAreMaximal(numbers);
    if numbers != [] {
      var runs := RunsOf(numbers);
      ExpandTexts(runs);
      var texts := Texts(runs);
      assert texts != [] by { assert IsRun(runs[0]) && RunTexts(runs[0]) != []; }
      SplitJoin(texts, ',');
      CaptionNotEmpty(runs);
    }
  }

  lemma CaptionNotEmpty(runs: seq<seq<int>>)
    requires runs != [] && runs[0] != []
    ensures Join(Texts(runs), ',') != ""
  {
    var texts := Texts(runs);
    assert texts[0] == RunTexts(runs[0])[0];
  }

  // ----- Which runs are shortened -----

  /** Three or more numbers make one item; one or two are written out. */
  lemma ItemsOfRun(run: seq<int>)
    requires IsRun(run)
    ensures |RunTexts(run)| == if |run| == 2 then 2 else 1
    ensures forall t :: t in RunTexts(run) ==> |ExpandItem(t)| == if |run| >= 3 then |run| else 1
  {
    if |run| <= 2 {
      forall t | t in RunTexts(run) ensures |ExpandItem(t)| == 1 {
        var k :| 0 <= k < |run| && t == PrintInt(run[k]);
        ExpandNumber(run[k]);
      }
    } else {
      RunValues(run, |run| - 1);
      ExpandRange(run[0], run[|run|-1]);
    }
  }

  /** The runs of exactly two numbers. */
  function PairRuns(runs: seq<seq<int>>): seq<seq<int>> {
    Select((run: seq<int>) => |run| == 2, (run: seq<int>) => run, runs)
  }

  lemma {:induction false} ItemsOfRuns(runs: seq<seq<int>>)
    requires forall k :: 0 <= k < |runs| ==> IsRun(runs[k])
    ensures |Texts(runs)| == |runs| + |PairRuns(runs)|
    ensures forall t :: t in Texts(runs) ==> |ExpandItem(t)| == 1 || |ExpandItem(t)| >= 3
  {
    if runs != [] {
      ItemsOfRun(runs[0]);
      ItemsOfRuns(runs[1..]);
    }
  }

  /** A caption has one item for each run, two for a run of two numbers, and none that stands for exactly two. */
  lemma CaptionItems(numbers: seq<int>)
    requires numbers != []
    ensures var items := Split(Caption(numbers), ',');
            && |items| == |RunsOf(numbers)| + |PairRuns(RunsOf(numbers))|
            && forall t :: t in items ==> |ExpandItem(t)| == 1 || |ExpandItem(t)| >= 3
  {
    var runs := RunsOf(numbers);
    RunsAreMaximal(numbers);
    ItemsOfRuns(runs);
    ExpandTexts(runs);
    SplitJoin(Texts(runs), ',');
  }

  lemma NextNumber(run: seq<int>, x: int, rest: seq<int>, numbers: seq<int>)
    requires run != [] && numbers == [x] + rest
    ensures RunsFrom(run, numbers) == if run[|run|-1] + 1 == x then RunsFrom(run + [x], rest) else [run] + RunsFrom([x], rest)
  {
    assert numbers[1..] == rest;
  }

  lemma ExampleLaterRuns()
    ensures RunsFrom([4], [5, 6, 7, 10]) == [[4, 5, 6, 7], [10]]
  {
    NextNumber([4, 5, 6, 7], 10, [], [10]);
    NextNumber([4, 5, 6], 7, [10], [7, 10]);
    NextNumber([4, 5], 6, [7, 10], [6, 7, 10]);
    NextNumber([4], 5, [6, 7, 10], [5, 6, 7, 10]);
    assert [4, 5, 6] + [7] == [4, 5, 6, 7] && [4, 5] + [6] == [4, 5, 6] && [4] + [5] == [4, 5];
  }

  lemma ExampleRuns()
    ensures RunsOf([1, 2, 4, 5, 6, 7, 10]) == [[1, 2], [4, 5, 6, 7], [10]]
  {
    ExampleLaterRuns();
    NextNumber([1, 2], 4, [5, 6, 7, 10], [4, 5, 6, 7, 10]);
    NextNumber([1], 2, [4, 5, 6, 7, 10], [2, 4, 5, 6, 7, 10]);
    assert [1] + [2] == [1, 2];
    assert [1, 2, 4, 5, 6, 7, 10][1..] == [2, 4, 5, 6, 7, 10];
  }

  lemma ExampleNumbers()
    ensures PrintInt(1) == "1" && PrintInt(2) == "2" && PrintInt(4) == "4" && PrintInt(7) == "7" && PrintInt(10) == "10"
  {
    assert PrintNat(1) == "1";
  }

  lemma ExampleTexts()
    ensures Texts([[1, 2], [4, 5, 6, 7], [10]]) == ["1", "2", "4..7", "10"]
  {
    ExampleNumbers();
    FlatMapCons(RunTexts, [1, 2], [[4, 5, 6, 7], [10]]);
    FlatMapCons(RunTexts, [4, 5, 6, 7], [[10]]);
    FlatMapOne(RunTexts, [10]);
    assert [[1, 2]] + [[4, 5, 6, 7], [10]] == [[1, 2], [4, 5, 6, 7], [10]];
    assert [[4, 5, 6, 7]] + [[10]] == [[4, 5, 6, 7], [10]];
    assert "4" + ".." + "7" == "4..7";
    assert RunTexts([1, 2]) == ["1", "2"] && RunTexts([4, 5, 6, 7]) == ["4..7"] && RunTexts([10]) == ["10"];
  }

  lemma JoinFour(a: string, b: string, c: string, d: string)
    ensures Join([a, b, c, d], ',') == a + "," + (b + "," + (c + "," + d))
  {
    assert [a, b, c, d][1..] == [b, c, d] && [b, c, d][1..] == [c, d] && [c, d][1..] == [d];
    assert Join([c, d], ',') == c + "," + d;
  }

  /** The documented example. */
  lemma DocumentedCaption()
    ensures Caption([1, 2, 4, 5, 6, 7, 10]) == "1,2,4..7,10"
  {
    ExampleRuns();
    ExampleTexts();
    JoinFour("1", "2", "4..7", "10");
  }
}
