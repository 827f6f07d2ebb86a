/**
 * Enqueuing actions with what they need, and draining the queue while actions enqueue more.
 * Everything that happens is recorded in a log of additions and runs; the laws are about logs.
 */
module CleanupRun {
  import opened CleanupQueue

  datatype Event = Added(action: Action) | Ran(action: Action)

  function Step(q: seq<Action>, e: Event): seq<Action> {
    if e.Added? then Add(q, e.action) else if q == [] then [] else q[1..]
  }

  /** The pending actions after a log. */
  function Pending(log: seq<Event>): seq<Action> {
    if log == [] then [] else Step(Pending(log[..|log|-1]), log[|log|-1])
  }

  ghost predicate RunsTakeHeads(log: seq<Event>) {
    forall i :: 0 <= i < |log| && log[i].Ran? ==> Pending(log[..i]) != [] && Pending(log[..i])[0] == log[i].action
  }

  ghost predicate NoneAfterItsRun(log: seq<Event>) {
    forall i, j :: 0 <= i < j < |log| && log[i].Ran? && log[j].Added? ==> log[j].action.id != log[i].action.id
  }

  ghost predicate OneActionPerId(log: seq<Event>) {
    forall d, e :: d in log && e in log && d.action.id == e.action.id ==> d.action == e.action
  }

  /** Each run takes the head of the queue, nothing is enqueued again once it has run, and a number names one action. */
  ghost predicate ValidLog(log: seq<Event>) {
    RunsTakeHeads(log) && NoneAfterItsRun(log) && OneActionPerId(log)
  }

  lemma HeadsSnoc(log: seq<Event>, e: Event)
    requires RunsTakeHeads(log) && (e.Ran? ==> Pending(log) != [] && Pending(log)[0] == e.action)
    ensures RunsTakeHeads(log + [e])
  {
    var more := log + [e];
    assert more[..|log|] == log;
    assert forall i :: 0 <= i < |log| ==> more[i] == log[i] && more[..i] == log[..i];
  }

  lemma NoneAfterSnoc(log: seq<Event>, e: Event)
    requires NoneAfterItsRun(log) && forall d :: d in log && d.action.id == e.action.id && e.Added? ==> d.Added?
    ensures NoneAfterItsRun(log + [e])
  {
    assert forall i :: 0 <= i < |log| ==> (log + [e])[i] == log[i] && log[i] in log;
  }

  /** What one more event has to meet. */
  lemma ValidSnoc(log: seq<Event>, e: Event)
    requires ValidLog(log)
    requires e.Ran? ==> Pending(log) != [] && Pending(log)[0] == e.action
    requires forall d :: d in log && d.action.id == e.action.id ==> d.action == e.action && (e.Added? ==> d.Added?)
    ensures ValidLog(log + [e])
  {
    HeadsSnoc(log, e);
    NoneAfterSnoc(log, e);
    assert forall d :: d in log + [e] ==> d in log || d == e;
  }

  lemma ValidPrefix(log: seq<Event>, k: nat)
    requires ValidLog(log) && k <= |log|
    ensures ValidLog(log[..k])
  {
    assert forall j :: 0 <= j < k ==> log[..j] == log[..k][..j];
    assert forall e :: e in log[..k] ==> e in log;
  }

  lemma PendingSnoc(log: seq<Event>, e: Event)
    ensures Pending(log + [e]) == Step(Pending(log), e)
  {
    assert (log + [e])[..|log|] == log;
  }

  lemma PendingPrefix(log: seq<Event>, k: nat)
    requires 0 < k <= |log|
    ensures Pending(log[..k]) == Step(Pending(log[..k-1]), log[k-1])
  {
    assert log[..k][..k-1] == log[..k-1];
  }

  lemma {:induction false} PendingIsOrdered(log: seq<Event>)
    ensures Ordered(Pending(log))
  {
    if log != [] {
      var n := |log| - 1;
      PendingIsOrdered(log[..n]);
      match log[n] {
        case Added(a) => AddKeepsOrder(Pending(log[..n]), a);
        case Ran(a) =>
          var q := Pending(log[..n]);
          if q != [] { assert forall k :: 0 <= k < |q| - 1 ==> q[1..][k] == q[k+1]; }
      }
    }
  }

  // ----- The life of an action -----

  /** The action was neither run nor replaced between two moments of the log. */
  ghost predicate Untouched(log: seq<Event>, a: Action, i: nat, k: nat) {
    forall j :: i <= j < k <= |log| ==> log[j] != Ran(a) && (log[j].Added? ==> log[j].action.Tag() != a.Tag())
  }

  lemma HeadLeaves(q: seq<Action>, x: Action)
    requires Ordered(q) && q != []
    ensures x in q[1..] <==> x in q && x != q[0]
  {
    if x in q[1..] {
      var k :| 0 <= k < |q| - 1 && q[1..][k] == x;
      assert q[k+1] == x;
    }
  }

  /** One event leaves another action pending exactly if it neither runs nor replaces it. */
  lemma OneEvent(q: seq<Action>, e: Event, a: Action)
    requires Ordered(q) && e != Added(a) && (e.Ran? ==> q != [] && q[0] == e.action)
    ensures a in Step(q, e) <==> a in q && e != Ran(a) && (e.Added? ==> e.action.Tag() != a.Tag())
  {
    if e.Added? { AddElements(q, e.action); } else { HeadLeaves(q, a); }
  }

  /** An added action stays pending until it is run or replaced. */
  lemma {:induction false} StaysPending(log: seq<Event>, a: Action, i: nat, k: nat)
    requires ValidLog(log) && i < k <= |log| && log[i] == Added(a) && Untouched(log, a, i + 1, k)
    ensures a in Pending(log[..k])
  {
    var q, e := Pending(log[..k-1]), log[k-1];
    PendingPrefix(log, k);
    PendingIsOrdered(log[..k-1]);
    if k == i + 1 {
      AddElements(q, a);
    } else {
      StaysPending(log, a, i, k - 1);
      assert e.Ran? ==> q != [] && q[0] == e.action;
      if e != Added(a) { OneEvent(q, e, a); }
    }
  }

  /** What is pending was added, and neither run nor replaced since. */
  lemma {:induction false} PendingWasAdded(log: seq<Event>, a: Action) returns (i: nat)
    requires ValidLog(log) && a in Pending(log)
    ensures i < |log| && log[i] == Added(a) && Untouched(log, a, i + 1, |log|)
  {
    var n := |log| - 1;
    if log[n] == Added(a) {
      i := n;
    } else {
      ValidPrefix(log, n);
      PendingIsOrdered(log[..n]);
      assert log[n].Ran? ==> Pending(log[..n]) != [] && Pending(log[..n])[0] == log[n].action;
      OneEvent(Pending(log[..n]), log[n], a);
      i := PendingWasAdded(log[..n], a);
      UntouchedSnoc(log, a, i);
    }
  }

  lemma UntouchedSnoc(log: seq<Event>, a: Action, i: nat)
    requires log != [] && i < |log| - 1
    requires Untouched(log[..|log|-1], a, i + 1, |log| - 1)
    requires log[|log|-1] != Ran(a) && (log[|log|-1].Added? ==> log[|log|-1].action.Tag() != a.Tag())
    ensures Untouched(log, a, i + 1, |log|)
  {
    forall j | i < j < |log| - 1 ensures log[j] != Ran(a) && (log[j].Added? ==> log[j].action.Tag() != a.Tag()) {
      assert log[..|log|-1][j] == log[j];
    }
  }

  /** Once the queue is empty, every addition has been run, or replaced by a later addition of its tag. */
  lemma EveryAdditionEnds(log: seq<Event>, i: nat)
    requires ValidLog(log) && Pending(log) == [] && i < |log| && log[i].Added?
    ensures exists j :: i < j < |log| && (log[j] == Ran(log[i].action)
                                         || (log[j].Added? && log[j].action.Tag() == log[i].action.Tag()))
  {
    var a := log[i].action;
    assert log[..|log|] == log;
    if Untouched(log, a, i + 1, |log|) {
      StaysPending(log, a, i, |log|);
    }
  }

  /** No action is run twice. */
  lemma NoActionRunsTwice(log: seq<Event>, i: nat, j: nat)
    requires ValidLog(log) && i < j < |log| && log[i].Ran? && log[j].Ran?
    ensures log[i].action.id != log[j].action.id
  {
    var a, b := log[i].action, log[j].action;
    var upto := log[..j];
    ValidPrefix(log, j);
    assert b in Pending(upto);
    var k := PendingWasAdded(upto, b);
    assert log[k] == Added(b);
    assert k < i ==> upto[i] != Ran(b);
  }

  /** Each run takes an action of least priority among the pending ones. */
  lemma RunsAreMinimal(log: seq<Event>, i: nat, a: Action)
    requires ValidLog(log) && i < |log| && log[i].Ran? && a in Pending(log[..i])
    ensures log[i].action.Priority() <= a.Priority()
  {
    PendingIsOrdered(log[..i]);
    FirstIsMinimal(Pending(log[..i]), a);
  }

  // ----- The queue at any moment -----

  function Actions(log: seq<Event>): (h: seq<Action>)
    ensures |h| == |log| && forall i :: 0 <= i < |log| ==> h[i] == log[i].action
  {
    seq(|log|, i requires 0 <= i < |log| => log[i].action)
  }

  /** The i-th event is an addition that was neither run nor replaced since. */
  ghost predicate Live(log: seq<Event>, i: nat) {
    i < |log| && log[i].Added? && Untouched(log, log[i].action, i + 1, |log|)
  }

  /** The queue lists, in order, the additions that are live; idx are their positions in the log. */
  ghost predicate DescribesLog(log: seq<Event>, idx: seq<nat>, q: seq<Action>) {
    InOrder(Actions(log), idx) && At(Actions(log), idx, q) && forall i: nat :: i in idx <==> Live(log, i)
  }

  lemma LiveSnoc(log: seq<Event>, e: Event, i: nat)
    ensures Live(log + [e], i) <==>
            if i == |log| then e.Added?
            else Live(log, i) && e != Ran(log[i].action) && (e.Added? ==> e.action.Tag() != log[i].action.Tag())
  {
    var more := log + [e];
    if i < |log| {
      assert more[i] == log[i] && more[|log|] == e;
      assert forall j :: i < j < |log| ==> more[j] == log[j];
    }
  }

  /** In an ordered queue, what its description says of an action of a tag holds of one position only. */
  lemma OnePosition(log: seq<Event>, idx: seq<nat>, q: seq<Action>, r: nat)
    requires DescribesLog(log, idx, q) && Ordered(q) && r < |q|
    ensures forall i: nat :: Live(log, i) ==> (log[i].action.Tag() == q[r].Tag() <==> i == idx[r])
  {
    forall i: nat | Live(log, i) ensures log[i].action.Tag() == q[r].Tag() <==> i == idx[r] {
      assert i in idx;
      var k :| 0 <= k < |idx| && idx[k] == i;
      assert q[k] == log[i].action;
    }
  }

  /** Deleting the action of a tag leaves the live additions of other tags. */
  lemma RestIsLive(log: seq<Event>, idx: seq<nat>, q: seq<Action>, tag: UniqueTag)
    requires DescribesLog(log, idx, q) && Ordered(q)
    ensures forall i: nat :: i in DeleteAt(idx, FindTag(q, tag)) <==> Live(log, i) && log[i].action.Tag() != tag
  {
    var r := FindTag(q, tag);
    if r < |q| {
      InOrderIsDistinct(Actions(log), idx);
      DeletedElements(idx, r);
      OnePosition(log, idx, q, r);
    } else {
      forall i: nat | Live(log, i) ensures log[i].action.Tag() != tag {
        assert i in idx;
        var k :| 0 <= k < |idx| && idx[k] == i;
        assert q[k] == log[i].action;
      }
    }
  }

  lemma AdditionDescribesLog(log: seq<Event>, idx: seq<nat>, q: seq<Action>, a: Action) returns (idx': seq<nat>)
    requires DescribesLog(log, idx, q) && Ordered(q)
    ensures DescribesLog(log + [Added(a)], idx', Add(q, a))
  {
    var h, n, less := Actions(log), |log|, Removed(q, a.Tag());
    var rest := DeleteAt(idx, FindTag(q, a.Tag()));
    var p := FindPriority(less, a.Priority());
    RestInOrder(log, idx, q, FindTag(q, a.Tag()));
    idx' := InsertAt(rest, p, n);
    assert Actions(log + [Added(a)]) == h + [a];
    assert InOrder(h + [a], idx') && At(h + [a], idx', Add(q, a)) by { InsertedOrder(h, rest, less, a, p); }
    forall i: nat ensures i in idx' <==> Live(log + [Added(a)], i) {
      RestIsLive(log, idx, q, a.Tag());
      InsertedElements(rest, p, n);
      LiveSnoc(log, Added(a), i);
    }
  }

  lemma RestInOrder(log: seq<Event>, idx: seq<nat>, q: seq<Action>, r: nat)
    requires InOrder(Actions(log), idx) && At(Actions(log), idx, q)
    ensures InOrder(Actions(log), DeleteAt(idx, r)) && At(Actions(log), DeleteAt(idx, r), DeleteAt(q, r))
  {
  }

  lemma RunDescribesLog(log: seq<Event>, idx: seq<nat>, q: seq<Action>)
    requires DescribesLog(log, idx, q) && Ordered(q) && q != []
    ensures DescribesLog(log + [Ran(q[0])], idx[1..], q[1..])
  {
    var e := Ran(q[0]);
    var more, h := log + [e], Actions(log);
    assert Actions(more) == h + [q[0]];
    InOrderIsDistinct(h, idx);
    OnePosition(log, idx, q, 0);
    forall i: nat ensures i in idx[1..] <==> Live(more, i) {
      LiveSnoc(log, e, i);
      assert i in idx <==> i == idx[0] || i in idx[1..];
      assert i in idx[1..] ==> i != idx[0];
      assert Live(log, i) ==> (log[i].action == q[0] <==> i == idx[0]) by {
        if Live(log, i) && i == idx[0] { assert q[0] == h[idx[0]]; }
      }
    }
    forall k, l | 0 <= k < l < |idx| - 1 ensures Precedes(h + [q[0]], idx[1..][k], idx[1..][l]) {
      PrecedesMore(h, q[0], idx[k+1], idx[l+1]);
    }
  }

  /** At any moment of a valid log the queue lists what was added and neither run nor replaced since, by priority and newest first. */
  lemma {:induction false} QueueOfLog(log: seq<Event>) returns (idx: seq<nat>)
    requires ValidLog(log)
    ensures DescribesLog(log, idx, Pending(log))
  {
    if log == [] {
      idx := [];
    } else {
      var n := |log| - 1;
      var before, e := log[..n], log[n];
      ValidPrefix(log, n);
      PendingIsOrdered(before);
      assert log == before + [e];
      idx := QueueOfLog(before);
      match e {
        case Added(a) => idx := AdditionDescribesLog(before, idx, Pending(before), a);
        case Ran(a) =>
          assert Pending(before) != [] && Pending(before)[0] == a;
          RunDescribesLog(before, idx, Pending(before));
          idx := idx[1..];
      }
    }
  }
}
