/**
 * What the cleanup queue does, said of what its actions are made from: which actions replace one
 * another, what is made along with an action, and which exceptions are reported.
 */
module CleanupPlans {
  import opened Wrappers
  import opened Selection
  import opened CleanupQueue
  import opened CleanupRun
  import opened CleanupState

  // ----- Which actions replace one another -----

  /** A distinct action agrees with itself only; others with those of their class, made with equal arguments if with any. */
  ghost predicate Agree(a: Action, b: Action) {
    || (a.plan.kind.Distinct? && b.plan.kind.Distinct? && a.id == b.id)
    || (a.plan.kind.PerClass? && b.plan.kind.PerClass? && a.plan.cls == b.plan.cls)
    || (a.plan.kind.PerArgs? && b.plan.kind.PerArgs? && a.plan.cls == b.plan.cls && a.plan.kind.args == b.plan.kind.args)
  }

  lemma SameTagIff(a: Action, b: Action)
    ensures a.Tag() == b.Tag() <==> Agree(a, b)
  {
  }

  /** Adding an action removes what agrees with it, and leaves everything else pending. */
  lemma AddReplaces(q: seq<Action>, a: Action)
    requires Ordered(q)
    ensures forall b :: b in Add(q, a) <==> b == a || (b in q && !Agree(a, b))
  {
    AddElements(q, a);
    forall b: Action ensures a.Tag() == b.Tag() <==> Agree(a, b) { SameTagIff(a, b); }
  }

  /** No pending actions agree, and of each priority the newest goes first. */
  lemma NoTwoAgree(log: seq<Event>, i: nat, j: nat)
    requires i < j < |Pending(log)|
    ensures !Agree(Pending(log)[i], Pending(log)[j])
    ensures Pending(log)[i].plan.priority <= Pending(log)[j].plan.priority
  {
    PendingIsOrdered(log);
    SameTagIff(Pending(log)[i], Pending(log)[j]);
  }

  /** The i-th event added the action, and nothing since ran it or agrees with it. */
  ghost predicate AddedLast(log: seq<Event>, b: Action, i: nat) {
    && i < |log| && log[i] == Added(b)
    && forall j :: i < j < |log| ==> log[j] != Ran(b) && (log[j].Added? ==> !Agree(log[j].action, b))
  }

  lemma UntouchedIff(log: seq<Event>, b: Action, i: nat)
    requires i < |log| && log[i] == Added(b)
    ensures Untouched(log, b, i + 1, |log|) <==> AddedLast(log, b, i)
  {
    forall j | i < j < |log| ensures log[j].action.Tag() == b.Tag() <==> Agree(log[j].action, b) {
      SameTagIff(log[j].action, b);
    }
  }

  /** At any moment an action is pending exactly if it was added and since then neither run nor followed by one that agrees. */
  lemma PendingIff(log: seq<Event>, b: Action)
    requires ValidLog(log)
    ensures b in Pending(log) <==> exists i :: AddedLast(log, b, i)
  {
    if b in Pending(log) {
      var i := PendingWasAdded(log, b);
      UntouchedIff(log, b, i);
    }
    if i: nat :| AddedLast(log, b, i) {
      UntouchedIff(log, b, i);
      StaysPending(log, b, i, |log|);
      assert log[..|log|] == log;
    }
  }

  /** Some pending action agrees with a. */
  ghost predicate IsPending(q: seq<Action>, a: Action) {
    exists b :: b in q && Agree(b, a)
  }

  lemma PendingTag(q: seq<Action>, a: Action)
    ensures HasTag(q, a.Tag()) <==> IsPending(q, a)
  {
    forall b: Action ensures b.Tag() == a.Tag() <==> Agree(b, a) { SameTagIff(b, a); }
  }

  // ----- What is made along with an action -----

  /** The log holds an addition of the plan's action after position i, and the same action is added once more later. */
  ghost predicate AddedTwice(log: seq<Event>, plan: Plan, i: nat) {
    exists j, k :: i < j < k < |log| && log[j].Added? && log[j] == log[k] && log[j].action.plan == plan
  }

  ghost predicate AddedAfter(log: seq<Event>, plan: Plan, i: nat) {
    exists j :: i < j < |log| && log[j].Added? && log[j].action.plan == plan
  }

  /** Enqueuing actions again ends with enqueuing the last of them, as what it is. */
  lemma LastAgain(st0: State, st: State, plans: seq<Plan>, made: seq<Action>)
    requires Base(st0) && Good(st) && Grows(st0, st) && made != []
    requires |made| <= |plans| && forall i :: 0 <= i < |made| ==> made[i].plan == plans[i]
    requires forall i :: 0 <= i < |made| ==> Made(st, made[i], st0.next)
    ensures var n := |made| - 1; var log := AddAgain(st, plans, made[..n]).log;
            st.log <= log && AddAgain(st, plans, made).log == log + [Added(made[n])]
  {
    var n := |made| - 1;
    var st1 := AddAgain(st, plans, made[..n]);
    AddAgainGood(st0, st, plans, made[..n]);
    GrowsTransitive(st0, st, st1);
    MadeLater(st, st1, made[n], st0.next);
    assert AddAction(st1, made[n]) == Enqueue(st1, made[n]);
  }

  /** The log holds an addition of each of the actions from position i on. */
  ghost predicate LoggedFrom(log: seq<Event>, i: nat, made: seq<Action>) {
    forall m :: 0 <= m < |made| ==> exists k :: i <= k < |log| && log[k] == Added(made[m])
  }

  lemma LoggedSnoc(log: seq<Event>, i: nat, made: seq<Action>)
    requires i <= |log| && made != [] && LoggedFrom(log, i, made[..|made|-1])
    ensures LoggedFrom(log + [Added(made[|made|-1])], i, made)
  {
    var n := |made| - 1;
    var more := log + [Added(made[n])];
    forall m | 0 <= m < |made| ensures exists k :: i <= k < |more| && more[k] == Added(made[m]) {
      if m < n {
        var k :| i <= k < |log| && log[k] == Added(made[..n][m]);
        assert more[k] == Added(made[m]);
      } else {
        assert more[|log|] == Added(made[n]);
      }
    }
  }

  ghost predicate AllMade(st: State, plans: seq<Plan>, made: seq<Action>, start: nat) {
    && |made| <= |plans| && (forall i :: 0 <= i < |made| ==> made[i].plan == plans[i])
    && forall i :: 0 <= i < |made| ==> Made(st, made[i], start)
  }

  lemma {:induction false} AgainInLog(st0: State, st: State, plans: seq<Plan>, made: seq<Action>)
    requires Base(st0) && Good(st) && Grows(st0, st) && AllMade(st, plans, made, st0.next)
    ensures LoggedFrom(AddAgain(st, plans, made).log, |st.log|, made)
    decreases |made|
  {
    if made != [] {
      var n := |made| - 1;
      LastAgain(st0, st, plans, made);
      assert AllMade(st, plans, made[..n], st0.next);
      AgainInLog(st0, st, plans, made[..n]);
      LoggedSnoc(AddAgain(st, plans, made[..n]).log, |st.log|, made);
    }
  }

  /** What was made since a state is logged after it. */
  lemma MadeInLog(st0: State, st: State, a: Action) returns (j: nat)
    requires Base(st0) && Grows(st0, st) && Made(st, a, st0.next)
    ensures |st0.log| <= j < |st.log| && st.log[j] == Added(a)
  {
    forall i | 0 <= i < |st0.log| ensures st.log[i].action.id < st0.next {
      assert st.log[i] == st0.log[i] && st0.log[i] in st0.log;
    }
    j :| 0 <= j < |st.log| && st.log[j] == Added(a);
  }

  /** What the addition of a brought with it. */
  ghost predicate Brings(st: State, log: seq<Event>, a: Action) {
    && st.log + [Added(a)] <= log
    && (!IsPending(st.queue, a) ==> forall p :: p in a.plan.needs ==> AddedTwice(log, p, |st.log|))
    && (IsPending(st.queue, a) || a.plan.needs == [] ==> log == st.log + [Added(a)])
  }

  /**
   * Enqueuing an action that agrees with none pending makes all that it needs, after itself, and
   * enqueues each of those once more. Otherwise, or if it needs nothing, only the action is added.
   */
  lemma NeedsAreMade(st: State, a: Action)
    requires Base(st) && Addable(st, a)
    ensures Brings(st, AddAction(st, a).log, a)
  {
    PendingTag(st.queue, a);
    EnqueueGood(st, a);
    if a.plan.needs == [] {
      NothingNeeded(st, a);
    } else if !IsPending(st.queue, a) {
      var st1, plans := Enqueue(st, a), a.plan.needs;
      var (st2, made) := ConstructAll(st1, plans);
      ConstructAllGood(st1, plans);
      AddAgainGood(st1, st2, plans, made);
      var st3 := AddAgain(st2, plans, made);
      GrowsTransitive(st1, st2, st3);
      forall p | p in plans ensures AddedTwice(st3.log, p, |st.log|) {
        var i :| 0 <= i < |plans| && plans[i] == p;
        var j := MadeInLog(st1, st2, made[i]);
        AgainInLog(st1, st2, plans, made);
        var k :| |st2.log| <= k < |st3.log| && st3.log[k] == Added(made[i]);
        assert st3.log[j] == st2.log[j];
      }
    }
  }

  /** A run is logged first, and all that it enqueues is made after it. */
  lemma SpawnsAreMade(st: State)
    requires Good(st) && st.queue != []
    ensures var log, a := RunHead(st).log, st.queue[0];
            st.log + [Ran(a)] <= log && forall p :: p in a.plan.spawns ==> AddedAfter(log, p, |st.log|)
  {
    var st1, plans := StartRun(st), st.queue[0].plan.spawns;
    StartRunGood(st);
    ConstructAllGood(st1, plans);
    var (st2, made) := ConstructAll(st1, plans);
    forall p | p in plans ensures AddedAfter(st2.log, p, |st.log|) {
      var i :| 0 <= i < |plans| && plans[i] == p;
      var j := MadeInLog(st1, st2, made[i]);
    }
  }

  // ----- What stays pending -----

  /** Something that agrees with b was added after position i. */
  ghost predicate ReplacedAfter(log: seq<Event>, b: Action, i: nat) {
    exists j :: i <= j < |log| && log[j].Added? && Agree(log[j].action, b)
  }

  lemma LastInBoth(log: seq<Event>, log': seq<Event>, b: Action, i: nat)
    requires log <= log' && (forall j :: |log| <= j < |log'| ==> log'[j].Added?)
    requires AddedLast(log, b, i) && !ReplacedAfter(log', b, |log|)
    ensures AddedLast(log', b, i)
  {
    forall j | i < j < |log'| ensures log'[j] != Ran(b) && (log'[j].Added? ==> !Agree(log'[j].action, b)) {
      if j < |log| { assert log'[j] == log[j]; }
    }
  }

  lemma LastIsLater(log': seq<Event>, b: Action, i: nat, n: nat)
    requires AddedLast(log', b, i) && ReplacedAfter(log', b, n)
    ensures n <= i
  {
    var j :| n <= j < |log'| && log'[j].Added? && Agree(log'[j].action, b);
  }

  /** While actions are only added, exactly those stay pending that nothing added agrees with, but for those added again. */
  lemma StayPendingIff(log: seq<Event>, log': seq<Event>, b: Action)
    requires ValidLog(log) && ValidLog(log') && b in Pending(log)
    requires log <= log' && (forall j :: |log| <= j < |log'| ==> log'[j].Added?)
    ensures !ReplacedAfter(log', b, |log|) ==> b in Pending(log')
    ensures ReplacedAfter(log', b, |log|) && b in Pending(log') ==> Added(b) in Since(log, log')
  {
    PendingIff(log, b);
    PendingIff(log', b);
    if !ReplacedAfter(log', b, |log|) {
      var i: nat :| AddedLast(log, b, i);
      LastInBoth(log, log', b, i);
    } else if i: nat :| AddedLast(log', b, i) {
      LastIsLater(log', b, i, |log|);
      assert Since(log, log')[i-|log|] == Added(b);
    }
  }

  /**
   * What enqueuing an action with its needs does to a pending action: it stays if it differs in class,
   * kind, arguments or identity from the action and all that is added along with it, and goes if it
   * agrees with one of them and is not added again itself.
   */
  ghost predicate Replaces(st: State, st': State, a: Action, b: Action) {
    && (Agree(a, b) ==> ReplacedAfter(st'.log, b, |st.log|))
    && (!ReplacedAfter(st'.log, b, |st.log|) ==> b in st'.queue)
    && (ReplacedAfter(st'.log, b, |st.log|) && Added(b) !in Since(st.log, st'.log) ==> b !in st'.queue)
  }

  lemma AddActionReplaces(st: State, a: Action, b: Action)
    requires Base(st) && Addable(st, a) && b in st.queue
    ensures Replaces(st, AddAction(st, a), a, b)
  {
    var st' := AddAction(st, a);
    AddActionGood(st, a);
    NeedsAreMade(st, a);
    StayPendingIff(st.log, st'.log, b);
    assert st'.log[|st.log|] == (st.log + [Added(a)])[|st.log|] == Added(a);
  }

  /** Without needs, or replacing a pending action, only what agrees with the action goes. */
  lemma AddActionAlone(st: State, a: Action)
    requires Base(st) && Addable(st, a) && (a.plan.needs == [] || IsPending(st.queue, a))
    ensures forall b :: b in AddAction(st, a).queue <==> b == a || (b in st.queue && !Agree(a, b))
  {
    PendingTag(st.queue, a);
    if a.plan.needs == [] { NothingNeeded(st, a); }
    PendingIsOrdered(st.log);
    AddReplaces(st.queue, a);
  }

  lemma AddActionMeaning(st: State, a: Action)
    requires Base(st) && Addable(st, a)
    ensures Brings(st, AddAction(st, a).log, a) && forall b :: b in st.queue ==> Replaces(st, AddAction(st, a), a, b)
  {
    NeedsAreMade(st, a);
    forall b | b in st.queue ensures Replaces(st, AddAction(st, a), a, b) { AddActionReplaces(st, a, b); }
  }

  // ----- Which exceptions are reported -----

  lemma {:induction false} RaisedIsSelected(log: seq<Event>)
    ensures RaisedIn(log) == Select((e: Event) => e.Ran? && e.action.plan.raises, (e: Event) => e.action.id, log)
  {
    if log != [] { RaisedIsSelected(log[1..]); }
  }

  /** The exceptions are those of the runs that raise, at the positions idx, each under the identity of its action. */
  ghost predicate Reports(log: seq<Event>, idx: seq<nat>, ex: seq<nat>) {
    Selects((e: Event) => e.Ran? && e.action.plan.raises, (e: Event) => e.action.id, log, idx, ex)
  }

  lemma RaisedByPosition(log: seq<Event>) returns (idx: seq<nat>)
    ensures Reports(log, idx, RaisedIn(log))
  {
    RaisedIsSelected(log);
    idx := SelectSelects((e: Event) => e.Ran? && e.action.plan.raises, (e: Event) => e.action.id, log);
  }
}
