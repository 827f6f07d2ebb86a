/**
 * The cleanup module as an object, together with the list of running services that its actions
 * stop. Its methods change the lists in place, as the specification in `CleanupState` says.
 */
module Cleanup {
  import opened Wrappers
  import opened CleanupQueue
  import opened CleanupRun
  import opened CleanupState
  import opened CleanupPlans

  ghost predicate HasRun(log: seq<Event>, id: nat) {
    exists i :: 0 <= i < |log| && log[i].Ran? && log[i].action.id == id
  }

  class CleanupModule {
    var cleanupLst: seq<Action>
    var serviceLst: seq<nat>
    var doCleanupCalled: set<nat>
    var nextId: nat
    ghost var log: seq<Event>

    ghost function St(): State
      reads this
    {
      State(cleanupLst, nextId, serviceLst, log)
    }

    /** The marks on the actions agree with the log. */
    ghost predicate Marked()
      reads this
    {
      forall id :: id in doCleanupCalled <==> HasRun(log, id)
    }

    ghost predicate Valid()
      reads this
    {
      Good(St()) && Marked()
    }

    constructor ()
      ensures Valid() && St() == State([], 0, [], [])
    {
      cleanupLst, serviceLst, doCleanupCalled, nextId, log := [], [], {}, 0, [];
    }

    /** Delete the first action with the tag, if any. */
    method DeleteTag(tag: UniqueTag) returns (found: bool)
      modifies this`cleanupLst
      ensures cleanupLst == Removed(old(cleanupLst), tag) && (found <==> HasTag(old(cleanupLst), tag))
    {
      found := false;
      for i := 0 to |cleanupLst|
        invariant cleanupLst == old(cleanupLst) && !found
        invariant forall k :: 0 <= k < i ==> cleanupLst[k].Tag() != tag
      {
        if cleanupLst[i].Tag() == tag {
          assert i == FindTag(cleanupLst, tag) && cleanupLst[i] in cleanupLst;
          cleanupLst := cleanupLst[..i] + cleanupLst[i+1..];
          found := true;
          return;
        }
      }
    }

    /** Replace the action with the same tag, if any; the new one goes before the first of no smaller priority. */
    method Put(a: Action) returns (newlyAdded: bool)
      modifies this`cleanupLst, this`log
      ensures St() == Enqueue(old(St()), a)
      ensures newlyAdded <==> !HasTag(old(cleanupLst), a.Tag())
      ensures old(Ordered(cleanupLst)) ==> forall b :: b in cleanupLst <==> b == a || (b in old(cleanupLst) && !Agree(a, b))
    {
      var found := DeleteTag(a.Tag());
      newlyAdded := !found;
      var idx := 0;
      while idx < |cleanupLst|
        invariant idx <= |cleanupLst| && forall k :: 0 <= k < idx ==> cleanupLst[k].Priority() < a.Priority()
      {
        if cleanupLst[idx].Priority() >= a.Priority() {
          break;
        }
        idx := idx + 1;
      }
      assert idx == FindPriority(cleanupLst, a.Priority());
      cleanupLst := cleanupLst[..idx] + [a] + cleanupLst[idx..];
      log := log + [Added(a)];
      if Ordered(old(cleanupLst)) { AddReplaces(old(cleanupLst), a); }
    }

    method CleanupAdd(a: Action)
      modifies this`cleanupLst, this`serviceLst, this`nextId, this`log
      ensures St() == AddAction(old(St()), a)
      ensures old(Base(St()) && Addable(St(), a)) ==>
                Brings(old(St()), log, a) && forall b :: b in old(cleanupLst) ==> Replaces(old(St()), St(), a, b)
      decreases a.plan, 1
    {
      if Base(St()) && Addable(St(), a) { AddActionMeaning(St(), a); }
      var newlyAdded := Put(a);
      if newlyAdded {
        var made := InitAll(a.plan.needs);
        AddMade(a.plan.needs, made);
      }
    }

    /** Make the actions of several plans, one after the other. */
    method InitAll(plans: seq<Plan>) returns (made: seq<Action>)
      modifies this`cleanupLst, this`serviceLst, this`nextId, this`log
      ensures (St(), made) == ConstructAll(old(St()), plans)
      decreases plans, 0
    {
      ghost var st := St();
      made := [];
      for i := 0 to |plans|
        invariant |made| == i && (St(), made) == ConstructAll(st, plans[..i])
      {
        assert plans[..i+1][..i] == plans[..i];
        var c := Init(plans[i]);
        made := made + [c];
      }
      assert plans[..|plans|] == plans;
    }

    /** Enqueue actions that are already made. */
    method AddMade(plans: seq<Plan>, made: seq<Action>)
      requires |made| <= |plans| && forall i :: 0 <= i < |made| ==> made[i].plan == plans[i]
      modifies this`cleanupLst, this`serviceLst, this`nextId, this`log
      ensures St() == AddAgain(old(St()), plans, made)
      decreases plans, 0
    {
      ghost var st := St();
      for i := 0 to |made|
        invariant St() == AddAgain(st, plans, made[..i])
      {
        assert made[..i+1][..i] == made[..i];
        CleanupAdd(made[i]);
      }
      assert made[..|made|] == made;
    }

    /** A new action object: constructing it enqueues it; a service is listed first. */
    method Init(plan: Plan) returns (a: Action)
      modifies this`cleanupLst, this`serviceLst, this`nextId, this`log
      ensures (St(), a) == Construct(old(St()), plan)
      decreases plan, 2
    {
      a := Action(nextId, plan);
      nextId := nextId + 1;
      if plan.service {
        serviceLst := serviceLst + [a.id];
      }
      assert St() == Reserved(old(St()), plan);
      CleanupAdd(a);
    }

    /** Construct an action from outside the module: every invariant is kept, and an action of its tag is pending. */
    method Make(plan: Plan) returns (a: Action)
      modifies this`cleanupLst, this`serviceLst, this`nextId, this`log
      ensures (St(), a) == Construct(old(St()), plan)
      ensures old(Valid()) && WellFormed(plan) ==> Valid() && Added(a) in log && HasTag(cleanupLst, a.Tag())
    {
      ghost var st := St();
      a := Init(plan);
      if old(Valid()) && WellFormed(plan) {
        MadeIsPending(st, plan);
      }
    }

    /** Start a service: it is listed, and the callback that stops it is pending with a tag of its own. */
    method PexpectService(name: string, priority: int, raises: bool) returns (a: Action)
      requires Valid()
      modifies this`cleanupLst, this`serviceLst, this`nextId, this`log
      ensures Valid() && serviceLst == old(serviceLst) + [a.id] && a in cleanupLst
      ensures a.plan.service && a.plan.priority == priority && a.plan.raises == raises
      ensures forall b :: b in old(cleanupLst) ==> b in cleanupLst
    {
      var plan := Plan(name, Distinct, priority, raises, true, [], []);
      ghost var st := St();
      ServiceStarts(st, plan);
      a := Make(plan);
    }

    /** The callback of a service takes it off the list, before anything can raise. */
    method PexpectServiceCleanup(id: nat)
      requires id in serviceLst
      modifies this`serviceLst
      ensures serviceLst == DeleteAt(old(serviceLst), Find(old(serviceLst), id))
    {
      var i := 0;
      while serviceLst[i] != id
        invariant 0 <= i < |serviceLst| && forall k :: 0 <= k < i ==> serviceLst[k] != id
        invariant serviceLst == old(serviceLst) && id in serviceLst
        decreases |serviceLst| - i
      {
        i := i + 1;
      }
      assert i == Find(serviceLst, id);
      serviceLst := serviceLst[..i] + serviceLst[i+1..];
    }

    /** Run an action taken from the queue: it marks itself, stops its service, and enqueues what it enqueues. */
    method DoCleanup(a: Action) returns (raised: bool)
      requires a.id !in doCleanupCalled && (a.plan.service ==> a.id in serviceLst)
      modifies this
      ensures doCleanupCalled == old(doCleanupCalled) + {a.id} && raised == a.plan.raises
      ensures St() == ConstructAll(Started(old(St()), a), a.plan.spawns).0
    {
      doCleanupCalled := doCleanupCalled + {a.id};
      log := log + [Ran(a)];
      if a.plan.service {
        PexpectServiceCleanup(a.id);
      }
      assert St() == Started(old(St()), a);
      var made := InitAll(a.plan.spawns);
      raised := a.plan.raises;
    }

    /** Take the first pending action and run it; that it has not run before is proved, not assumed. */
    method RunFirst() returns (a: Action, raised: bool)
      requires Valid() && cleanupLst != []
      modifies this
      ensures Valid() && St() == RunHead(old(St()))
      ensures a == old(cleanupLst)[0] && raised == a.plan.raises
      ensures old(log) + [Ran(a)] <= log && forall p :: p in a.plan.spawns ==> AddedAfter(log, p, |old(log)|)
    {
      ghost var st := St();
      SpawnsAreMade(st);
      RunHeadGood(st);
      HeadHasNotRun(st);
      ServicesWithout(st);
      a := cleanupLst[0];
      cleanupLst := cleanupLst[1..];
      assert St() == st.(queue := st.queue[1..]);
      raised := DoCleanup(a);
      assert St() == RunHead(st);
      MarksFollow(st);
    }

    /** Run the pending actions from the front until none is left, and collect the exceptions. */
    method ProcessCleanup() returns (ex: seq<nat>)
      requires Valid()
      modifies this
      ensures (St(), ex) == Drained(old(St()))
      ensures Valid() && cleanupLst == [] && serviceLst == []
      ensures old(log) <= log && ex == RaisedIn(Since(old(log), log))
      ensures exists idx :: Reports(Since(old(log), log), idx, ex)
    {
      ghost var st0 := St();
      DrainingIsComplete(st0);
      ghost var idx := RaisedByPosition(Since(st0.log, Drained(st0).0.log));
      ex := [];
      assert ex + Drained(st0).1 == Drained(st0).1;
      while cleanupLst != []
        invariant Valid()
        invariant Drained(St()).0 == Drained(st0).0 && ex + Drained(St()).1 == Drained(st0).1
        decreases QueueWeight(cleanupLst)
      {
        RunHeadWeight(St());
        DrainStep(St(), ex);
        var a, raised := RunFirst();
        if raised {
          ex := ex + [a.id];
        } else {
          assert ex + RaisedBy(a) == ex;
        }
      }
      DrainStep(St(), ex);
    }
  }

  lemma AdditionsRunNothing(log: seq<Event>, log': seq<Event>)
    requires log <= log' && forall i :: |log| <= i < |log'| ==> log'[i].Added?
    ensures forall id :: HasRun(log', id) <==> HasRun(log, id)
  {
    assert forall i :: 0 <= i < |log| ==> log'[i] == log[i];
  }

  /** A new action leaves the state good, without a run. */
  lemma MadeIsPending(st: State, plan: Plan)
    requires Good(st) && WellFormed(plan)
    ensures var (st', a) := Construct(st, plan);
            && Good(st') && Added(a) in st'.log && HasTag(st'.queue, a.Tag())
            && forall id :: HasRun(st'.log, id) <==> HasRun(st.log, id)
  {
    ConstructGood(st, plan);
    AdditionsRunNothing(st.log, Construct(st, plan).0.log);
  }

  /** Starting a service lists it and adds its callback; nothing pending is displaced. */
  lemma ServiceStarts(st: State, plan: Plan)
    requires Good(st) && plan.service && plan.kind.Distinct? && plan.needs == [] && plan.spawns == []
    ensures var (st', a) := Construct(st, plan);
            && Good(st') && st'.services == st.services + [a.id] && st'.log == st.log + [Added(a)]
            && a in st'.queue && forall b :: b in st.queue ==> b in st'.queue
  {
    var a := Action(st.next, plan);
    assert Good(Construct(st, plan).0) by { ConstructGood(st, plan); }
    NothingNeeded(Reserved(st, plan), a);
    NothingDisplaced(st, a);
  }

  /** An action with a new identity of its own displaces nothing. */
  lemma NothingDisplaced(st: State, a: Action)
    requires Good(st) && a.id == st.next && a.plan.kind.Distinct?
    ensures a in Add(st.queue, a) && forall b :: b in st.queue ==> b in Add(st.queue, a)
  {
    forall b | b in st.queue ensures b.Tag() != a.Tag() { QueuedIsLogged(st, b); }
    PendingIsOrdered(st.log);
    AddElements(st.queue, a);
  }

  /** One step of draining moves the head's exception to the list collected so far. */
  lemma DrainStep(st: State, ex: seq<nat>)
    ensures st.queue == [] ==> Drained(st).0 == st && ex + Drained(st).1 == ex
    ensures st.queue != [] ==>
              && Drained(RunHead(st)).0 == Drained(st).0
              && ex + RaisedBy(st.queue[0]) + Drained(RunHead(st)).1 == ex + Drained(st).1
  {
    if st.queue != [] {
      var st1 := RunHead(st);
      var tail := Drained(st1).1;
      assert Drained(st) == (Drained(st1).0, RaisedBy(st.queue[0]) + tail);
      Regroup(ex, RaisedBy(st.queue[0]), tail);
    }
  }

  /** The head of the queue has not run before. */
  lemma HeadHasNotRun(st: State)
    requires Good(st) && st.queue != []
    ensures !HasRun(st.log, st.queue[0].id)
  {
    var log := st.log + [Ran(st.queue[0])];
    RunKeepsValid(st.log, st.queue[0]);
    forall i | 0 <= i < |st.log| && st.log[i].Ran? ensures st.log[i].action.id != st.queue[0].id {
      assert log[i] == st.log[i];
      NoActionRunsTwice(log, i, |st.log|);
    }
  }

  /** Running the head adds exactly its run to the runs of the log. */
  lemma MarksFollow(st: State)
    requires Good(st) && st.queue != []
    ensures forall id :: HasRun(RunHead(st).log, id) <==> id == st.queue[0].id || HasRun(st.log, id)
  {
    StartRunGood(st);
    ConstructAllGood(StartRun(st), st.queue[0].plan.spawns);
    RunsAfterOne(st.log, st.queue[0], RunHead(st).log);
  }

  lemma RunsAfterOne(log: seq<Event>, a: Action, log': seq<Event>)
    requires log + [Ran(a)] <= log' && forall i :: |log| < i < |log'| ==> log'[i].Added?
    ensures forall id :: HasRun(log', id) <==> id == a.id || HasRun(log, id)
  {
    assert log'[|log|] == (log + [Ran(a)])[|log|];
    assert forall i :: 0 <= i < |log| ==> log'[i] == (log + [Ran(a)])[i] == log[i];
    assert HasRun(log', a.id);
    forall id | HasRun(log, id) ensures HasRun(log', id) {
      var i :| 0 <= i < |log| && log[i].Ran? && log[i].action.id == id;
      assert log'[i] == log[i];
    }
  }
}
