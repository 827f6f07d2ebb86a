/**
 * The state of the cleanup module and of the services that wait for it: enqueuing an action with
 * what it needs, running one, and draining them all. Constructing an action enqueues it, so a
 * needed action is enqueued when it is made and once more by the action that needs it.
 */
module CleanupState {
  import opened Wrappers
  import opened CleanupQueue
  import opened CleanupRun

  /** The pending actions, the next identity, the running services by the identity of their callback, and the log. */
  datatype State = State(queue: seq<Action>, next: nat, services: seq<nat>, log: seq<Event>)

  ghost function Enqueue(st: State, a: Action): State {
    st.(queue := Add(st.queue, a), log := st.log + [Added(a)])
  }

  /** Enqueue an action; if its tag is new, make what it needs and enqueue that again. */
  ghost function AddAction(st: State, a: Action): State
    decreases a.plan, 1
  {
    if HasTag(st.queue, a.Tag()) then Enqueue(st, a)
    else
      var (st1, made) := ConstructAll(Enqueue(st, a), a.plan.needs);
      AddAgain(st1, a.plan.needs, made)
  }

  /** Constructing an action enqueues it; a service is listed before its callback is made. */
  ghost function Construct(st: State, plan: Plan): (r: (State, Action))
    ensures r.1 == Action(st.next, plan)
    decreases plan, 2
  {
    var a := Action(st.next, plan);
    (AddAction(Reserved(st, plan), a), a)
  }

  ghost function ConstructAll(st: State, plans: seq<Plan>): (r: (State, seq<Action>))
    ensures |r.1| == |plans| && forall i :: 0 <= i < |plans| ==> r.1[i].plan == plans[i]
    decreases plans, 0
  {
    if plans == [] then (st, [])
    else
      var n := |plans| - 1;
      var (st1, made) := ConstructAll(st, plans[..n]);
      var (st2, a) := Construct(st1, plans[n]);
      (st2, made + [a])
  }

  ghost function AddAgain(st: State, plans: seq<Plan>, made: seq<Action>): State
    requires |made| <= |plans| && forall i :: 0 <= i < |made| ==> made[i].plan == plans[i]
    decreases plans, |made|
  {
    if made == [] then st
    else
      var n := |made| - 1;
      AddAction(AddAgain(st, plans, made[..n]), made[n])
  }

  // ----- What every state keeps -----

  /** A service's callback only ever replaces itself, here and in everything the plan leads to. */
  ghost predicate WellFormed(plan: Plan) {
    && (plan.service ==> plan.kind.Distinct?)
    && (forall p :: p in plan.needs ==> WellFormed(p))
    && (forall p :: p in plan.spawns ==> WellFormed(p))
  }

  ghost predicate Base(st: State) {
    && st.queue == Pending(st.log) && ValidLog(st.log)
    && (forall e :: e in st.log ==> e.action.id < st.next && WellFormed(e.action.plan))
    && (forall i, j :: 0 <= i < j < |st.services| ==> st.services[i] != st.services[j])
    && (forall id :: id in st.services ==> id < st.next)
  }

  /** The listed services are those whose callback is pending, or about to be. */
  ghost predicate ServicesOf(services: seq<nat>, q: seq<Action>, extra: set<Action>) {
    forall id :: id in services <==> exists a :: (a in q || a in extra) && a.plan.service && a.id == id
  }

  ghost predicate Good(st: State) {
    Base(st) && ServicesOf(st.services, st.queue, {})
  }

  /** An action that may be enqueued: it has not run, and its identity is its own. */
  ghost predicate Addable(st: State, a: Action) {
    && a.id < st.next && WellFormed(a.plan)
    && (forall e :: e in st.log && e.action.id == a.id ==> e == Added(a))
    && ServicesOf(st.services, st.queue, {a})
  }

  /** Only additions happened, and services were only started. */
  ghost predicate Grows(st: State, st': State) {
    && st.log <= st'.log && (forall i :: |st.log| <= i < |st'.log| ==> st'.log[i].Added?)
    && st.next <= st'.next && st.services <= st'.services
  }

  lemma GrowsTransitive(a: State, b: State, c: State)
    requires Grows(a, b) && Grows(b, c)
    ensures Grows(a, c)
  {
  }

  lemma QueuedIsLogged(st: State, a: Action)
    requires Base(st) && a in st.queue
    ensures Added(a) in st.log && a.id < st.next
  {
    var i := PendingWasAdded(st.log, a);
  }

  lemma EnqueuedServices(st: State, a: Action)
    requires Base(st) && Addable(st, a)
    ensures ServicesOf(st.services, Enqueue(st, a).queue, {})
  {
    PendingIsOrdered(st.log);
    AddElements(st.queue, a);
    forall x | x in st.queue && x.Tag() == a.Tag() && x.plan.service ensures x == a {
      QueuedIsLogged(st, x);
    }
    var q := Enqueue(st, a).queue;
    forall id ensures id in st.services <==> exists x :: (x in q || x in {}) && x.plan.service && x.id == id {
      if x :| (x in st.queue || x in {a}) && x.plan.service && x.id == id {
        assert x in q || x in {};
      }
      if x :| (x in q || x in {}) && x.plan.service && x.id == id {
        assert x in st.queue || x in {a};
      }
    }
  }

  lemma EnqueuedTags(st: State, a: Action)
    requires Base(st)
    ensures a in Enqueue(st, a).queue
    ensures forall t :: HasTag(st.queue, t) ==> HasTag(Enqueue(st, a).queue, t)
  {
    var st' := Enqueue(st, a);
    PendingIsOrdered(st.log);
    AddElements(st.queue, a);
    forall t | HasTag(st.queue, t) ensures HasTag(st'.queue, t) {
      var x :| x in st.queue && x.Tag() == t;
      assert x.Tag() != a.Tag() ==> x in st'.queue;
      assert a in st'.queue;
    }
  }

  lemma EnqueueBase(st: State, a: Action)
    requires Base(st) && Addable(st, a)
    ensures Base(Enqueue(st, a))
  {
    PendingSnoc(st.log, Added(a));
    ValidSnoc(st.log, Added(a));
  }

  lemma EnqueueGood(st: State, a: Action)
    requires Base(st) && Addable(st, a)
    ensures Good(Enqueue(st, a)) && Grows(st, Enqueue(st, a)) && Added(a) in Enqueue(st, a).log
    ensures HasTag(Enqueue(st, a).queue, a.Tag()) && KeepsTags(st, Enqueue(st, a))
  {
    EnqueueBase(st, a);
    EnqueueGrows(st, a);
    EnqueuedServices(st, a);
    EnqueuedTags(st, a);
  }

  lemma EnqueueGrows(st: State, a: Action)
    ensures Grows(st, Enqueue(st, a)) && Added(a) in Enqueue(st, a).log
  {
    var log := Enqueue(st, a).log;
    assert log[|st.log|] == Added(a);
  }

  /** Tags, once pending, stay pending while actions are only added. */
  ghost predicate KeepsTags(st: State, st': State) {
    forall t :: HasTag(st.queue, t) ==> HasTag(st'.queue, t)
  }

  /** An action made since the identity `start` was next. */
  ghost predicate Made(st: State, a: Action, start: nat) {
    && Added(a) in st.log && start <= a.id < st.next && WellFormed(a.plan)
    && (a.plan.service ==> a.id in st.services) && HasTag(st.queue, a.Tag())
  }

  lemma MadeIsAddable(st0: State, st: State, a: Action)
    requires Base(st0) && Good(st) && Grows(st0, st) && Made(st, a, st0.next)
    ensures Addable(st, a)
  {
    assert forall i :: 0 <= i < |st0.log| ==> st.log[i] == st0.log[i] && st0.log[i] in st0.log;
    forall e | e in st.log && e.action.id == a.id ensures e == Added(a) {
      assert e.action == Added(a).action;
    }
  }

  lemma MadeLater(st: State, st': State, a: Action, start: nat)
    requires Made(st, a, start) && Grows(st, st') && KeepsTags(st, st')
    ensures Made(st', a, start)
  {
    var i :| 0 <= i < |st.log| && st.log[i] == Added(a);
    assert st'.log[i] == Added(a);
    if a.plan.service {
      var k :| 0 <= k < |st.services| && st.services[k] == a.id;
      assert st'.services[k] == a.id;
    }
  }

  lemma {:induction false} AddActionGood(st: State, a: Action)
    requires Base(st) && Addable(st, a)
    ensures var st' := AddAction(st, a);
            Good(st') && Grows(st, st') && KeepsTags(st, st') && Added(a) in st'.log && HasTag(st'.queue, a.Tag())
    decreases a.plan, 1
  {
    var st1 := Enqueue(st, a);
    EnqueueGood(st, a);
    if !HasTag(st.queue, a.Tag()) {
      var (st2, made) := ConstructAll(st1, a.plan.needs);
      ConstructAllGood(st1, a.plan.needs);
      AddAgainGood(st1, st2, a.plan.needs, made);
      var st3 := AddAgain(st2, a.plan.needs, made);
      GrowsTransitive(st1, st2, st3);
      GrowsTransitive(st, st1, st3);
    }
  }

  /** The state just before a new action enqueues itself. */
  ghost function Reserved(st: State, plan: Plan): State {
    st.(next := st.next + 1, services := if plan.service then st.services + [st.next] else st.services)
  }

  lemma ServicesWithNew(st: State, a: Action)
    requires Good(st) && a.id == st.next
    ensures ServicesOf(Reserved(st, a.plan).services, st.queue, {a})
  {
    var services := Reserved(st, a.plan).services;
    forall id ensures id in services <==> exists x :: (x in st.queue || x in {a}) && x.plan.service && x.id == id {
      if id in st.services {
        var x :| (x in st.queue || x in {}) && x.plan.service && x.id == id;
        assert x in st.queue || x in {a};
      }
      if id == a.id && a.plan.service {
        assert a in {a} && services[|st.services|] == id;
      }
      if x :| (x in st.queue || x in {a}) && x.plan.service && x.id == id {
        if x in st.queue {
          assert x in st.queue || x in {};
          assert id in st.services;
        }
      }
    }
  }

  lemma ReservedAddable(st: State, a: Action)
    requires Good(st) && a.id == st.next && WellFormed(a.plan)
    ensures Base(Reserved(st, a.plan)) && Addable(Reserved(st, a.plan), a)
  {
    ServicesWithNew(st, a);
    assert forall i :: 0 <= i < |st.services| ==> st.services[i] in st.services;
  }

  lemma {:induction false} ConstructGood(st: State, plan: Plan)
    requires Good(st) && WellFormed(plan)
    ensures var (st', a) := Construct(st, plan);
            Good(st') && Grows(st, st') && KeepsTags(st, st') && Made(st', a, st.next)
    decreases plan, 2
  {
    var a, st1 := Action(st.next, plan), Reserved(st, plan);
    ReservedAddable(st, a);
    AddActionGood(st1, a);
    var st' := AddAction(st1, a);
    if plan.service {
      assert st1.services[|st.services|] == a.id;
      assert st'.services[|st.services|] == a.id;
    }
  }

  lemma {:induction false} ConstructAllGood(st: State, plans: seq<Plan>)
    requires Good(st) && forall p :: p in plans ==> WellFormed(p)
    ensures var (st', made) := ConstructAll(st, plans);
            && Good(st') && Grows(st, st') && KeepsTags(st, st')
            && forall i :: 0 <= i < |made| ==> Made(st', made[i], st.next)
    decreases plans, 0
  {
    if plans != [] {
      var n := |plans| - 1;
      var (st1, made) := ConstructAll(st, plans[..n]);
      ConstructAllGood(st, plans[..n]);
      assert plans[n] in plans;
      var (st2, a) := Construct(st1, plans[n]);
      ConstructGood(st1, plans[n]);
      GrowsTransitive(st, st1, st2);
      OneMoreMade(st1, st2, made, a, st.next);
    }
  }

  lemma OneMoreMade(st: State, st': State, made: seq<Action>, a: Action, start: nat)
    requires (forall i :: 0 <= i < |made| ==> Made(st, made[i], start)) && Grows(st, st') && KeepsTags(st, st') && Made(st', a, start)
    ensures forall i :: 0 <= i < |made + [a]| ==> Made(st', (made + [a])[i], start)
  {
    var more := made + [a];
    forall i | 0 <= i < |more| ensures Made(st', more[i], start) {
      if i < |made| {
        assert more[i] == made[i];
        MadeLater(st, st', made[i], start);
      }
    }
  }

  lemma {:induction false} AddAgainGood(st0: State, st: State, plans: seq<Plan>, made: seq<Action>)
    requires Base(st0) && Good(st) && Grows(st0, st)
    requires |made| <= |plans| && forall i :: 0 <= i < |made| ==> made[i].plan == plans[i]
    requires forall i :: 0 <= i < |made| ==> Made(st, made[i], st0.next)
    ensures var st' := AddAgain(st, plans, made);
            Good(st') && Grows(st, st') && KeepsTags(st, st') && st'.queue == AddAll(st.queue, made)
    decreases plans, |made|
  {
    if made != [] {
      var n := |made| - 1;
      var st1, c := AddAgain(st, plans, made[..n]), made[n];
      AddAgainGood(st0, st, plans, made[..n]);
      GrowsTransitive(st0, st, st1);
      MadeLater(st, st1, c, st0.next);
      MadeIsAddable(st0, st1, c);
      AddActionGood(st1, c);
      assert AddAction(st1, c) == Enqueue(st1, c);
      GrowsTransitive(st, st1, AddAction(st1, c));
    }
  }

  // ----- Running -----

  /** The position of a number in a list, or the length of the list. */
  function Find(s: seq<nat>, x: nat): (i: nat)
    ensures i <= |s| && (i < |s| <==> x in s) && (i < |s| ==> s[i] == x) && forall k :: 0 <= k < i ==> s[k] != x
  {
    if s == [] || s[0] == x then 0 else 1 + Find(s[1..], x)
  }

  /** An action taken from the queue starts to run; if it stops a service, the service leaves its list. */
  ghost function Started(st: State, a: Action): State {
    State(st.queue, st.next,
          if a.plan.service then DeleteAt(st.services, Find(st.services, a.id)) else st.services,
          st.log + [Ran(a)])
  }

  ghost function StartRun(st: State): State
    requires st.queue != []
  {
    Started(st.(queue := st.queue[1..]), st.queue[0])
  }

  /** Running the head: whatever it does, it may enqueue further actions. */
  ghost function RunHead(st: State): State
    requires st.queue != []
  {
    ConstructAll(StartRun(st), st.queue[0].plan.spawns).0
  }

  lemma RunKeepsValid(log: seq<Event>, a: Action)
    requires ValidLog(log) && Pending(log) != [] && Pending(log)[0] == a
    ensures ValidLog(log + [Ran(a)])
  {
    var k := PendingWasAdded(log, a);
    assert Added(a) in log;
    ValidSnoc(log, Ran(a));
  }

  lemma ServicesWithout(st: State)
    requires Good(st) && st.queue != []
    ensures ServicesOf(StartRun(st).services, st.queue[1..], {})
    ensures forall id :: id in StartRun(st).services <==> id in st.services && !(st.queue[0].plan.service && id == st.queue[0].id)
    ensures st.queue[0].plan.service ==> st.queue[0].id in st.services
  {
    var a, q := st.queue[0], st.queue;
    PendingIsOrdered(st.log);
    if a.plan.service {
      assert a in q || a in {};
      assert a.id in st.services;
      DeletedElements(st.services, Find(st.services, a.id));
    }
    QueuedIsLogged(st, a);
    forall x | x in q && x.id == a.id ensures x == a {
      QueuedIsLogged(st, x);
    }
    forall x ensures x in q[1..] <==> x in q && x != a { HeadLeaves(q, x); }
    forall id ensures id in StartRun(st).services <==> exists x :: (x in q[1..] || x in {}) && x.plan.service && x.id == id {
      if id in StartRun(st).services {
        var x :| (x in q || x in {}) && x.plan.service && x.id == id;
        assert x in q[1..] || x in {};
      }
      if x :| (x in q[1..] || x in {}) && x.plan.service && x.id == id {
        assert x in q || x in {};
        assert id in st.services;
      }
    }
  }

  lemma StaysDistinct(s: seq<nat>, i: nat)
    requires forall k, l :: 0 <= k < l < |s| ==> s[k] != s[l]
    ensures var r := DeleteAt(s, i); forall k, l :: 0 <= k < l < |r| ==> r[k] != r[l]
  {
    var r := DeleteAt(s, i);
    forall k, l | 0 <= k < l < |r| ensures r[k] != r[l] {
      if i < |s| {
        assert r[k] == s[if k < i then k else k + 1] && r[l] == s[if l < i then l else l + 1];
      }
    }
  }

  lemma StartRunLog(st: State)
    requires Good(st) && st.queue != []
    ensures var st' := StartRun(st);
            && st'.queue == Pending(st'.log) && ValidLog(st'.log) && WellFormed(st.queue[0].plan)
            && (forall e :: e in st'.log ==> e.action.id < st'.next && WellFormed(e.action.plan))
  {
    var a := st.queue[0];
    RunKeepsValid(st.log, a);
    PendingSnoc(st.log, Ran(a));
    QueuedIsLogged(st, a);
  }

  lemma StartRunGood(st: State)
    requires Good(st) && st.queue != []
    ensures Good(StartRun(st)) && WellFormed(st.queue[0].plan)
  {
    StartRunLog(st);
    ServicesWithout(st);
    StaysDistinct(st.services, Find(st.services, st.queue[0].id));
  }

  lemma RunHeadGood(st: State)
    requires Good(st) && st.queue != []
    ensures Good(RunHead(st)) && st.log + [Ran(st.queue[0])] <= RunHead(st).log
  {
    StartRunGood(st);
    ConstructAllGood(StartRun(st), st.queue[0].plan.spawns);
  }

  // ----- Draining ends -----

  /** How many further enqueues an action can lead to once it is pending, counting itself. */
  ghost function Weight(plan: Plan): nat
    decreases plan, 0
  {
    1 + Weights(plan.spawns)
  }

  /** How much enqueuing the plans can add to the queue, with all they need. */
  ghost function Weights(plans: seq<Plan>): nat
    decreases plans, 0
  {
    if plans == [] then 0
    else
      var n := |plans| - 1;
      Weights(plans[..n]) + Weight(plans[n]) + 2 * Weights(plans[n].needs)
  }

  /** What f gives for each element, together. */
  ghost function Total<T>(f: T -> nat, s: seq<T>): nat {
    if s == [] then 0 else f(s[0]) + Total(f, s[1..])
  }

  lemma {:induction false} TotalJoin<T>(f: T -> nat, a: seq<T>, b: seq<T>)
    ensures Total(f, a + b) == Total(f, a) + Total(f, b)
  {
    if a == [] {
      assert a + b == b;
    } else {
      TotalJoin(f, a[1..], b);
      assert (a + b)[0] == a[0] && (a + b)[1..] == a[1..] + b;
    }
  }

  lemma TotalInserted<T>(f: T -> nat, l: seq<T>, x: T, r: seq<T>)
    ensures Total(f, l + [x] + r) == Total(f, l + r) + f(x)
  {
    TotalJoin(f, l + [x], r);
    TotalJoin(f, l, [x]);
    TotalJoin(f, l, r);
    assert [x][1..] == [];
  }

  ghost function ActionWeight(a: Action): nat {
    Weight(a.plan)
  }

  ghost function QueueWeight(q: seq<Action>): nat {
    Total(ActionWeight, q)
  }

  lemma DeletedWeight(q: seq<Action>, i: nat)
    ensures QueueWeight(DeleteAt(q, i)) <= QueueWeight(q)
  {
    if i < |q| {
      TotalInserted(ActionWeight, q[..i], q[i], q[i+1..]);
      assert q == q[..i] + [q[i]] + q[i+1..];
    }
  }

  lemma InsertedWeight(q: seq<Action>, i: nat, a: Action)
    requires i <= |q|
    ensures QueueWeight(InsertAt(q, i, a)) == QueueWeight(q) + Weight(a.plan)
  {
    TotalInserted(ActionWeight, q[..i], a, q[i..]);
    assert q == q[..i] + q[i..];
  }

  lemma AddWeight(q: seq<Action>, a: Action)
    ensures QueueWeight(Add(q, a)) <= QueueWeight(q) + Weight(a.plan)
  {
    var rest := Removed(q, a.Tag());
    DeletedWeight(q, FindTag(q, a.Tag()));
    InsertedWeight(rest, FindPriority(rest, a.Priority()), a);
  }

  lemma {:induction false} AddActionWeight(st: State, a: Action)
    ensures QueueWeight(AddAction(st, a).queue) <= QueueWeight(st.queue) + Weight(a.plan) + 2 * Weights(a.plan.needs)
    decreases a.plan, 1
  {
    AddWeight(st.queue, a);
    if !HasTag(st.queue, a.Tag()) {
      var st1 := Enqueue(st, a);
      var (st2, made) := ConstructAll(st1, a.plan.needs);
      ConstructAllWeight(st1, a.plan.needs);
      AddAgainWeight(st2, a.plan.needs, made);
      assert a.plan.needs[..|made|] == a.plan.needs;
    }
  }

  lemma {:induction false} ConstructAllWeight(st: State, plans: seq<Plan>)
    ensures QueueWeight(ConstructAll(st, plans).0.queue) <= QueueWeight(st.queue) + Weights(plans)
    decreases plans, 0
  {
    if plans != [] {
      var n := |plans| - 1;
      var (st1, made) := ConstructAll(st, plans[..n]);
      ConstructAllWeight(st, plans[..n]);
      AddActionWeight(Reserved(st1, plans[n]), Action(st1.next, plans[n]));
    }
  }

  lemma {:induction false} AddAgainWeight(st: State, plans: seq<Plan>, made: seq<Action>)
    requires |made| <= |plans| && forall i :: 0 <= i < |made| ==> made[i].plan == plans[i]
    ensures QueueWeight(AddAgain(st, plans, made).queue) <= QueueWeight(st.queue) + Weights(plans[..|made|])
    decreases plans, |made|
  {
    if made != [] {
      var n := |made| - 1;
      AddAgainWeight(st, plans, made[..n]);
      AddActionWeight(AddAgain(st, plans, made[..n]), made[n]);
      assert plans[..|made|][..n] == plans[..n];
    }
  }

  lemma RunHeadWeight(st: State)
    requires st.queue != []
    ensures QueueWeight(RunHead(st).queue) < QueueWeight(st.queue)
  {
    ConstructAllWeight(StartRun(st), st.queue[0].plan.spawns);
  }

  /** The exception of one run, if any. */
  function RaisedBy(a: Action): seq<nat> {
    if a.plan.raises then [a.id] else []
  }

  /** Run head after head until nothing is pending; the exceptions come in run order. */
  ghost function Drained(st: State): (r: (State, seq<nat>))
    ensures r.0.queue == []
    decreases QueueWeight(st.queue)
  {
    if st.queue == [] then (st, [])
    else
      RunHeadWeight(st);
      var (end, raised) := Drained(RunHead(st));
      (end, RaisedBy(st.queue[0]) + raised)
  }

  function RaisedAt(e: Event): seq<nat> {
    if e.Ran? then RaisedBy(e.action) else []
  }

  /** The exceptions of the runs recorded in a log. */
  function RaisedIn(log: seq<Event>): seq<nat> {
    if log == [] then [] else RaisedAt(log[0]) + RaisedIn(log[1..])
  }

  lemma {:induction false} RaisedInJoin(a: seq<Event>, b: seq<Event>)
    ensures RaisedIn(a + b) == RaisedIn(a) + RaisedIn(b)
  {
    var ab := a + b;
    if a == [] {
      assert ab == b;
    } else {
      RaisedInJoin(a[1..], b);
      assert ab[0] == a[0] && ab[1..] == a[1..] + b;
      Regroup(RaisedAt(a[0]), RaisedIn(a[1..]), RaisedIn(b));
    }
  }

  lemma {:induction false} AdditionsRaiseNothing(log: seq<Event>)
    requires forall i :: 0 <= i < |log| ==> log[i].Added?
    ensures RaisedIn(log) == []
  {
    if log != [] { AdditionsRaiseNothing(log[1..]); }
  }

  /** What a longer log records after a shorter one. */
  function Since(log: seq<Event>, log': seq<Event>): seq<Event> {
    if |log| <= |log'| then log'[|log|..] else []
  }

  lemma RunHeadRaises(st: State)
    requires Good(st) && st.queue != []
    ensures st.log <= RunHead(st).log && RaisedIn(Since(st.log, RunHead(st).log)) == RaisedBy(st.queue[0])
  {
    StartRunGood(st);
    var st1 := StartRun(st);
    ConstructAllGood(st1, st.queue[0].plan.spawns);
    RunThenAdditions(st.log, st.queue[0], RunHead(st).log);
  }

  lemma RunThenAdditions(log: seq<Event>, a: Action, log': seq<Event>)
    requires log + [Ran(a)] <= log' && forall i :: |log| < i < |log'| ==> log'[i].Added?
    ensures log <= log' && RaisedIn(Since(log, log')) == RaisedBy(a)
  {
    var more := log'[|log|+1..];
    assert log'[|log|] == (log + [Ran(a)])[|log|];
    assert log'[|log|..] == [Ran(a)] + more;
    RaisedInJoin([Ran(a)], more);
    AdditionsRaiseNothing(more);
    assert RaisedIn([Ran(a)]) == RaisedBy(a) by { assert [Ran(a)][1..] == []; }
  }

  lemma SinceJoin(a: seq<Event>, b: seq<Event>, c: seq<Event>)
    requires a <= b <= c
    ensures a <= c && Since(a, c) == Since(a, b) + Since(b, c)
  {
  }

  lemma NoneListed(st: State)
    requires Good(st) && st.queue == []
    ensures st.services == []
  {
    if st.services != [] {
      var id := FirstListed(st.services);
    }
  }

  lemma FirstListed(services: seq<nat>) returns (id: nat)
    requires services != []
    ensures id in services
  {
    id := services[0];
  }

  /**
   * Draining ends with no action pending and no service listed, in a valid log; the exceptions
   * are exactly those of the runs, in run order.
   */
  lemma {:induction false} DrainingIsComplete(st: State)
    requires Good(st)
    ensures var (end, raised) := Drained(st);
            && Good(end) && end.queue == [] && end.services == [] && st.log <= end.log
            && raised == RaisedIn(Since(st.log, end.log))
    decreases QueueWeight(st.queue)
  {
    if st.queue == [] {
      NoneListed(st);
    } else {
      RunHeadWeight(st);
      RunHeadGood(st);
      RunHeadRaises(st);
      var st1, log := RunHead(st), Drained(st).0.log;
      DrainingIsComplete(st1);
      assert log == Drained(st1).0.log;
      SinceJoin(st.log, st1.log, log);
      RaisedInJoin(Since(st.log, st1.log), Since(st1.log, log));
    }
  }

  /** In a drained log every action ever added ran after its last addition, unless another action replaced it there. */
  lemma DrainedRunsAll(st: State, i: nat)
    requires Good(st)
    requires var log := Drained(st).0.log; i < |log| && log[i].Added?
    ensures var log := Drained(st).0.log;
            exists j :: i < j < |log| && (log[j] == Ran(log[i].action) || (log[j].Added? && log[j].action.Tag() == log[i].action.Tag()))
  {
    DrainingIsComplete(st);
    EveryAdditionEnds(Drained(st).0.log, i);
  }

  /** No later action can displace the callback of a running service: only the callback itself has its tag. */
  lemma ServiceIsNotDisplaced(st: State, a: Action, b: Action)
    requires Base(st) && Addable(st, b) && a in st.queue && a.plan.service
    ensures a in Enqueue(st, b).queue
  {
    QueuedIsLogged(st, a);
    PendingIsOrdered(st.log);
    AddElements(st.queue, b);
  }

  lemma NothingNeeded(st: State, a: Action)
    requires a.plan.needs == []
    ensures AddAction(st, a) == Enqueue(st, a)
  {
  }

  /** Constructing actions that need nothing themselves just adds them. */
  lemma {:induction false} ConstructPlain(st: State, plans: seq<Plan>)
    requires forall p :: p in plans ==> p.needs == []
    ensures ConstructAll(st, plans).0.queue == AddAll(st.queue, ConstructAll(st, plans).1)
    decreases plans
  {
    if plans != [] {
      var n := |plans| - 1;
      var (st1, made) := ConstructAll(st, plans[..n]);
      ConstructPlain(st, plans[..n]);
      var a := Action(st1.next, plans[n]);
      NothingNeeded(Reserved(st1, plans[n]), a);
      AddAllSnoc(st.queue, made, a);
    }
  }

  /**
   * What an action needs is enqueued when it is constructed and again by the action that needs it.
   * For needs without needs of their own, the queue is as if each had been enqueued once.
   */
  lemma NeededTwiceIsOnce(st: State, a: Action)
    requires Base(st) && Addable(st, a) && !HasTag(st.queue, a.Tag()) && forall p :: p in a.plan.needs ==> p.needs == []
    ensures var made := ConstructAll(Enqueue(st, a), a.plan.needs).1;
            AddAction(st, a).queue == AddAll(Add(st.queue, a), made)
  {
    var st1 := Enqueue(st, a);
    var (st2, made) := ConstructAll(st1, a.plan.needs);
    EnqueueGood(st, a);
    ConstructAllGood(st1, a.plan.needs);
    AddAgainGood(st1, st2, a.plan.needs, made);
    ConstructPlain(st1, a.plan.needs);
    PendingIsOrdered(st1.log);
    ListTwiceFrom(st1.queue, made);
  }

  /**
   * Whatever the needed actions need themselves: enqueuing them again changes nothing exactly if in
   * each priority they are in front already, so exactly if nothing they need was put before them.
   */
  lemma NeededAgain(st: State, a: Action)
    requires Base(st) && Addable(st, a) && !HasTag(st.queue, a.Tag())
    ensures var (st1, made) := ConstructAll(Enqueue(st, a), a.plan.needs);
            && AddAction(st, a).queue == AddAll(st1.queue, made)
            && (AddAction(st, a).queue == st1.queue <==> InFrontAlready(st1.queue, made))
  {
    var st0 := Enqueue(st, a);
    var (st1, made) := ConstructAll(st0, a.plan.needs);
    EnqueueGood(st, a);
    ConstructAllGood(st0, a.plan.needs);
    AddAgainGood(st0, st1, a.plan.needs, made);
    PendingIsOrdered(st1.log);
    AddAllChangesNothing(st1.queue, made);
  }

  lemma OneNeed(st: State, a: Action, p: Plan)
    requires a.plan.needs == [p] && !HasTag(st.queue, a.Tag())
    ensures var (st1, c) := Construct(Enqueue(st, a), p); AddAction(st, a) == AddAction(st1, c)
  {
    var st0 := Enqueue(st, a);
    var (st1, c) := Construct(st0, p);
    assert [p][..0] == [] && [c][..0] == [] && [] + [c] == [c];
    assert ConstructAll(st0, []) == (st0, []);
    assert ConstructAll(st0, [p]).0 == st1;
    assert ConstructAll(st0, [p]).1 == [c];
    assert AddAgain(st1, [p], []) == st1;
    assert AddAgain(st1, [p], [c]) == AddAction(st1, c);
  }

  /** One need without needs of its own is enqueued twice in a row. */
  lemma OnePlainNeed(st: State, b: Action, c: Action)
    requires b.plan.needs == [c.plan] && c.plan.needs == [] && !HasTag(st.queue, b.Tag()) && c.id == st.next
    ensures AddAction(st, b) == Enqueue(Enqueue(Reserved(Enqueue(st, b), c.plan), c), c)
  {
    OneNeed(st, b, c.plan);
    var st1 := Reserved(Enqueue(st, b), c.plan);
    NothingNeeded(st1, c);
    NothingNeeded(Enqueue(st1, c), c);
  }

  lemma EqualPriorities(q: seq<Action>, x: Action, r: seq<Action>)
    requires forall k :: 0 <= k < |q| ==> q[k].Tag() != x.Tag() && q[k].Priority() == x.Priority()
    requires r == [x] + q
    ensures Add(q, x) == r && Add(r, x) == r && !HasTag(q, x.Tag())
  {
    InFront(q, x);
    assert FindTag(r, x.Tag()) == 0;
    assert Removed(r, x.Tag()) == q;
  }

  /** The middle one of three actions of one priority moves to the front when it is added again. */
  lemma BackToFront(a: Action, b: Action, c: Action)
    requires a.Priority() == b.Priority() == c.Priority() && a.Tag() != b.Tag() && b.Tag() != c.Tag() && c.Tag() != a.Tag()
    ensures Add([c, b, a], b) == [b, c, a]
  {
    var q := [c, b, a];
    assert q[1] == b && q[0].Tag() != b.Tag();
    FindUnique(q, 1);
    assert Removed(q, b.Tag()) == [c, a];
    EqualPriorities([c, a], b, [b, c, a]);
  }

  lemma ConstructWithNeed(st: State, b: Action, c: Action, q: seq<Action>)
    requires b.plan.needs == [c.plan] && c.plan.needs == [] && b.id == st.next && c.id == st.next + 1
    requires !HasTag(st.queue, b.Tag()) && q == Add(Add(st.queue, b), c) && Add(q, c) == q
    ensures Construct(st, b.plan).0.queue == q && Construct(st, b.plan).1 == b
  {
    OnePlainNeed(Reserved(st, b.plan), b, c);
  }

  lemma AgainInFront(st: State, a: Action, b: Action, q: seq<Action>)
    requires a.plan.needs == [b.plan] && !HasTag(st.queue, a.Tag()) && b.id == st.next
    requires q == Construct(Enqueue(st, a), b.plan).0.queue && HasTag(q, b.Tag())
    ensures AddAction(st, a).queue == Add(q, b)
  {
    OneNeed(st, a, b.plan);
  }

  lemma SecondInFront(a: Action, b: Action)
    requires a.Priority() == b.Priority() && a.Tag() != b.Tag()
    ensures Add([a], b) == [b, a] && !HasTag([a], b.Tag())
  {
    EqualPriorities([a], b, [b, a]);
  }

  lemma ThirdInFront(a: Action, b: Action, c: Action)
    requires a.Priority() == b.Priority() == c.Priority() && b.Tag() != c.Tag() && c.Tag() != a.Tag()
    ensures Add([b, a], c) == [c, b, a] && Add([c, b, a], c) == [c, b, a]
  {
    EqualPriorities([b, a], c, [c, b, a]);
  }

  /**
   * If a needs b, b needs c, and all have one priority, enqueuing a constructs c last and leaves it
   * first; the second enqueuing of b then puts b before c.
   */
  lemma NeededAgainReorders(st: State, a: Action, b: Action, c: Action)
    requires st.queue == [] && b.id == st.next && c.id == st.next + 1
    requires a.plan.needs == [b.plan] && b.plan.needs == [c.plan] && c.plan.needs == []
    requires a.Priority() == b.Priority() == c.Priority() && a.Tag() != b.Tag() && b.Tag() != c.Tag() && c.Tag() != a.Tag()
    ensures Construct(Enqueue(st, a), b.plan).0.queue == [c, b, a] && AddAction(st, a).queue == [b, c, a]
  {
    var q := [c, b, a];
    assert Enqueue(st, a).queue == [a] && !HasTag(st.queue, a.Tag()) by { EqualPriorities([], a, [a]); }
    assert Construct(Enqueue(st, a), b.plan).0.queue == q by {
      SecondInFront(a, b);
      ThirdInFront(a, b, c);
      ConstructWithNeed(Enqueue(st, a), b, c, q);
    }
    assert AddAction(st, a).queue == Add(q, b) by {
      assert q[1] == b;
      AgainInFront(st, a, b, q);
    }
    BackToFront(a, b, c);
  }
}
