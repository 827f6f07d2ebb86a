/**
 * The queue of pending cleanups: one action for each unique tag, ordered by priority, the newest
 * first among equals. Its primitive operation, and the declarative queue it maintains.
 */
module CleanupQueue {

  /** How an action says which others it replaces: only itself, its class, or its class with arguments. */
  datatype TagKind = Distinct | PerClass | PerArgs(args: seq<string>)

  datatype UniqueTag = ById(id: nat) | ByClass(cls: string) | ByArgs(cls: string, args: seq<string>)

  /**
   * What an action is made from: besides its tag and priority, whether running it raises, whether
   * it stops a service, what it also needs when it is enqueued, and what running it enqueues.
   */
  datatype Plan = Plan(cls: string, kind: TagKind, priority: int, raises: bool, service: bool,
                       needs: seq<Plan>, spawns: seq<Plan>)

  /** An action object; the number is its identity. */
  datatype Action = Action(id: nat, plan: Plan) {
    function Tag(): UniqueTag {
      match plan.kind
      case Distinct => ById(id)
      case PerClass => ByClass(plan.cls)
      case PerArgs(args) => ByArgs(plan.cls, args)
    }

    function Priority(): int { plan.priority }
  }

  // ----- The primitive operation -----

  /** The position of the first action with the tag, or the length of the queue. */
  function FindTag(q: seq<Action>, tag: UniqueTag): (i: nat)
    ensures i <= |q| && (i < |q| ==> q[i].Tag() == tag) && forall k :: 0 <= k < i ==> q[k].Tag() != tag
  {
    if q == [] || q[0].Tag() == tag then 0 else 1 + FindTag(q[1..], tag)
  }

  /** The position of the first action whose priority is not smaller, or the length of the queue. */
  function FindPriority(q: seq<Action>, priority: int): (i: nat)
    ensures i <= |q| && (i < |q| ==> q[i].Priority() >= priority) && forall k :: 0 <= k < i ==> q[k].Priority() < priority
  {
    if q == [] || q[0].Priority() >= priority then 0 else 1 + FindPriority(q[1..], priority)
  }

  function DeleteAt<T>(q: seq<T>, i: nat): (r: seq<T>)
    ensures i < |q| ==> |r| == |q| - 1 && forall k :: 0 <= k < |r| ==> r[k] == q[if k < i then k else k + 1]
    ensures i >= |q| ==> r == q
  {
    if i < |q| then q[..i] + q[i+1..] else q
  }

  function InsertAt<T>(q: seq<T>, i: nat, x: T): (r: seq<T>)
    requires i <= |q|
    ensures |r| == |q| + 1
    ensures forall k {:trigger r[k]} :: 0 <= k < |r| ==> r[k] == if k < i then q[k] else if k == i then x else q[k-1]
  {
    q[..i] + [x] + q[i..]
  }

  lemma DeletedElements<T>(q: seq<T>, i: nat)
    requires i < |q| && forall k, l :: 0 <= k < l < |q| ==> q[k] != q[l]
    ensures forall x :: x in DeleteAt(q, i) <==> x in q && x != q[i]
  {
    var r := DeleteAt(q, i);
    forall x ensures x in r <==> x in q && x != q[i] {
      if x in q && x != q[i] {
        var k :| 0 <= k < |q| && q[k] == x;
        assert r[if k < i then k else k - 1] == x;
      }
      if x in r {
        var k :| 0 <= k < |r| && r[k] == x;
        assert q[if k < i then k else k + 1] == x;
      }
    }
  }

  lemma InsertedElements<T>(q: seq<T>, i: nat, x: T)
    requires i <= |q|
    ensures forall y :: y in InsertAt(q, i, x) <==> y == x || y in q
  {
    assert q == q[..i] + q[i..];
  }

  predicate HasTag(q: seq<Action>, tag: UniqueTag) {
    exists a :: a in q && a.Tag() == tag
  }

  function Removed(q: seq<Action>, tag: UniqueTag): seq<Action> {
    DeleteAt(q, FindTag(q, tag))
  }

  function Add(q: seq<Action>, a: Action): seq<Action> {
    var rest := Removed(q, a.Tag());
    InsertAt(rest, FindPriority(rest, a.Priority()), a)
  }

  function AddAll(q: seq<Action>, h: seq<Action>): seq<Action> {
    if h == [] then q else Add(AddAll(q, h[..|h|-1]), h[|h|-1])
  }

  // ----- What the queue is -----

  ghost predicate Ordered(q: seq<Action>) {
    && (forall i, j :: 0 <= i < j < |q| ==> q[i].Priority() <= q[j].Priority())
    && (forall i, j :: 0 <= i < j < |q| ==> q[i].Tag() != q[j].Tag())
  }

  /** The i-th addition is the last of its tag. */
  ghost predicate LastOfTag(h: seq<Action>, i: nat) {
    i < |h| && forall j :: i < j < |h| ==> h[j].Tag() != h[i].Tag()
  }

  /** Smaller priorities go first, and newer additions among equal ones. */
  ghost predicate Precedes(h: seq<Action>, i: nat, j: nat) {
    && i < |h| && j < |h|
    && (h[i].Priority() < h[j].Priority() || (h[i].Priority() == h[j].Priority() && i > j))
  }

  ghost predicate InOrder(h: seq<Action>, idx: seq<nat>) {
    (forall k :: 0 <= k < |idx| ==> idx[k] < |h|) && forall k, l :: 0 <= k < l < |idx| ==> Precedes(h, idx[k], idx[l])
  }

  ghost predicate At(h: seq<Action>, idx: seq<nat>, q: seq<Action>) {
    |q| == |idx| && forall k :: 0 <= k < |idx| ==> idx[k] < |h| && q[k] == h[idx[k]]
  }

  /** The queue q lists, in order, the last addition of each tag; idx are their positions in the history. */
  ghost predicate Describes(h: seq<Action>, idx: seq<nat>, q: seq<Action>) {
    InOrder(h, idx) && At(h, idx, q) && forall i: nat :: i in idx <==> LastOfTag(h, i)
  }

  /** The history determines the queue. */
  lemma DescriptionIsUnique(h: seq<Action>, idx: seq<nat>, q: seq<Action>, idx': seq<nat>, q': seq<Action>)
    requires Describes(h, idx, q) && Describes(h, idx', q')
    ensures q == q'
  {
    SamePositions(h, idx, idx');
  }

  lemma {:induction false} SamePositions(h: seq<Action>, a: seq<nat>, b: seq<nat>)
    requires InOrder(h, a) && InOrder(h, b) && forall i: nat :: i in a <==> i in b
    ensures a == b
    decreases |a|
  {
    assert forall k :: 0 <= k < |b| ==> b[k] in a;
    assert forall k :: 0 <= k < |a| ==> a[k] in b;
    if a != [] {
      assert a[0] in b && b != [];
      assert b[0] in a;
      var k :| 0 <= k < |b| && b[k] == a[0];
      var l :| 0 <= l < |a| && a[l] == b[0];
      assert k == 0;
      forall i: nat ensures i in a[1..] <==> i in b[1..] {
        assert i in a[1..] ==> Precedes(h, a[0], i);
        assert i in b[1..] ==> Precedes(h, b[0], i);
        assert i in a <==> i == a[0] || i in a[1..];
        assert i in b <==> i == b[0] || i in b[1..];
      }
      SamePositions(h, a[1..], b[1..]);
    }
  }

  lemma DescribedIsOrdered(h: seq<Action>, idx: seq<nat>, q: seq<Action>)
    requires Describes(h, idx, q)
    ensures Ordered(q)
  {
    forall k, l | 0 <= k < l < |q| ensures q[k].Priority() <= q[l].Priority() && q[k].Tag() != q[l].Tag() {
      assert Precedes(h, idx[k], idx[l]) && idx[k] != idx[l];
      assert idx[k] in idx && idx[l] in idx;
    }
  }

  lemma InOrderIsDistinct(h: seq<Action>, idx: seq<nat>)
    requires InOrder(h, idx)
    ensures forall k, l :: 0 <= k < l < |idx| ==> idx[k] != idx[l]
  {
    forall k, l | 0 <= k < l < |idx| ensures idx[k] != idx[l] { assert Precedes(h, idx[k], idx[l]); }
  }

  /** The found action is the last of its tag, and the only last one with that tag. */
  lemma FoundIsLast(h: seq<Action>, idx: seq<nat>, q: seq<Action>, tag: UniqueTag)
    requires Describes(h, idx, q)
    ensures forall i: nat :: LastOfTag(h, i) ==> (h[i].Tag() == tag <==> FindTag(q, tag) < |q| && i == idx[FindTag(q, tag)])
  {
    var r := FindTag(q, tag);
    forall i: nat | LastOfTag(h, i) ensures h[i].Tag() == tag <==> r < |q| && i == idx[r] {
      var k :| 0 <= k < |idx| && idx[k] == i;
      if r < |q| {
        assert idx[r] in idx;
        assert h[i].Tag() == h[idx[r]].Tag() ==> !(i < idx[r]) && !(idx[r] < i);
      }
    }
  }

  /** Deleting the old action of the tag leaves the additions that stay last once the new one is made. */
  lemma DeletedDescription(h: seq<Action>, idx: seq<nat>, q: seq<Action>, tag: UniqueTag) returns (rest: seq<nat>)
    requires Describes(h, idx, q)
    ensures InOrder(h, rest) && At(h, rest, Removed(q, tag))
    ensures forall i: nat :: i in rest <==> LastOfTag(h, i) && h[i].Tag() != tag
  {
    var r := FindTag(q, tag);
    rest := DeleteAt(idx, r);
    FoundIsLast(h, idx, q, tag);
    if r < |q| {
      InOrderIsDistinct(h, idx);
      DeletedElements(idx, r);
    }
  }

  lemma LastOfTagSnoc(h: seq<Action>, a: Action, i: nat)
    ensures LastOfTag(h + [a], i) <==> i == |h| || (LastOfTag(h, i) && h[i].Tag() != a.Tag())
  {
    var h' := h + [a];
    if i < |h| {
      assert h'[|h|] == a && h'[i] == h[i];
      assert forall j :: i < j < |h| ==> h'[j] == h[j];
    }
  }

  /** One more addition keeps the description. */
  lemma AddDescribes(h: seq<Action>, idx: seq<nat>, q: seq<Action>, a: Action) returns (idx': seq<nat>)
    requires Describes(h, idx, q)
    ensures Describes(h + [a], idx', Add(q, a))
  {
    var rest := DeletedDescription(h, idx, q, a.Tag());
    var p := FindPriority(Removed(q, a.Tag()), a.Priority());
    idx' := InsertAt(rest, p, |h|);
    InsertedElements(rest, p, |h|);
    forall i: nat ensures i in idx' <==> LastOfTag(h + [a], i) {
      LastOfTagSnoc(h, a, i);
    }
    InsertedOrder(h, rest, Removed(q, a.Tag()), a, p);
  }

  lemma PrecedesMore(h: seq<Action>, a: Action, i: nat, j: nat)
    requires Precedes(h, i, j)
    ensures Precedes(h + [a], i, j)
  {
  }

  lemma InsertedOrder(h: seq<Action>, rest: seq<nat>, r: seq<Action>, a: Action, p: nat)
    requires InOrder(h, rest) && At(h, rest, r) && p == FindPriority(r, a.Priority())
    ensures InOrder(h + [a], InsertAt(rest, p, |h|)) && At(h + [a], InsertAt(rest, p, |h|), InsertAt(r, p, a))
  {
    var idx', h' := InsertAt(rest, p, |h|), h + [a];
    forall k | 0 <= k < |rest| ensures if k < p then Precedes(h', rest[k], |h|) else Precedes(h', |h|, rest[k]) {
      assert h'[rest[k]] == r[k] && h'[|h|] == a;
      if p < k { assert Precedes(h, rest[p], rest[k]) && r[p] == h[rest[p]] && r[k] == h[rest[k]]; }
    }
    forall k, l | 0 <= k < l < |idx'| ensures Precedes(h', idx'[k], idx'[l]) {
      if k != p && l != p {
        PrecedesMore(h, a, rest[if k < p then k else k - 1], rest[if l < p then l else l - 1]);
      }
    }
  }

  /** After any additions the queue is the declarative queue of the history. */
  lemma {:induction false} QueueOfHistory(h: seq<Action>) returns (idx: seq<nat>)
    ensures Describes(h, idx, AddAll([], h))
  {
    if h == [] {
      idx := [];
    } else {
      var n := |h| - 1;
      var before := QueueOfHistory(h[..n]);
      idx := AddDescribes(h[..n], before, AddAll([], h[..n]), h[n]);
      assert h[..n] + [h[n]] == h;
    }
  }

  // ----- Consequences -----

  lemma FirstIsMinimal(q: seq<Action>, a: Action)
    requires Ordered(q) && a in q
    ensures q[0].Priority() <= a.Priority()
  {
  }

  lemma RemovedElements(q: seq<Action>, tag: UniqueTag)
    requires Ordered(q)
    ensures forall x :: x in Removed(q, tag) <==> x in q && x.Tag() != tag
  {
    var r := FindTag(q, tag);
    if r < |q| {
      DeletedElements(q, r);
    }
    forall x | x in q ensures x.Tag() == tag <==> r < |q| && x == q[r] {
      var k :| 0 <= k < |q| && q[k] == x;
    }
  }

  lemma AddElements(q: seq<Action>, a: Action)
    requires Ordered(q)
    ensures forall x :: x in Add(q, a) <==> x == a || (x in q && x.Tag() != a.Tag())
  {
    var rest := Removed(q, a.Tag());
    RemovedElements(q, a.Tag());
    InsertedElements(rest, FindPriority(rest, a.Priority()), a);
  }

  lemma RemovedIsOrdered(q: seq<Action>, tag: UniqueTag)
    requires Ordered(q)
    ensures Ordered(Removed(q, tag)) && forall k :: 0 <= k < |Removed(q, tag)| ==> Removed(q, tag)[k].Tag() != tag
  {
    var r, rest := FindTag(q, tag), Removed(q, tag);
    forall k | 0 <= k < |rest| ensures rest[k].Tag() != tag {
      RemovedElements(q, tag);
      assert rest[k] in rest;
    }
    forall i, j | 0 <= i < j < |rest| ensures rest[i].Priority() <= rest[j].Priority() && rest[i].Tag() != rest[j].Tag() {
      assert rest[i] == q[if i < r then i else i + 1] && rest[j] == q[if j < r then j else j + 1];
    }
  }

  lemma AddKeepsOrder(q: seq<Action>, a: Action)
    requires Ordered(q)
    ensures Ordered(Add(q, a))
  {
    RemovedIsOrdered(q, a.Tag());
    InsertKeepsOrder(Removed(q, a.Tag()), a);
  }

  lemma InsertKeepsOrder(rest: seq<Action>, a: Action)
    requires Ordered(rest) && forall k :: 0 <= k < |rest| ==> rest[k].Tag() != a.Tag()
    ensures Ordered(InsertAt(rest, FindPriority(rest, a.Priority()), a))
  {
    var p := FindPriority(rest, a.Priority());
    forall k | p <= k < |rest| ensures rest[k].Priority() >= a.Priority() {
      assert p < k ==> rest[p].Priority() <= rest[k].Priority();
    }
    InsertedBetween(rest, p, a, InsertAt(rest, p, a));
  }

  lemma InsertedBetween(rest: seq<Action>, p: nat, a: Action, r: seq<Action>)
    requires Ordered(rest) && p <= |rest| && |r| == |rest| + 1
    requires forall k {:trigger r[k]} :: 0 <= k < |r| ==> r[k] == if k < p then rest[k] else if k == p then a else rest[k-1]
    requires forall k :: 0 <= k < |rest| ==>
               rest[k].Tag() != a.Tag() && if k < p then rest[k].Priority() < a.Priority() else rest[k].Priority() >= a.Priority()
    ensures Ordered(r)
  {
    forall i, j | 0 <= i < j < |r| ensures r[i].Priority() <= r[j].Priority() && r[i].Tag() != r[j].Tag() {
      if i != p && j != p {
        var i', j' := if i < p then i else i - 1, if j < p then j else j - 1;
        assert r[i] == rest[i'] && r[j] == rest[j'];
        assert 0 <= i' < j' < |rest|;
      }
    }
  }

  lemma DeleteInserted<T>(q: seq<T>, i: nat, x: T)
    requires i <= |q|
    ensures DeleteAt(InsertAt(q, i, x), i) == q
  {
  }

  lemma FindUnique(q: seq<Action>, p: nat)
    requires p < |q| && forall k :: 0 <= k < p ==> q[k].Tag() != q[p].Tag()
    ensures FindTag(q, q[p].Tag()) == p
  {
  }

  /** Adding an action again right away changes nothing. */
  lemma AddTwice(q: seq<Action>, a: Action)
    requires Ordered(q)
    ensures Add(Add(q, a), a) == Add(q, a)
  {
    var rest := Removed(q, a.Tag());
    var p := FindPriority(rest, a.Priority());
    RemovedIsOrdered(q, a.Tag());
    FindUnique(InsertAt(rest, p, a), p);
    DeleteInserted(rest, p, a);
  }

  /** Nothing of the same or a higher priority stands before the action. */
  ghost predicate NewestOfPriority(q: seq<Action>, a: Action) {
    exists k :: 0 <= k < |q| && q[k] == a && (k > 0 ==> q[k-1].Priority() < a.Priority())
  }

  lemma InsertDeleted<T>(q: seq<T>, k: nat)
    requires k < |q|
    ensures InsertAt(DeleteAt(q, k), k, q[k]) == q
  {
  }

  /** The newest of its priority goes back to where it was. */
  lemma FoundWhereItWas(q: seq<Action>, k: nat)
    requires Ordered(q) && k < |q| && (k > 0 ==> q[k-1].Priority() < q[k].Priority())
    ensures FindPriority(DeleteAt(q, k), q[k].Priority()) == k
  {
    var rest := DeleteAt(q, k);
    forall i | 0 <= i < k ensures rest[i].Priority() < q[k].Priority() {
      assert rest[i] == q[i] && q[i].Priority() <= q[k-1].Priority();
    }
    if k < |rest| { assert rest[k] == q[k+1] && q[k].Priority() <= q[k+1].Priority(); }
  }

  lemma UnchangedIsNewest(q: seq<Action>, rest: seq<Action>, p: nat, a: Action)
    requires p <= |rest| && q == InsertAt(rest, p, a) && forall k :: 0 <= k < p ==> rest[k].Priority() < a.Priority()
    ensures NewestOfPriority(q, a)
  {
    assert q[p] == a;
    if p > 0 { assert q[p-1] == rest[p-1]; }
  }

  lemma NewestIsUnchanged(q: seq<Action>, k: nat)
    requires Ordered(q) && k < |q| && (k > 0 ==> q[k-1].Priority() < q[k].Priority())
    ensures Add(q, q[k]) == q
  {
    FindUnique(q, k);
    FoundWhereItWas(q, k);
    InsertDeleted(q, k);
  }

  lemma UnchangedByAdd(q: seq<Action>, a: Action)
    requires Add(q, a) == q
    ensures NewestOfPriority(q, a)
  {
    var rest := Removed(q, a.Tag());
    var p := FindPriority(rest, a.Priority());
    assert q == InsertAt(rest, p, a);
    UnchangedIsNewest(q, rest, p, a);
  }

  /** Adding an action changes nothing exactly if it is already the newest of its priority. */
  lemma AddChangesNothing(q: seq<Action>, a: Action)
    requires Ordered(q)
    ensures Add(q, a) == q <==> NewestOfPriority(q, a)
  {
    if Add(q, a) == q {
      UnchangedByAdd(q, a);
    } else if NewestOfPriority(q, a) {
      var k :| 0 <= k < |q| && q[k] == a && (k > 0 ==> q[k-1].Priority() < a.Priority());
      NewestIsUnchanged(q, k);
    }
  }

  lemma AddAllSnoc(q: seq<Action>, h: seq<Action>, a: Action)
    ensures AddAll(q, h + [a]) == Add(AddAll(q, h), a)
  {
    assert (h + [a])[..|h|] == h;
  }

  lemma {:induction false} AddAllJoin(q: seq<Action>, a: seq<Action>, b: seq<Action>, c: seq<Action>)
    requires c == a + b
    ensures AddAll(AddAll(q, a), b) == AddAll(q, c)
    decreases |b|
  {
    if b == [] {
      assert c == a;
    } else {
      var n := |c| - 1;
      assert c[..n] == a + b[..|b|-1] && c[n] == b[|b|-1];
      AddAllJoin(q, a, b[..|b|-1], c[..n]);
    }
  }

  /** Adding a whole list a second time changes nothing, even when actions in it replace one another. */
  lemma ListTwice(h: seq<Action>, cs: seq<Action>)
    ensures AddAll([], h + cs + cs) == AddAll([], h + cs)
  {
    var once, twice := h + cs, h + cs + cs;
    var a := QueueOfHistory(once);
    var b := QueueOfHistory(twice);
    var c := Shifted(b, |h|, |cs|);
    ShiftedDescribes(h, cs, b, AddAll([], twice));
    DescriptionIsUnique(once, a, AddAll([], once), c, AddAll([], twice));
  }

  /** Positions in the longer history, read in the shorter one. */
  function Shifted(idx: seq<nat>, start: nat, n: nat): (r: seq<nat>)
    ensures |r| == |idx| && forall k :: 0 <= k < |r| ==> r[k] == if idx[k] < start + n then idx[k] else idx[k] - n
  {
    seq(|idx|, k requires 0 <= k < |idx| => if idx[k] < start + n then idx[k] else idx[k] - n)
  }

  /** The positions that stay last in the longer history stand for those that stay last in the shorter one. */
  lemma ShiftedPosition(h: seq<Action>, cs: seq<Action>, i: nat)
    requires LastOfTag(h + cs + cs, i)
    ensures var j := if i < |h| + |cs| then i else i - |cs|;
            && LastOfTag(h + cs, j) && (h + cs)[j] == (h + cs + cs)[i]
            && (i < |h| <==> j < |h|) && (i < |h| || i >= |h| + |cs|)
  {
    TwiceLast(h, cs, i);
  }

  lemma ShiftedInOrder(h: seq<Action>, cs: seq<Action>, b: seq<nat>)
    requires InOrder(h + cs + cs, b) && forall i: nat :: i in b ==> LastOfTag(h + cs + cs, i)
    ensures InOrder(h + cs, Shifted(b, |h|, |cs|))
  {
    var c := Shifted(b, |h|, |cs|);
    forall k | 0 <= k < |b| ensures c[k] < |h + cs| {
      assert b[k] in b;
      ShiftedPosition(h, cs, b[k]);
    }
    forall k, l | 0 <= k < l < |c| ensures Precedes(h + cs, c[k], c[l]) {
      assert b[k] in b && b[l] in b && Precedes(h + cs + cs, b[k], b[l]);
      ShiftedOrder(h, cs, b[k], b[l]);
    }
  }

  lemma ShiftedDescribes(h: seq<Action>, cs: seq<Action>, b: seq<nat>, q: seq<Action>)
    requires Describes(h + cs + cs, b, q)
    ensures Describes(h + cs, Shifted(b, |h|, |cs|), q)
  {
    var once, n := h + cs, |cs|;
    var c := Shifted(b, |h|, n);
    ShiftedInOrder(h, cs, b);
    forall k | 0 <= k < |b| ensures q[k] == once[c[k]] && LastOfTag(once, c[k]) {
      assert b[k] in b;
      ShiftedPosition(h, cs, b[k]);
    }
    forall i: nat | LastOfTag(once, i) ensures i in c {
      var j := if i < |h| then i else i + n;
      TwiceLast(h, cs, j);
      var k :| 0 <= k < |b| && b[k] == j;
      assert c[k] == i;
    }
  }

  lemma ShiftedOrder(h: seq<Action>, cs: seq<Action>, i: nat, j: nat)
    requires LastOfTag(h + cs + cs, i) && LastOfTag(h + cs + cs, j) && Precedes(h + cs + cs, i, j)
    ensures Precedes(h + cs, if i < |h| + |cs| then i else i - |cs|, if j < |h| + |cs| then j else j - |cs|)
  {
    ShiftedPosition(h, cs, i);
    ShiftedPosition(h, cs, j);
  }

  lemma TwiceLast(h: seq<Action>, cs: seq<Action>, i: nat)
    ensures var once, twice, n := h + cs, h + cs + cs, |cs|;
            LastOfTag(twice, i) <==> if i < |h| then LastOfTag(once, i) else i >= |once| && LastOfTag(once, i - n)
  {
    var once, twice, n := h + cs, h + cs + cs, |cs|;
    assert forall j :: 0 <= j < |once| ==> twice[j] == once[j];
    assert forall j :: |h| <= j < |once| ==> twice[j+n] == once[j];
    assert forall j :: |once| <= j < |twice| ==> twice[j] == once[j-n];
    if |h| <= i < |once| {
      assert twice[i+n] == twice[i];
    } else if i < |twice| && LastOfTag(twice, i) {
      forall j | (if i < |h| then i else i - n) < j < |once| ensures once[j].Tag() != twice[i].Tag() {
        assert i >= |h| ==> twice[j+n] == once[j];
      }
    }
  }

  /** A history that leads to the queue: its actions from the last to the first. */
  function Backwards(q: seq<Action>): seq<Action> {
    if q == [] then [] else Backwards(q[1..]) + [q[0]]
  }

  lemma {:induction false} QueueFromHistory(q: seq<Action>)
    requires Ordered(q)
    ensures AddAll([], Backwards(q)) == q
  {
    if q != [] {
      var x, rest := q[0], q[1..];
      assert forall k :: 0 <= k < |rest| ==> rest[k] == q[k+1];
      QueueFromHistory(rest);
      AddAllSnoc([], Backwards(rest), x);
      InFront(rest, x);
      assert q == [x] + rest;
    }
  }

  lemma InFront(rest: seq<Action>, x: Action)
    requires forall k :: 0 <= k < |rest| ==> rest[k].Tag() != x.Tag() && x.Priority() <= rest[k].Priority()
    ensures Add(rest, x) == [x] + rest
  {
    assert FindTag(rest, x.Tag()) == |rest|;
    assert FindPriority(rest, x.Priority()) == 0;
  }

  /** The same from any ordered queue. */
  lemma ListTwiceFrom(q: seq<Action>, cs: seq<Action>)
    requires Ordered(q)
    ensures AddAll(AddAll(q, cs), cs) == AddAll(q, cs)
  {
    var h := Backwards(q);
    QueueFromHistory(q);
    ListTwice(h, cs);
    AddAllJoin([], h, cs, h + cs);
    AddAllJoin([], h + cs, cs, h + cs + cs);
  }

  // ----- When adding a list changes nothing -----

  /**
   * The last additions of each tag in the list are in the queue, each behind no action of its
   * priority but later ones of them: in each priority they are the front, newest first.
   */
  ghost predicate InFrontAlready(q: seq<Action>, cs: seq<Action>) {
    && (forall i: nat :: LastOfTag(cs, i) ==> cs[i] in q)
    && (forall k, l, i: nat :: 0 <= k < l < |q| && q[k].Priority() == q[l].Priority() && LastOfTag(cs, i) && q[l] == cs[i] ==>
          exists j :: j > i && LastOfTag(cs, j) && q[k] == cs[j])
  }

  /** The position of the last action of a tag. */
  lemma {:induction false} LastExists(cs: seq<Action>, tag: UniqueTag) returns (i: nat)
    requires exists a :: a in cs && a.Tag() == tag
    ensures LastOfTag(cs, i) && cs[i].Tag() == tag
  {
    var n := |cs| - 1;
    if cs[n].Tag() == tag {
      i := n;
    } else {
      assert forall a :: a in cs ==> a in cs[..n] || a == cs[n];
      i := LastExists(cs[..n], tag);
      assert forall j :: 0 <= j < n ==> cs[..n][j] == cs[j];
    }
  }

  lemma LastInJoin(h: seq<Action>, cs: seq<Action>, i: nat)
    ensures i >= |h| ==> (LastOfTag(h + cs, i) <==> LastOfTag(cs, i - |h|))
    ensures i < |h| ==> (LastOfTag(h + cs, i) <==> LastOfTag(h, i) && forall j :: 0 <= j < |cs| ==> cs[j].Tag() != h[i].Tag())
  {
    var all := h + cs;
    assert forall j :: 0 <= j < |h| ==> all[j] == h[j];
    assert forall j :: 0 <= j < |cs| ==> all[|h|+j] == cs[j];
    if i >= |h| {
      if LastOfTag(cs, i - |h|) {
        forall j | i < j < |all| ensures all[j].Tag() != all[i].Tag() { assert all[j] == cs[j-|h|]; }
      }
    } else if LastOfTag(h, i) && forall j :: 0 <= j < |cs| ==> cs[j].Tag() != h[i].Tag() {
      forall j | i < j < |all| ensures all[j].Tag() != all[i].Tag() {
        if j >= |h| { assert all[j] == cs[j-|h|]; }
      }
    }
  }

  lemma {:induction false} BackwardsAt(q: seq<Action>, k: nat)
    requires k < |q|
    ensures |Backwards(q)| == |q| && Backwards(q)[|q|-1-k] == q[k]
  {
    if |q| > 1 { BackwardsAt(q[1..], if k > 0 then k - 1 else 0); }
  }

  lemma BackwardsLast(q: seq<Action>)
    requires Ordered(q)
    ensures |Backwards(q)| == |q| && forall i: nat :: LastOfTag(Backwards(q), i) <==> i < |q|
  {
    var h := Backwards(q);
    if q != [] { BackwardsAt(q, 0); }
    forall i, j | 0 <= i < j < |q| ensures h[i].Tag() != h[j].Tag() {
      BackwardsAt(q, |q| - 1 - i);
      BackwardsAt(q, |q| - 1 - j);
    }
  }

  /** The two histories of a queue and the list, and the description of what adding the list gives. */
  lemma JoinedHistory(q: seq<Action>, cs: seq<Action>) returns (h: seq<Action>, idx: seq<nat>)
    requires Ordered(q)
    ensures h == Backwards(q) && Describes(h + cs, idx, AddAll(q, cs))
  {
    h := Backwards(q);
    QueueFromHistory(q);
    AddAllJoin([], h, cs, h + cs);
    idx := QueueOfHistory(h + cs);
  }

  /** In the queue of a joined history, a last addition of the second part has its place. */
  lemma LastHasPlace(h: seq<Action>, cs: seq<Action>, idx: seq<nat>, q: seq<Action>, i: nat) returns (k: nat)
    requires Describes(h + cs, idx, q) && LastOfTag(cs, i)
    ensures k < |q| && idx[k] == |h| + i && q[k] == cs[i]
  {
    LastInJoin(h, cs, |h| + i);
    assert (|h| + i) as nat in idx;
    k :| 0 <= k < |idx| && idx[k] == |h| + i;
    assert (h + cs)[|h|+i] == cs[i];
  }

  /** What stands before it in its priority are later ones of the second part. */
  lemma LaterAhead(h: seq<Action>, cs: seq<Action>, idx: seq<nat>, q: seq<Action>, k: nat, l: nat, i: nat)
    requires Describes(h + cs, idx, q) && k < l < |q| && q[k].Priority() == q[l].Priority() && idx[l] == |h| + i
    ensures exists j :: j > i && LastOfTag(cs, j) && q[k] == cs[j]
  {
    assert idx[k] in idx && Precedes(h + cs, idx[k], idx[l]);
    var j := idx[k] - |h|;
    LastInJoin(h, cs, idx[k]);
    assert j > i && (h + cs)[idx[k]] == cs[j];
  }

  lemma UnchangedIsInFront(q: seq<Action>, cs: seq<Action>)
    requires Ordered(q) && AddAll(q, cs) == q
    ensures InFrontAlready(q, cs)
  {
    var h, idx := JoinedHistory(q, cs);
    forall i: nat | LastOfTag(cs, i) ensures cs[i] in q {
      var k := LastHasPlace(h, cs, idx, q, i);
    }
    forall k, l, i: nat | 0 <= k < l < |q| && q[k].Priority() == q[l].Priority() && LastOfTag(cs, i) && q[l] == cs[i]
      ensures exists j :: j > i && LastOfTag(cs, j) && q[k] == cs[j]
    {
      var m := LastHasPlace(h, cs, idx, q, i);
      assert m == l by { assert q[m].Tag() == q[l].Tag(); }
      LaterAhead(h, cs, idx, q, k, l, i);
    }
  }

  /** The position in the joined history of the action at k: its last addition in the list, or its place in the queue. */
  ghost predicate Place(q: seq<Action>, cs: seq<Action>, k: nat, p: nat) {
    k < |q| && ((p >= |q| && LastOfTag(cs, p - |q|) && cs[p-|q|] == q[k])
                || (p == |q| - 1 - k && forall j :: 0 <= j < |cs| ==> cs[j].Tag() != q[k].Tag()))
  }

  lemma OneOfTag(q: seq<Action>, k: nat, l: nat)
    requires Ordered(q) && k < |q| && l < |q| && q[k].Tag() == q[l].Tag()
    ensures k == l
  {
  }

  lemma PlaceExists(q: seq<Action>, cs: seq<Action>, k: nat) returns (p: nat)
    requires Ordered(q) && k < |q| && forall i: nat :: LastOfTag(cs, i) ==> cs[i] in q
    ensures Place(q, cs, k, p)
  {
    var tag := q[k].Tag();
    if exists a :: a in cs && a.Tag() == tag {
      var i := LastExists(cs, tag);
      assert cs[i] in q;
      var l :| 0 <= l < |q| && q[l] == cs[i];
      OneOfTag(q, k, l);
      p := |q| + i;
    } else {
      forall j | 0 <= j < |cs| ensures cs[j].Tag() != tag { assert cs[j] in cs; }
      p := |q| - 1 - k;
    }
  }

  lemma {:induction false} Places(q: seq<Action>, cs: seq<Action>, n: nat) returns (idx: seq<nat>)
    requires Ordered(q) && n <= |q| && forall i: nat :: LastOfTag(cs, i) ==> cs[i] in q
    ensures |idx| == n && forall k :: 0 <= k < n ==> Place(q, cs, k, idx[k])
  {
    if n == 0 {
      idx := [];
    } else {
      var rest := Places(q, cs, n - 1);
      var p := PlaceExists(q, cs, n - 1);
      idx := rest + [p];
    }
  }

  lemma PlaceIsLast(q: seq<Action>, cs: seq<Action>, h: seq<Action>, k: nat, p: nat)
    requires Ordered(q) && h == Backwards(q) && Place(q, cs, k, p)
    ensures p < |h + cs| && (h + cs)[p] == q[k] && LastOfTag(h + cs, p)
  {
    BackwardsLast(q);
    BackwardsAt(q, k);
    LastInJoin(h, cs, p);
  }

  /** Every last addition of the joined history is the place of an action of the queue. */
  lemma LastIsPlace(q: seq<Action>, cs: seq<Action>, h: seq<Action>, i: nat) returns (k: nat)
    requires Ordered(q) && h == Backwards(q) && LastOfTag(h + cs, i) && forall i: nat :: LastOfTag(cs, i) ==> cs[i] in q
    ensures Place(q, cs, k, i)
  {
    BackwardsLast(q);
    LastInJoin(h, cs, i);
    if i >= |q| {
      k :| 0 <= k < |q| && q[k] == cs[i-|q|];
    } else {
      k := |q| - 1 - i;
      BackwardsAt(q, k);
    }
  }

  lemma PlaceIsUnique(q: seq<Action>, cs: seq<Action>, k: nat, p: nat, p': nat)
    requires Place(q, cs, k, p) && Place(q, cs, k, p')
    ensures p == p'
  {
    if p >= |q| && p' >= |q| {
      assert cs[p-|q|].Tag() == cs[p'-|q|].Tag();
    }
  }

  lemma PlacesAt(q: seq<Action>, cs: seq<Action>, h: seq<Action>, idx: seq<nat>)
    requires Ordered(q) && h == Backwards(q)
    requires |idx| == |q| && forall k :: 0 <= k < |q| ==> Place(q, cs, k, idx[k])
    ensures At(h + cs, idx, q) && forall k :: 0 <= k < |q| ==> LastOfTag(h + cs, idx[k])
  {
    forall k | 0 <= k < |q| ensures idx[k] < |h + cs| && (h + cs)[idx[k]] == q[k] && LastOfTag(h + cs, idx[k]) {
      PlaceIsLast(q, cs, h, k, idx[k]);
    }
  }

  lemma PlacesDescribe(q: seq<Action>, cs: seq<Action>, h: seq<Action>, idx: seq<nat>)
    requires Ordered(q) && InFrontAlready(q, cs) && h == Backwards(q)
    requires |idx| == |q| && forall k :: 0 <= k < |q| ==> Place(q, cs, k, idx[k])
    ensures Describes(h + cs, idx, q)
  {
    var all := h + cs;
    PlacesAt(q, cs, h, idx);
    forall k, l | 0 <= k < l < |idx| ensures Precedes(all, idx[k], idx[l]) {
      PlacesInOrder(q, cs, idx, k, l);
      assert all[idx[k]] == q[k] && all[idx[l]] == q[l];
    }
    forall i: nat | LastOfTag(all, i) ensures i in idx {
      var k := LastIsPlace(q, cs, h, i);
      PlaceIsUnique(q, cs, k, i, idx[k]);
    }
  }

  lemma PlacesInOrder(q: seq<Action>, cs: seq<Action>, idx: seq<nat>, k: nat, l: nat)
    requires Ordered(q) && InFrontAlready(q, cs) && k < l < |q| == |idx| && Place(q, cs, k, idx[k]) && Place(q, cs, l, idx[l])
    ensures q[k].Priority() < q[l].Priority() || idx[k] > idx[l]
  {
    if q[k].Priority() == q[l].Priority() && idx[l] >= |q| {
      var j :| j > idx[l] - |q| && LastOfTag(cs, j) && q[k] == cs[j];
      assert idx[k] == |q| + j by {
        if idx[k] >= |q| { assert cs[idx[k]-|q|].Tag() == cs[j].Tag(); }
      }
    }
  }

  /** Adding a list to an ordered queue changes nothing exactly if the list is in front already. */
  lemma AddAllChangesNothing(q: seq<Action>, cs: seq<Action>)
    requires Ordered(q)
    ensures AddAll(q, cs) == q <==> InFrontAlready(q, cs)
  {
    if AddAll(q, cs) == q { UnchangedIsInFront(q, cs); }
    if InFrontAlready(q, cs) {
      var h, idx := JoinedHistory(q, cs);
      var places := Places(q, cs, |q|);
      PlacesDescribe(q, cs, h, places);
      DescriptionIsUnique(h + cs, idx, AddAll(q, cs), places, q);
    }
  }
}
