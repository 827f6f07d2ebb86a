/**
 * Whole runs of the embed queue: contexts are made, entries queued and steps ended in any order,
 * and the queue is written at the end. Which numbers and objects the contexts get, and which
 * entries end up in one combined output.
 */
module EmbedRuns {
  import opened Wrappers
  import opened Intervals
  import opened EmbedQueue

  datatype Call = Get(tag: CombineTag) | Put(id: nat, tag: CombineTag, context: Option<Context>) | StepEnds

  function Do(formatter: bool, st: EmbedState, c: Call): EmbedState {
    match c
    case Get(tag) => Reserve(formatter, st, tag)
    case Put(id, tag, context) => Enqueue(formatter, st, id, tag, context)
    case StepEnds => st.(tags := map[])
  }

  /** The state before the k-th call. */
  function StateAt(formatter: bool, calls: seq<Call>, k: nat): EmbedState
    requires k <= |calls|
  {
    if k == 0 then EmbedState(0, map[], 0, []) else Do(formatter, StateAt(formatter, calls, k - 1), calls[k-1])
  }

  /** The i-th call makes a context, for something that may be embedded. */
  predicate Makes(formatter: bool, calls: seq<Call>, i: nat) {
    && i < |calls| && !calls[i].StepEnds? && !calls[i].tag.NoEmbed?
    && (calls[i].Put? ==> calls[i].context.None? && formatter)
  }

  function ContextAt(formatter: bool, calls: seq<Call>, i: nat): Context
    requires Makes(formatter, calls, i)
  {
    ContextOf(formatter, StateAt(formatter, calls, i), calls[i].tag)
  }

  // ----- Numbers -----

  lemma {:induction false} CountGrows(formatter: bool, calls: seq<Call>, i: nat, k: nat)
    requires i <= k <= |calls|
    ensures StateAt(formatter, calls, i).count <= StateAt(formatter, calls, k).count
  {
    if i < k { CountGrows(formatter, calls, i, k - 1); }
  }

  /** Numbers are reserved in the order in which the contexts are made, and none twice. */
  lemma NumbersIncrease(formatter: bool, calls: seq<Call>, i: nat, j: nat)
    requires i < j && Makes(formatter, calls, i) && Makes(formatter, calls, j)
    ensures 0 < ContextAt(formatter, calls, i).count < ContextAt(formatter, calls, j).count
  {
    CountGrows(formatter, calls, i + 1, j);
  }

  // ----- Objects -----

  /** No step ends between the two calls. */
  ghost predicate OneStep(calls: seq<Call>, i: nat, k: nat) {
    forall m :: i < m < k && m < |calls| ==> !calls[m].StepEnds?
  }

  predicate HasName(tag: CombineTag) {
    tag.Named? && tag.name != ""
  }

  /** Objects are stored under names only, each under one, and were handed out. */
  ghost predicate Stored(formatter: bool, st: EmbedState) {
    && (forall t :: t in st.tags ==> HasName(t) && st.tags[t] < st.handed)
    && (forall s, t :: s in st.tags && t in st.tags && s != t ==> st.tags[s] != st.tags[t])
    && (!formatter ==> st.tags == map[])
  }

  lemma ReserveStores(formatter: bool, st: EmbedState, tag: CombineTag)
    requires Stored(formatter, st)
    ensures Stored(formatter, Reserve(formatter, st, tag))
  {
    var tags := Reserve(formatter, st, tag).tags;
    if tags != st.tags { assert forall t :: t in tags ==> t == tag || t in st.tags; }
  }

  lemma DoStores(formatter: bool, st: EmbedState, c: Call)
    requires Stored(formatter, st)
    ensures Stored(formatter, Do(formatter, st, c))
  {
    if !c.StepEnds? { ReserveStores(formatter, st, c.tag); }
  }

  lemma {:induction false} AlwaysStored(formatter: bool, calls: seq<Call>, k: nat)
    requires k <= |calls|
    ensures Stored(formatter, StateAt(formatter, calls, k))
  {
    if k > 0 {
      AlwaysStored(formatter, calls, k - 1);
      DoStores(formatter, StateAt(formatter, calls, k - 1), calls[k-1]);
    }
  }

  /** An object that was handed out for a tag: it is stored under that tag only, and there as long as the step lasts. */
  ghost predicate Follows(st: EmbedState, tag: CombineTag, x: nat, live: bool) {
    && x < st.handed
    && (forall t :: t in st.tags && st.tags[t] == x ==> live && t == tag)
    && (live && HasName(tag) ==> tag in st.tags && st.tags[tag] == x)
  }

  lemma FollowsOn(st: EmbedState, c: Call, tag: CombineTag, x: nat, live: bool)
    requires Follows(st, tag, x, live)
    ensures Follows(Do(true, st, c), tag, x, live && !c.StepEnds?)
  {
  }

  lemma {:induction false} ObjectFollowed(calls: seq<Call>, i: nat, k: nat)
    requires Makes(true, calls, i) && i < k <= |calls|
    ensures ContextAt(true, calls, i).embed.Some?
    ensures Follows(StateAt(true, calls, k), calls[i].tag, ContextAt(true, calls, i).embed.value, OneStep(calls, i, k))
  {
    if k == i + 1 {
      AlwaysStored(true, calls, i);
    } else {
      ObjectFollowed(calls, i, k - 1);
      FollowsOn(StateAt(true, calls, k - 1), calls[k-1], calls[i].tag, ContextAt(true, calls, i).embed.value, OneStep(calls, i, k - 1));
      assert OneStep(calls, i, k) <==> OneStep(calls, i, k - 1) && !calls[k-1].StepEnds?;
    }
  }

  /** With a formatter every context has an object; two share it exactly if they were made for one name within one step. */
  lemma SameObjectIff(calls: seq<Call>, i: nat, j: nat)
    requires i < j && Makes(true, calls, i) && Makes(true, calls, j)
    ensures ContextAt(true, calls, i).embed.Some?
    ensures ContextAt(true, calls, i).embed == ContextAt(true, calls, j).embed <==>
            HasName(calls[i].tag) && calls[i].tag == calls[j].tag && OneStep(calls, i, j)
  {
    ObjectFollowed(calls, i, j);
    AlwaysStored(true, calls, j);
  }

  /** Without a formatter no context has an object. */
  lemma NoObject(calls: seq<Call>, i: nat)
    requires Makes(false, calls, i)
    ensures ContextAt(false, calls, i).embed.None?
  {
    AlwaysStored(false, calls, i);
  }

  // ----- What is combined -----

  /** The entry that the i-th call queues, with the context that the call at a made: the same one, or an earlier one for its tag. */
  ghost predicate QueuedWith(formatter: bool, calls: seq<Call>, i: nat, a: nat, e: Entry) {
    && a <= i < |calls| && calls[i].Put? && Makes(formatter, calls, a) && calls[a].tag == calls[i].tag
    && (if a == i then calls[i].context.None? else calls[i].context == Some(ContextAt(formatter, calls, a)))
    && e == Entry(calls[i].id, calls[i].tag, Some(ContextAt(formatter, calls, a)))
  }

  lemma {:induction false} StaysQueued(formatter: bool, calls: seq<Call>, i: nat, a: nat, e: Entry, k: nat)
    requires QueuedWith(formatter, calls, i, a, e) && i < k <= |calls|
    ensures e in StateAt(formatter, calls, k).queue
  {
    if k > i + 1 { StaysQueued(formatter, calls, i, a, e, k - 1); }
  }

  /** A combined output is the group of its key. */
  lemma CombinedIsGroup(queue: seq<Entry>, o: Output)
    requires o in Outputs(queue) && o.Combined?
    ensures o == Combine(SortByCount(queue), o.key)
  {
  }

  /** An entry belongs to a name and an object. */
  predicate BelongsTo(e: Entry, key: Key) {
    e.ctx.Some? && e.tag == Named(key.name) && e.ctx.value.embed == key.embed
  }

  lemma GroupIsCombined(es: seq<Entry>, o: Output, key: Key)
    requires o == Combine(es, key)
    ensures o.key == key && o.entries == GroupOf(es, key) && Expand(o.counts) == Counts(GroupOf(es, key))
  {
    ExpandCaption(Counts(GroupOf(es, key)));
  }

  /**
   * A combined output has exactly the queued entries of one name and object, and its caption
   * expands to their numbers, one for each, in order.
   */
  lemma CombinedOutput(queue: seq<Entry>, o: Output)
    requires o in Outputs(queue) && o.Combined?
    ensures forall e :: e in o.entries <==> e in queue && BelongsTo(e, o.key)
    ensures |Expand(o.counts)| == |o.entries|
    ensures forall i :: 0 <= i < |o.entries| ==> o.entries[i].ctx.Some? && o.entries[i].ctx.value.count == Expand(o.counts)[i]
  {
    var es := SortByCount(queue);
    CombinedIsGroup(queue, o);
    GroupIsCombined(es, o, o.key);
    forall e ensures e in o.entries <==> e in queue && BelongsTo(e, o.key) { SameElements(queue, e); }
    forall i | 0 <= i < |o.entries| ensures o.entries[i].ctx.Some? && o.entries[i].ctx.value.count == Expand(o.counts)[i] {
      assert o.entries[i] in o.entries;
    }
  }

  /** Two entries of a queue are in one combined output exactly if they have one name and one object. */
  lemma TogetherIff(queue: seq<Entry>, d: Entry, e: Entry)
    requires d in queue && e in queue && d.ctx.Some? && e.ctx.Some? && d.tag.Named? && e.tag.Named?
    ensures (exists o :: o in Outputs(queue) && o.Combined? && d in o.entries && e in o.entries)
            <==> d.tag == e.tag && d.ctx.value.embed == e.ctx.value.embed
  {
    GroupsAreClasses(queue, KeyOf(d));
    if o :| o in Outputs(queue) && o.Combined? && d in o.entries && e in o.entries {
      CombinedIsGroup(queue, o);
      assert InGroup(d, o.key) && InGroup(e, o.key);
    }
    if d.tag == e.tag && d.ctx.value.embed == e.ctx.value.embed {
      assert InGroup(e, KeyOf(d));
      var o := Combine(SortByCount(queue), KeyOf(d));
      assert o in Outputs(queue) && d in o.entries && e in o.entries;
    }
  }

  /**
   * In any run with a formatter, two named entries end up in one combined output exactly if they
   * have one name and their contexts are the same one or were made within one step for a name that
   * is not empty. An entry without a context of its own has the one made when it was queued.
   */
  lemma CombinedIff(calls: seq<Call>, i: nat, a: nat, d: Entry, j: nat, b: nat, e: Entry)
    requires QueuedWith(true, calls, i, a, d) && QueuedWith(true, calls, j, b, e) && a <= b
    requires d.tag.Named? && e.tag.Named?
    ensures (exists o :: o in Outputs(StateAt(true, calls, |calls|).queue) && o.Combined? && d in o.entries && e in o.entries)
            <==> d.tag == e.tag && (a == b || (d.tag.name != "" && OneStep(calls, a, b)))
  {
    StaysQueued(true, calls, i, a, d, |calls|);
    StaysQueued(true, calls, j, b, e, |calls|);
    TogetherIff(StateAt(true, calls, |calls|).queue, d, e);
    if a < b { SameObjectIff(calls, a, b); }
  }

  // ----- What is written, and in which order -----

  lemma GroupAt(es: seq<Entry>, keys: seq<Key>, i: nat)
    requires i < |keys|
    ensures |Groups(es, keys)| == |keys| && Groups(es, keys)[i].Combined? && Groups(es, keys)[i].entries == GroupOf(es, keys[i])
  {
  }

  /** The output by position: single entries, and then the groups of some keys. */
  ghost predicate Listed(es: seq<Entry>, singles: seq<Entry>, keys: seq<Key>, out: seq<Output>) {
    && |out| == |singles| + |keys|
    && (forall i :: 0 <= i < |singles| ==> out[i] == One(singles[i]))
    && (forall i :: |singles| <= i < |out| ==> out[i].Combined? && out[i].entries == GroupOf(es, keys[i-|singles|]))
  }

  lemma JoinedIsListed(es: seq<Entry>, singles: seq<Entry>, keys: seq<Key>, ones: seq<Output>, groups: seq<Output>)
    requires |ones| == |singles| && forall i :: 0 <= i < |ones| ==> ones[i] == One(singles[i])
    requires |groups| == |keys| && forall i :: 0 <= i < |groups| ==> groups[i].Combined? && groups[i].entries == GroupOf(es, keys[i])
    ensures Listed(es, singles, keys, ones + groups)
  {
  }

  lemma OutputIsListed(es: seq<Entry>, singles: seq<Entry>, keys: seq<Key>)
    ensures Listed(es, singles, keys, Ones(singles) + Groups(es, keys))
  {
    var groups := Groups(es, keys);
    assert |groups| == |keys|;
    forall i | 0 <= i < |groups| ensures groups[i].Combined? && groups[i].entries == GroupOf(es, keys[i]) { GroupAt(es, keys, i); }
    JoinedIsListed(es, singles, keys, Ones(singles), groups);
  }

  lemma {:induction false} SinglesAre(es: seq<Entry>, e: Entry)
    ensures e in Singles(es) <==> e in es && e.ctx.Some? && e.tag == NoTag
  {
    if es != [] {
      SinglesAre(es[..|es|-1], e);
      assert es == es[..|es|-1] + [es[|es|-1]];
    }
  }

  lemma SameElements(queue: seq<Entry>, e: Entry)
    ensures e in SortByCount(queue) <==> e in queue
  {
    assert e in multiset(SortByCount(queue)) <==> e in multiset(queue);
  }

  /** An entry is written as often as it is queued if it has a context and may be embedded, and else never. */
  lemma WrittenAsQueued(queue: seq<Entry>, e: Entry)
    ensures EntriesOf(Outputs(queue))[e] == if e.ctx.Some? && e.tag != NoEmbed then multiset(queue)[e] else 0
  {
    OutputsConserveEntries(queue);
    EligibleCount(queue, e);
  }

  /** It stands alone exactly if it has no tag. */
  lemma AloneIff(queue: seq<Entry>, e: Entry)
    ensures One(e) in Outputs(queue) <==> e in queue && e.ctx.Some? && e.tag == NoTag
  {
    var es, out := SortByCount(queue), Outputs(queue);
    SameElements(queue, e);
    SinglesAre(es, e);
    OutputIsListed(es, Singles(es), Keys(es));
    OneIff(es, Singles(es), Keys(es), out, e);
  }

  lemma OneIff(es: seq<Entry>, singles: seq<Entry>, keys: seq<Key>, out: seq<Output>, e: Entry)
    requires Listed(es, singles, keys, out)
    ensures One(e) in out <==> e in singles
  {
    if e in singles {
      var i :| 0 <= i < |singles| && singles[i] == e;
      assert out[i] == One(e);
    }
    if One(e) in out {
      var i :| 0 <= i < |out| && out[i] == One(e);
      assert singles[i] == e;
    }
  }

  lemma {:induction false} SinglesAscend(es: seq<Entry>)
    requires Sorted(es)
    ensures Sorted(Singles(es))
  {
    if es != [] {
      var n := |es| - 1;
      SinglesAscend(es[..n]);
      forall x | x in Singles(es[..n]) ensures Count(x) <= Count(es[n]) { assert x in es[..n]; }
    }
  }

  /** A key keeps its place and its first entry when an entry is added at the end, and a new key gets that entry. */
  lemma FirstOfGroup(before: seq<Entry>, last: Entry, i: nat)
    requires i < |Keys(before + [last])|
    ensures var key, es := Keys(before + [last])[i], before + [last];
            if i < |Keys(before)| then key == Keys(before)[i] && GroupOf(before, key) != [] && GroupOf(es, key)[..1] == GroupOf(before, key)[..1]
            else i == |Keys(before)| && GroupOf(es, key) == [last]
  {
    KeysSnoc(before, last);
    KeysOfGroups(before);
    var key := Keys(before + [last])[i];
    GroupSnoc(before, last, key);
    if i < |Keys(before)| {
      assert Keys(before)[i] in Keys(before);
    }
  }

  /** The groups come in the order of their first entries. */
  lemma {:induction false} GroupsAscend(es: seq<Entry>, i: nat, j: nat)
    requires Sorted(es) && i < j < |Keys(es)|
    ensures var d, e := GroupOf(es, Keys(es)[i]), GroupOf(es, Keys(es)[j]); d != [] && e != [] && Count(d[0]) <= Count(e[0])
  {
    var n := |es| - 1;
    var before, last := es[..n], es[n];
    assert es == before + [last];
    FirstOfGroup(before, last, i);
    FirstOfGroup(before, last, j);
    if j < |Keys(before)| {
      GroupsAscend(before, i, j);
      assert GroupOf(es, Keys(es)[i])[0] == GroupOf(es, Keys(es)[i])[..1][0];
      assert GroupOf(es, Keys(es)[j])[0] == GroupOf(es, Keys(es)[j])[..1][0];
    } else {
      var d := GroupOf(before, Keys(es)[i]);
      assert GroupOf(es, Keys(es)[i])[0] == GroupOf(es, Keys(es)[i])[..1][0] == d[..1][0] == d[0];
      assert d[0] in before;
    }
  }

  /** One output before another: single embeds in the order of their numbers, then groups in the order of their first numbers. */
  ghost predicate MayPrecede(o: Output, p: Output) {
    match (o, p)
    case (One(d), One(e)) => Count(d) <= Count(e)
    case (One(_), Combined(_, _, _)) => true
    case (Combined(_, _, _), One(_)) => false
    case (Combined(_, _, d), Combined(_, _, e)) => d != [] && e != [] && Count(d[0]) <= Count(e[0])
  }

  lemma ListedInOrder(es: seq<Entry>, singles: seq<Entry>, keys: seq<Key>, out: seq<Output>, i: nat, j: nat)
    requires Listed(es, singles, keys, out) && Sorted(singles) && i < j < |out|
    requires forall k, l :: 0 <= k < l < |keys| ==> KeysAscend(es, keys[k], keys[l])
    ensures MayPrecede(out[i], out[j])
  {
    if i >= |singles| { assert KeysAscend(es, keys[i-|singles|], keys[j-|singles|]); }
  }

  ghost predicate KeysAscend(es: seq<Entry>, k: Key, l: Key) {
    var d, e := GroupOf(es, k), GroupOf(es, l);
    d != [] && e != [] && Count(d[0]) <= Count(e[0])
  }

  /** Single embeds are written first, in the order of their numbers, and then the groups, in the order of their first numbers. */
  lemma OutputsInOrder(queue: seq<Entry>, i: nat, j: nat)
    requires i < j < |Outputs(queue)|
    ensures MayPrecede(Outputs(queue)[i], Outputs(queue)[j])
  {
    var es := SortByCount(queue);
    SortedQueue(queue);
    OutputIsListed(es, Singles(es), Keys(es));
    SinglesAscend(es);
    forall k, l | 0 <= k < l < |Keys(es)| ensures KeysAscend(es, Keys(es)[k], Keys(es)[l]) { GroupsAscend(es, k, l); }
    ListedInOrder(es, Singles(es), Keys(es), Outputs(queue), i, j);
  }
}
