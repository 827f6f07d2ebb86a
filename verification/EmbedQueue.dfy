/**
 * The queue of embeds of a scenario: contexts reserve numbers, and at the end the queue is
 * sorted by number, single embeds are written one by one, and those with a tag are combined.
 */
module EmbedQueue {
  import opened Wrappers
  import opened Intervals
  import opened Sorting

  /** The tag under which entries are combined; entries without one stand alone, and some are never embedded. */
  datatype CombineTag = NoEmbed | NoTag | Named(name: string)

  /** A reserved number, and the formatter's object to fill, if there is a formatter. */
  datatype Context = Context(count: int, embed: Option<nat>)

  datatype Entry = Entry(id: nat, tag: CombineTag, ctx: Option<Context>)

  datatype Key = Key(name: string, embed: Option<nat>)

  datatype Output = One(entry: Entry) | Combined(key: Key, counts: string, entries: seq<Entry>)

  // ----- Order -----

  function Count(e: Entry): int {
    match e.ctx case Some(c) => c.count case None => 0
  }

  ghost predicate Sorted(es: seq<Entry>) {
    forall i, j :: 0 <= i < j < |es| ==> Count(es[i]) <= Count(es[j])
  }

  predicate NotAfter(d: Entry, e: Entry) {
    Count(d) <= Count(e)
  }

  /** The queue by reserved number; entries of one number keep their order. */
  function SortByCount(es: seq<Entry>): (r: seq<Entry>)
    ensures multiset(r) == multiset(es)
  {
    Sort(NotAfter, es)
  }

  /** The entries with a number, in order. */
  function WithCount(es: seq<Entry>, n: int): seq<Entry> {
    if es == [] then [] else (if Count(es[0]) == n then [es[0]] else []) + WithCount(es[1..], n)
  }

  lemma {:induction false} WithCountIsTies(es: seq<Entry>, e: Entry)
    ensures WithCount(es, Count(e)) == Ties(NotAfter, e, es)
  {
    if es != [] { WithCountIsTies(es[1..], e); }
  }

  /** The sorted queue has the same entries in ascending order, and those of one number as they were queued. */
  lemma SortedQueue(es: seq<Entry>)
    ensures Sorted(SortByCount(es)) && forall n :: WithCount(SortByCount(es), n) == WithCount(es, n)
  {
    SortSorts(NotAfter, es);
    forall n ensures WithCount(SortByCount(es), n) == WithCount(es, n) {
      var e := Entry(0, NoTag, Some(Context(n, None)));
      SortIsStable(NotAfter, e, es);
      WithCountIsTies(es, e);
      WithCountIsTies(SortByCount(es), e);
    }
  }

  // ----- What becomes of the entries -----

  predicate Eligible(e: Entry) {
    e.ctx.Some? && !e.tag.NoEmbed?
  }

  predicate Single(e: Entry) {
    e.ctx.Some? && e.tag.NoTag?
  }

  predicate InGroup(e: Entry, key: Key) {
    e.ctx.Some? && e.tag.Named? && key == Key(e.tag.name, e.ctx.value.embed)
  }

  function EligibleOf(es: seq<Entry>): (r: seq<Entry>)
  {
    if es == [] then [] else EligibleOf(es[..|es|-1]) + (if Eligible(es[|es|-1]) then [es[|es|-1]] else [])
  }

  function Singles(es: seq<Entry>): (r: seq<Entry>)
    ensures forall e :: e in r ==> e in es && Single(e)
  {
    if es == [] then [] else Singles(es[..|es|-1]) + (if Single(es[|es|-1]) then [es[|es|-1]] else [])
  }

  /** The entries of a group, in order. */
  function GroupOf(es: seq<Entry>, key: Key): (r: seq<Entry>)
    ensures forall e :: e in r <==> e in es && InGroup(e, key)
  {
    if es == [] then []
    else
      assert es == es[..|es|-1] + [es[|es|-1]];
      GroupOf(es[..|es|-1], key) + (if InGroup(es[|es|-1], key) then [es[|es|-1]] else [])
  }

  function KeyOf(e: Entry): Key
    requires e.ctx.Some? && e.tag.Named?
  {
    Key(e.tag.name, e.ctx.value.embed)
  }

  /** The keys of the groups, in the order of their first entries. */
  function Keys(es: seq<Entry>): (r: seq<Key>)
  {
    if es == [] then []
    else
      var ks, e := Keys(es[..|es|-1]), es[|es|-1];
      if e.ctx.Some? && e.tag.Named? && KeyOf(e) !in ks then ks + [KeyOf(e)] else ks
  }

  lemma {:induction false} KeysOfGroups(es: seq<Entry>)
    ensures forall i, j :: 0 <= i < j < |Keys(es)| ==> Keys(es)[i] != Keys(es)[j]
    ensures forall k :: k in Keys(es) <==> GroupOf(es, k) != []
  {
    if es != [] {
      var before, e := es[..|es|-1], es[|es|-1];
      KeysOfGroups(before);
      forall k ensures k in Keys(es) <==> GroupOf(es, k) != [] {
        assert k in Keys(es) <==> k in Keys(before) || InGroup(e, k);
        assert GroupOf(es, k) == GroupOf(before, k) + (if InGroup(e, k) then [e] else []);
      }
    }
  }

  function Ones(es: seq<Entry>): seq<Output> {
    seq(|es|, i requires 0 <= i < |es| => One(es[i]))
  }

  function Counts(es: seq<Entry>): seq<int> {
    seq(|es|, i requires 0 <= i < |es| => Count(es[i]))
  }

  function Combine(es: seq<Entry>, key: Key): Output {
    Combined(key, Caption(Counts(GroupOf(es, key))), GroupOf(es, key))
  }

  function Groups(es: seq<Entry>, keys: seq<Key>): seq<Output> {
    seq(|keys|, i requires 0 <= i < |keys| => Combine(es, keys[i]))
  }

  /** The output for a queue: the single embeds in order, then the groups. */
  function Outputs(queue: seq<Entry>): seq<Output> {
    var es := SortByCount(queue);
    Ones(Singles(es)) + Groups(es, Keys(es))
  }

  // ----- Nothing is lost, nothing is doubled -----

  function Written(o: Output): multiset<Entry> {
    match o case One(e) => multiset{e} case Combined(_, _, es) => multiset(es)
  }

  /** What g gives for each element, together. */
  function Sum<T>(g: T -> multiset<Entry>, s: seq<T>): multiset<Entry> {
    if s == [] then multiset{} else Sum(g, s[..|s|-1]) + g(s[|s|-1])
  }

  lemma {:induction false} SumJoin<T>(g: T -> multiset<Entry>, a: seq<T>, b: seq<T>)
    ensures Sum(g, a + b) == Sum(g, a) + Sum(g, b)
  {
    var ab := a + b;
    if b == [] {
      assert ab == a;
    } else {
      SumJoin(g, a, b[..|b|-1]);
      assert ab[..|ab|-1] == a + b[..|b|-1] && ab[|ab|-1] == b[|b|-1];
    }
  }

  function EntriesOf(out: seq<Output>): multiset<Entry> {
    Sum(Written, out)
  }

  lemma {:induction false} EntriesOfOnes(es: seq<Entry>)
    ensures EntriesOf(Ones(es)) == multiset(es)
  {
    if es != [] {
      var n := |es| - 1;
      EntriesOfOnes(es[..n]);
      assert Ones(es)[..n] == Ones(es[..n]) && es == es[..n] + [es[n]];
    }
  }

  function InGroups(es: seq<Entry>, keys: seq<Key>): multiset<Entry> {
    Sum(k => multiset(GroupOf(es, k)), keys)
  }

  lemma {:induction false} EntriesOfGroups(es: seq<Entry>, keys: seq<Key>)
    ensures EntriesOf(Groups(es, keys)) == InGroups(es, keys)
  {
    if keys != [] {
      var n := |keys| - 1;
      var out := Groups(es, keys);
      EntriesOfGroups(es, keys[..n]);
      assert out[..n] == Groups(es, keys[..n]);
      assert out[n] == Combine(es, keys[n]);
    }
  }

  predicate Grouped(e: Entry) {
    e.ctx.Some? && e.tag.Named?
  }

  lemma GroupSnoc(es: seq<Entry>, e: Entry, key: Key)
    ensures GroupOf(es + [e], key) == GroupOf(es, key) + (if Grouped(e) && key == KeyOf(e) then [e] else [])
  {
    assert (es + [e])[..|es|] == es;
  }

  function Added(e: Entry, there: bool): multiset<Entry> {
    if there then multiset{e} else multiset{}
  }

  lemma GroupElementsSnoc(es: seq<Entry>, e: Entry, key: Key)
    ensures multiset(GroupOf(es + [e], key)) == multiset(GroupOf(es, key)) + Added(e, Grouped(e) && key == KeyOf(e))
  {
    GroupSnoc(es, e, key);
  }

  /** If only the group of one key gains an entry, so does the sum, once. */
  lemma {:induction false} SumGains(g: Key -> multiset<Entry>, g': Key -> multiset<Entry>, keys: seq<Key>, key: Key, e: Entry)
    requires forall i, j :: 0 <= i < j < |keys| ==> keys[i] != keys[j]
    requires forall k :: g'(k) == g(k) + Added(e, k == key)
    ensures Sum(g', keys) == Sum(g, keys) + Added(e, key in keys)
  {
    if keys != [] {
      var n := |keys| - 1;
      SumGains(g, g', keys[..n], key, e);
      assert keys == keys[..n] + [keys[n]] && keys[n] !in keys[..n];
    }
  }

  lemma {:induction false} SumSame(g: Key -> multiset<Entry>, g': Key -> multiset<Entry>, keys: seq<Key>)
    requires forall k :: g'(k) == g(k)
    ensures Sum(g', keys) == Sum(g, keys)
  {
    if keys != [] { SumSame(g, g', keys[..|keys|-1]); }
  }

  /** One more entry at the end adds itself to the group of its key, and to no other. */
  lemma OneMoreEntry(es: seq<Entry>, e: Entry, keys: seq<Key>)
    requires forall i, j :: 0 <= i < j < |keys| ==> keys[i] != keys[j]
    ensures InGroups(es + [e], keys) == InGroups(es, keys) + Added(e, Grouped(e) && KeyOf(e) in keys)
  {
    var g, g' := k => multiset(GroupOf(es, k)), k => multiset(GroupOf(es + [e], k));
    forall k ensures g'(k) == g(k) + Added(e, Grouped(e) && k == KeyOf(e)) { GroupElementsSnoc(es, e, k); }
    if Grouped(e) {
      SumGains(g, g', keys, KeyOf(e), e);
    } else {
      SumSame(g, g', keys);
    }
  }

  lemma KeysSnoc(es: seq<Entry>, e: Entry)
    ensures Keys(es + [e]) == if Grouped(e) && KeyOf(e) !in Keys(es) then Keys(es) + [KeyOf(e)] else Keys(es)
    ensures Singles(es + [e]) == Singles(es) + (if Single(e) then [e] else [])
    ensures EligibleOf(es + [e]) == EligibleOf(es) + (if Eligible(e) then [e] else [])
  {
    assert (es + [e])[..|es|] == es;
  }

  lemma InGroupsSnoc(es: seq<Entry>, keys: seq<Key>, key: Key)
    ensures InGroups(es, keys + [key]) == InGroups(es, keys) + multiset(GroupOf(es, key))
  {
    assert (keys + [key])[..|keys|] == keys;
  }

  lemma GroupsOfSnoc(es: seq<Entry>, e: Entry)
    ensures InGroups(es + [e], Keys(es + [e])) == InGroups(es, Keys(es)) + Added(e, Grouped(e))
  {
    KeysOfGroups(es);
    KeysSnoc(es, e);
    OneMoreEntry(es, e, Keys(es));
    if Grouped(e) && KeyOf(e) !in Keys(es) {
      InGroupsSnoc(es + [e], Keys(es), KeyOf(e));
      GroupElementsSnoc(es, e, KeyOf(e));
    }
  }

  /** One more entry adds itself to the singles, to the groups, or to neither, as it does to the eligible entries. */
  lemma OneMoreEligible(s: multiset<Entry>, g: multiset<Entry>, e: Entry)
    ensures (s + Added(e, Single(e))) + (g + Added(e, Grouped(e))) == (s + g) + Added(e, Eligible(e))
  {
  }

  lemma AddedLast(es: seq<Entry>, e: Entry, there: bool)
    ensures multiset(es + (if there then [e] else [])) == multiset(es) + Added(e, there)
  {
  }

  /** Singles and groups together are the eligible entries. */
  ghost predicate Balanced(es: seq<Entry>) {
    multiset(Singles(es)) + InGroups(es, Keys(es)) == multiset(EligibleOf(es))
  }

  lemma BalancedSnoc(before: seq<Entry>, e: Entry)
    requires Balanced(before)
    ensures Balanced(before + [e])
  {
    KeysSnoc(before, e);
    GroupsOfSnoc(before, e);
    AddedLast(Singles(before), e, Single(e));
    AddedLast(EligibleOf(before), e, Eligible(e));
    OneMoreEligible(multiset(Singles(before)), InGroups(before, Keys(before)), e);
  }

  /** What holds of the empty list, and of a list with one more element at the end, holds of every list. */
  lemma {:induction false} SnocInduction<T(!new)>(p: seq<T> -> bool, s: seq<T>)
    requires p([]) && forall r, x :: p(r) ==> p(r + [x])
    ensures p(s)
  {
    if s != [] {
      SnocInduction(p, s[..|s|-1]);
      assert s == s[..|s|-1] + [s[|s|-1]];
    }
  }

  lemma SinglesAndGroups(es: seq<Entry>)
    ensures Balanced(es)
  {
    forall r, x | Balanced(r) ensures Balanced(r + [x]) { BalancedSnoc(r, x); }
    SnocInduction(Balanced, es);
  }

  lemma {:induction false} EligibleCount(es: seq<Entry>, e: Entry)
    ensures multiset(EligibleOf(es))[e] == if Eligible(e) then multiset(es)[e] else 0
  {
    if es != [] {
      var n := |es| - 1;
      EligibleCount(es[..n], e);
      assert es == es[..n] + [es[n]];
    }
  }

  /** Every queued entry with a context and a tag other than the one for no embed is written exactly once. */
  lemma OutputsConserveEntries(queue: seq<Entry>)
    ensures EntriesOf(Outputs(queue)) == multiset(EligibleOf(queue))
  {
    var es := SortByCount(queue);
    SumJoin(Written, Ones(Singles(es)), Groups(es, Keys(es)));
    EntriesOfOnes(Singles(es));
    EntriesOfGroups(es, Keys(es));
    SinglesAndGroups(es);
    forall e ensures multiset(EligibleOf(es))[e] == multiset(EligibleOf(queue))[e] {
      EligibleCount(es, e);
      EligibleCount(queue, e);
    }
  }

  lemma {:induction false} GroupIsSorted(es: seq<Entry>, key: Key)
    requires Sorted(es)
    ensures Sorted(GroupOf(es, key))
  {
    if es != [] {
      var n := |es| - 1;
      GroupIsSorted(es[..n], key);
      forall x | x in GroupOf(es[..n], key) ensures Count(x) <= Count(es[n]) {
        assert x in es[..n];
      }
    }
  }

  /**
   * Each group holds exactly the entries of one tag and embed object, in ascending order of their
   * numbers, and its caption expands back to exactly those numbers.
   */
  lemma GroupsAreClasses(queue: seq<Entry>, key: Key)
    requires exists e :: e in queue && InGroup(e, key)
    ensures var group := GroupOf(SortByCount(queue), key);
            && Combine(SortByCount(queue), key) in Outputs(queue)
            && (forall e :: e in group <==> e in queue && InGroup(e, key))
            && Sorted(group) && Expand(Caption(Counts(group))) == Counts(group)
  {
    var es := SortByCount(queue);
    SortedQueue(queue);
    GroupIsSorted(es, key);
    KeysOfGroups(es);
    ExpandCaption(Counts(GroupOf(es, key)));
    assert forall e :: e in es <==> e in multiset(es);
    assert forall e :: e in queue <==> e in multiset(queue);
    var e :| e in queue && InGroup(e, key);
    assert e in GroupOf(es, key);
    var i :| 0 <= i < |Keys(es)| && Keys(es)[i] == key;
    assert Groups(es, Keys(es))[i] == Combine(es, key);
  }

  /** No key is combined twice. */
  lemma OneGroupPerKey(queue: seq<Entry>, i: nat, j: nat)
    requires i < j < |Outputs(queue)| && Outputs(queue)[i].Combined? && Outputs(queue)[j].Combined?
    ensures Outputs(queue)[i].key != Outputs(queue)[j].key
  {
    KeysOfGroups(SortByCount(queue));
  }

  /** The keys of some entries, and the entries of each. */
  ghost predicate Collected(es: seq<Entry>, keys: seq<Key>, lists: map<Key, seq<Entry>>) {
    keys == Keys(es) && (forall k :: k in lists <==> k in keys) && forall k :: k in keys ==> lists[k] == GroupOf(es, k)
  }

  /** What collecting one more entry adds: it joins the list of its key, which is new if there was none. */
  lemma CollectSnoc(es: seq<Entry>, e: Entry, keys: seq<Key>, lists: map<Key, seq<Entry>>, keys': seq<Key>, lists': map<Key, seq<Entry>>)
    requires Grouped(e) && Collected(es, keys, lists)
    requires keys' == (if KeyOf(e) in lists then keys else keys + [KeyOf(e)])
    requires lists' == lists[KeyOf(e) := (if KeyOf(e) in lists then lists[KeyOf(e)] else []) + [e]]
    ensures Collected(es + [e], keys', lists')
  {
    var key := KeyOf(e);
    KeysSnoc(es, e);
    forall k | k in keys' ensures lists'[k] == GroupOf(es + [e], k) {
      GroupSnoc(es, e, k);
      if k == key && key !in lists { NoGroupYet(es, key); }
    }
  }

  lemma NoGroupYet(es: seq<Entry>, key: Key)
    requires key !in Keys(es)
    ensures GroupOf(es, key) == []
  {
    KeysOfGroups(es);
  }

  /** An entry that is not grouped leaves the collection as it is. */
  lemma CollectNothing(es: seq<Entry>, e: Entry, keys: seq<Key>, lists: map<Key, seq<Entry>>)
    requires !Grouped(e) && Collected(es, keys, lists)
    ensures Collected(es + [e], keys, lists)
  {
    KeysSnoc(es, e);
    forall k ensures GroupOf(es + [e], k) == GroupOf(es, k) { GroupSnoc(es, e, k); }
  }

  // ----- Reserving -----

  /** The numbers reserved so far, the objects stored for names, how many objects were handed out, and the queue. */
  datatype EmbedState = EmbedState(count: nat, tags: map<CombineTag, nat>, handed: nat, queue: seq<Entry>)

  /** The context a tag gets: the next number, and within a step the same object for the same name. */
  function ContextOf(formatter: bool, st: EmbedState, tag: CombineTag): Context {
    if tag.NoEmbed? then Context(-1, None)
    else Context(st.count + 1, if tag in st.tags then Some(st.tags[tag]) else if formatter then Some(st.handed) else None)
  }

  /** The state after a context was made for the tag: a new object is stored under its name, if it has one. */
  function Reserve(formatter: bool, st: EmbedState, tag: CombineTag): EmbedState {
    if tag.NoEmbed? then st
    else if tag in st.tags || !formatter then st.(count := st.count + 1)
    else
      var tags := if tag.Named? && tag.name != "" then st.tags[tag := st.handed] else st.tags;
      st.(count := st.count + 1, tags := tags, handed := st.handed + 1)
  }

  /** The state after an entry was queued: without a context of its own it reserves one, if there is a formatter. */
  function Enqueue(formatter: bool, st: EmbedState, id: nat, tag: CombineTag, context: Option<Context>): EmbedState {
    if context.None? && formatter then
      var st' := Reserve(formatter, st, tag);
      st'.(queue := st'.queue + [Entry(id, tag, Some(ContextOf(formatter, st, tag)))])
    else st.(queue := st.queue + [Entry(id, tag, context)])
  }

  // ----- The object -----

  class Embeds {
    const hasFormatter: bool
    var embedCount: nat
    var combineTags: map<CombineTag, nat>
    var toEmbed: seq<Entry>
    /** How many objects the formatter has handed out. */
    var formatterCount: nat

    ghost function St(): EmbedState
      reads this
    {
      EmbedState(embedCount, combineTags, formatterCount, toEmbed)
    }

    /** Stored tags are names; what they stand for was handed out. */
    ghost predicate Valid()
      reads this
    {
      && (forall t :: t in combineTags ==> t.Named? && t.name != "" && combineTags[t] < formatterCount)
      && (combineTags != map[] ==> hasFormatter)
    }

    constructor (hasFormatter: bool)
      ensures Valid() && this.hasFormatter == hasFormatter && St() == EmbedState(0, map[], 0, [])
    {
      this.hasFormatter, embedCount, combineTags, toEmbed, formatterCount := hasFormatter, 0, map[], [], 0;
    }

    /** A number is taken, and the object is the one stored for the name, or else a new one of the formatter. */
    method GetEmbedContext(tag: CombineTag) returns (c: Context)
      requires Valid()
      modifies this`embedCount, this`combineTags, this`formatterCount
      ensures Valid() && c == ContextOf(hasFormatter, old(St()), tag) && St() == Reserve(hasFormatter, old(St()), tag)
      ensures tag.NoEmbed? ==> c == Context(-1, None) && St() == old(St())
      ensures !tag.NoEmbed? ==> c.count == old(embedCount) + 1 == embedCount
      ensures !tag.NoEmbed? && tag in old(combineTags) ==>
                c.embed == Some(old(combineTags)[tag]) && formatterCount == old(formatterCount) && combineTags == old(combineTags)
      ensures !tag.NoEmbed? && tag !in old(combineTags) ==>
                && (if hasFormatter then c.embed == Some(old(formatterCount)) && formatterCount == old(formatterCount) + 1
                    else c.embed == None && formatterCount == old(formatterCount))
                && combineTags == if hasFormatter && tag.Named? && tag.name != "" then old(combineTags)[tag := old(formatterCount)]
                                  else old(combineTags)
    {
      if tag.NoEmbed? {
        return Context(-1, None);
      }
      embedCount := embedCount + 1;
      var embed := None;
      if tag in combineTags {
        embed := Some(combineTags[tag]);
      } else if hasFormatter {
        embed := Some(formatterCount);
        formatterCount := formatterCount + 1;
        if tag.Named? && tag.name != "" {
          combineTags := combineTags[tag := embed.value];
        }
      }
      c := Context(embedCount, embed);
    }

    method AfterStep()
      requires Valid()
      modifies this`combineTags
      ensures Valid() && St() == old(St()).(tags := map[])
    {
      combineTags := map[];
    }

    /** Queue an entry; without a context of its own it reserves one, if there is a formatter. */
    method Queue(id: nat, tag: CombineTag, context: Option<Context>)
      requires Valid()
      modifies this
      ensures Valid() && St() == Enqueue(hasFormatter, old(St()), id, tag, context)
    {
      var ctx := context;
      if context.None? && hasFormatter {
        var c := GetEmbedContext(tag);
        ctx := Some(c);
      }
      toEmbed := toEmbed + [Entry(id, tag, ctx)];
    }

    /** Consume the queue from the front: write the single embeds, and collect the others by key. */
    method Consume() returns (out: seq<Output>, keys: seq<Key>, lists: map<Key, seq<Entry>>)
      modifies this`toEmbed
      ensures toEmbed == [] && out == Ones(Singles(old(toEmbed))) && keys == Keys(old(toEmbed))
      ensures forall k :: k in keys ==> k in lists && lists[k] == GroupOf(old(toEmbed), k)
    {
      ghost var es := toEmbed;
      out, keys, lists := [], [], map[];
      ghost var i := 0;
      while toEmbed != []
        invariant 0 <= i <= |es| && toEmbed == es[i..]
        invariant out == Ones(Singles(es[..i]))
        invariant Collected(es[..i], keys, lists)
        decreases |toEmbed|
      {
        var entry := toEmbed[0];
        toEmbed := toEmbed[1..];
        NextOne(es, i);
        i := i + 1;
        if entry.ctx.None? || entry.tag.NoEmbed? {
          CollectNothing(es[..i-1], entry, keys, lists);
          continue;
        }
        if entry.tag.NoTag? {
          CollectNothing(es[..i-1], entry, keys, lists);
          out := out + [One(entry)];
          continue;
        }
        ghost var keys0, lists0 := keys, lists;
        var key := KeyOf(entry);
        if key !in lists {
          lists := lists[key := []];
          keys := keys + [key];
        }
        lists := lists[key := lists[key] + [entry]];
        CollectSnoc(es[..i-1], entry, keys0, lists0, keys, lists);
      }
      assert es[..|es|] == es;
    }

    /** Sort the queue, consume it, and write the groups at the end. */
    method ProcessEmbeds() returns (out: seq<Output>)
      modifies this`toEmbed
      ensures toEmbed == [] && out == Outputs(old(toEmbed))
    {
      toEmbed := SortByCount(toEmbed);
      ghost var es := toEmbed;
      var ones, keys, lists := Consume();
      var groups := EmbedCombines(es, keys, lists);
      out := ones + groups;
    }
  }

  /** Write the groups, each under the caption of its numbers. */
  method EmbedCombines(ghost es: seq<Entry>, keys: seq<Key>, lists: map<Key, seq<Entry>>) returns (out: seq<Output>)
    requires forall k :: k in keys ==> k in lists && lists[k] == GroupOf(es, k)
    ensures out == Groups(es, keys)
  {
    out := [];
    for j := 0 to |keys|
      invariant |out| == j && forall k :: 0 <= k < j ==> out[k] == Combine(es, keys[k])
    {
      var lst := lists[keys[j]];
      var caption := ListToIntervals(Counts(lst));
      assert Combined(keys[j], caption, lst) == Combine(es, keys[j]);
      out := out + [Combined(keys[j], caption, lst)];
    }
  }

  /** What the next entry adds to the single embeds. */
  lemma NextOne(es: seq<Entry>, i: nat)
    requires i < |es|
    ensures es[i..][0] == es[i] && es[i..][1..] == es[i+1..] && es[..i+1] == es[..i] + [es[i]]
    ensures Ones(Singles(es[..i+1])) == Ones(Singles(es[..i])) + (if Single(es[i]) then [One(es[i])] else [])
  {
    assert es[..i+1] == es[..i] + [es[i]];
    KeysSnoc(es[..i], es[i]);
  }
}
