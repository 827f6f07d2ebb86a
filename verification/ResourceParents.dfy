/**
 * What reading and setting a path mean, said of the nodes along the path: which paths resolve,
 * which can be set, how a set is refused, and which parents it makes.
 */
module ResourceParents {
  import opened Wrappers
  import opened Text
  import opened ResourceTree

  // ----- Reading -----

  /** From one node to the next: a key of a dictionary, or an index of a list. */
  ghost predicate StepsTo(n: Node, p: string, c: Node) {
    || (n.Dict? && p in n.entries && n.entries[p] == c)
    || (n.List? && IsNumeric(p) && ParseNat(p) < |n.items| && n.items[ParseNat(p)] == c)
  }

  /** The nodes along a path, from its root on. */
  ghost predicate Along(nodes: seq<Node>, path: seq<string>) {
    |nodes| == |path| + 1 && forall i :: 0 <= i < |path| ==> StepsTo(nodes[i], path[i], nodes[i+1])
  }

  lemma {:induction false} FoundAlong(n: Node, path: seq<string>) returns (nodes: seq<Node>)
    requires GetAt(n, path).Some?
    ensures Along(nodes, path) && nodes[0] == n && nodes[|path|] == GetAt(n, path).value
  {
    if path == [] {
      nodes := [n];
    } else {
      var rest := FoundAlong(Child(n, path[0]).value, path[1..]);
      nodes := [n] + rest;
      forall i | 0 <= i < |path| ensures StepsTo(nodes[i], path[i], nodes[i+1]) {
        if i > 0 { assert StepsTo(rest[i-1], path[1..][i-1], rest[i]); }
      }
    }
  }

  lemma {:induction false} AlongIsFound(nodes: seq<Node>, path: seq<string>)
    requires Along(nodes, path)
    ensures GetAt(nodes[0], path) == Some(nodes[|path|])
  {
    if path != [] {
      forall i | 0 <= i < |path| - 1 ensures StepsTo(nodes[1..][i], path[1..][i], nodes[1..][i+1]) {
        assert StepsTo(nodes[i+1], path[i+1], nodes[i+2]);
      }
      assert StepsTo(nodes[0], path[0], nodes[1]);
      AlongIsFound(nodes[1..], path[1..]);
    }
  }

  /** A path resolves to a node exactly if there are nodes along it, from the root to that node. */
  lemma FoundIff(n: Node, path: seq<string>, c: Node)
    ensures GetAt(n, path) == Some(c) <==> exists nodes :: Along(nodes, path) && nodes[0] == n && nodes[|path|] == c
  {
    if GetAt(n, path) == Some(c) { var nodes := FoundAlong(n, path); }
    if nodes :| Along(nodes, path) && nodes[0] == n && nodes[|path|] == c { AlongIsFound(nodes, path); }
  }

  // ----- When a set succeeds -----

  /** A number goes into a list, up to its length; anything else into a dictionary. */
  ghost predicate Fits(parent: Node, p: string) {
    if IsNumeric(p) then parent.List? && ParseNat(p) <= |parent.items| else parent.Dict?
  }

  /** The i-th component fits its parent, if that exists; below the first missing parent numbers are zero. */
  ghost predicate FitsAt(n: Node, path: seq<string>, i: nat)
    requires i < |path|
  {
    match GetAt(n, path[..i])
    case Some(parent) => Fits(parent, path[i])
    case None => IsNumeric(path[i]) ==> ParseNat(path[i]) == 0
  }

  ghost predicate Settable(n: Node, path: seq<string>) {
    forall i :: 0 <= i < |path| ==> FitsAt(n, path, i)
  }

  lemma FitsHere(n: Node, path: seq<string>)
    requires path != []
    ensures FitsAt(n, path, 0) <==> KeyStatus(n, path[0]) == Done
  {
    assert path[..0] == [];
  }

  function NextNode(n: Node, path: seq<string>): Node
    requires |path| > 1
  {
    match Child(n, path[0]) case Some(c) => c case None => NewParent(path[1])
  }

  /** Further down the same holds of the child, or of the parent that is made. */
  lemma FitsBelow(n: Node, path: seq<string>, i: nat)
    requires 0 < i < |path| && KeyStatus(n, path[0]) == Done
    ensures FitsAt(n, path, i) <==> FitsAt(NextNode(n, path), path[1..], i - 1)
  {
    var tail := path[1..];
    assert path[..i][0] == path[0] && path[..i][1..] == tail[..i-1];
    if Child(n, path[0]).None? {
      NothingInNewParent(tail);
      if i == 1 { assert tail[..0] == []; }
    }
  }

  /** A set succeeds exactly if every component fits. */
  lemma {:induction false} SetSucceedsIff(n: Node, path: seq<string>, resource: Node)
    requires path != []
    ensures SetAt(n, path, resource).0 == Done <==> Settable(n, path)
    decreases |path|
  {
    FitsHere(n, path);
    if KeyStatus(n, path[0]) == Done && |path| > 1 {
      var child, tail := NextNode(n, path), path[1..];
      SetSucceedsIff(child, tail, resource);
      forall i | 0 <= i < |tail| ensures FitsAt(child, tail, i) <==> FitsAt(n, path, i + 1) { FitsBelow(n, path, i + 1); }
      if Settable(child, tail) {
        forall i | 0 <= i < |path| ensures FitsAt(n, path, i) { if i > 0 { FitsBelow(n, path, i); } }
      }
    }
  }

  /** The first component that does not fit. */
  ghost predicate FirstMisfit(n: Node, path: seq<string>, i: nat) {
    i < |path| && !FitsAt(n, path, i) && forall k :: 0 <= k < i ==> FitsAt(n, path, k)
  }

  /** The first component that does not fit decides how the set is refused. */
  lemma {:induction false} FirstMisfitDecides(n: Node, path: seq<string>, resource: Node, i: nat)
    requires FirstMisfit(n, path, i)
    ensures var parent := GetAt(n, path[..i]);
            SetAt(n, path, resource).0 == if !IsNumeric(path[i]) then StringKeyOnNonDict
                                          else if parent.Some? && !parent.value.List? then NumericKeyOnNonList
                                          else IndexOutOfRange
    decreases |path|
  {
    FitsHere(n, path);
    if i == 0 {
      assert path[..0] == [];
    } else {
      assert FitsAt(n, path, 0);
      var child, tail := NextNode(n, path), path[1..];
      FitsBelow(n, path, i);
      forall k | 0 <= k < i - 1 ensures FitsAt(child, tail, k) { FitsBelow(n, path, k + 1); }
      FirstMisfitDecides(child, tail, resource, i - 1);
      assert path[..i][0] == path[0] && path[..i][1..] == tail[..i-1];
      if Child(n, path[0]).None? {
        NothingInNewParent(tail);
        if i == 1 { assert tail[..0] == []; }
      }
    }
  }

  // ----- Which parents are made -----

  /** A parent made for a component: a list exactly if that is a number, with nothing but what the component names. */
  ghost predicate MadeFor(c: Node, p: string) {
    if IsNumeric(p) then c.List? && |c.items| <= 1 else c.Dict? && c.entries.Keys <= {p}
  }

  lemma FreshIsMade(path: seq<string>, resource: Node)
    requires path != []
    ensures MadeFor(SetAt(NewParent(path[0]), path, resource).1, path[0])
  {
  }

  /** Whether or not the set succeeds, every missing parent that it reaches is made, as its component demands. */
  lemma {:induction false} ParentsAreMade(n: Node, path: seq<string>, resource: Node, j: nat)
    requires 0 < j < |path| && GetAt(n, path[..j]) == None && forall k :: 0 <= k < j ==> FitsAt(n, path, k)
    ensures var c := GetAt(SetAt(n, path, resource).1, path[..j]); c.Some? && MadeFor(c.value, path[j])
    decreases |path|
  {
    assert FitsAt(n, path, 0);
    FitsHere(n, path);
    var p, child, tail := path[0], NextNode(n, path), path[1..];
    var child' := SetAt(child, tail, resource).1;
    ChildOfWithChild(n, p, child');
    assert path[..j][0] == p && path[..j][1..] == tail[..j-1];
    if j == 1 {
      assert tail[..0] == [];
      FreshIsMade(tail, resource);
    } else {
      if Child(n, p).None? {
        NothingInNewParent(tail);
        assert tail[..j-1][0] == tail[0];
      }
      forall k | 0 <= k < j - 1 ensures FitsAt(child, tail, k) { FitsBelow(n, path, k + 1); }
      ParentsAreMade(child, tail, resource, j - 1);
    }
  }
}
