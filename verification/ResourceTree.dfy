/**
 * The resources of the metadata mock: trees of dictionaries and lists addressed by paths, where
 * setting a path creates the parents it lacks.
 */
module ResourceTree {
  import opened Wrappers
  import opened Text

  datatype Node = Dict(entries: map<string, Node>) | List(items: seq<Node>) | Leaf(text: string)

  datatype SetStatus = Done | NumericKeyOnNonList | StringKeyOnNonDict | IndexOutOfRange

  /** A leaf cannot be asked to delete a part of itself. */
  datatype DelStatus = Deleted | Missing | NotAContainer

  /** The child of a node at a path component. */
  function Child(n: Node, p: string): Option<Node> {
    match n
    case Dict(entries) => if p in entries then Some(entries[p]) else None
    case List(items) => if IsNumeric(p) && ParseNat(p) < |items| then Some(items[ParseNat(p)]) else None
    case Leaf(_) => None
  }

  function GetAt(n: Node, path: seq<string>): Option<Node> {
    if path == [] then Some(n)
    else match Child(n, path[0])
      case None => None
      case Some(c) => GetAt(c, path[1..])
  }

  /** Whether the component may be used on the node, as the source checks before it looks further. */
  function KeyStatus(n: Node, p: string): SetStatus {
    if IsNumeric(p) && !n.List? then NumericKeyOnNonList
    else if !IsNumeric(p) && !n.Dict? then StringKeyOnNonDict
    else if IsNumeric(p) && ParseNat(p) > |n.items| then IndexOutOfRange
    else Done
  }

  /** The node has, or can get, a child at the component. */
  predicate HasPlace(n: Node, p: string) {
    n.Dict? || (n.List? && IsNumeric(p) && ParseNat(p) <= |n.items|)
  }

  /** The node with a child replaced, or added. */
  function WithChild(n: Node, p: string, c: Node): Node
    requires HasPlace(n, p)
  {
    if n.Dict? then Dict(n.entries[p := c])
    else
      var i := ParseNat(p);
      List(if i < |n.items| then n.items[i := c] else n.items + [c])
  }

  /** A missing parent is a list or a dictionary, as the next component demands. */
  function NewParent(next: string): Node {
    if IsNumeric(next) then List([]) else Dict(map[])
  }

  /** Set a path; a failure may leave new, empty parents behind. */
  function SetAt(n: Node, path: seq<string>, resource: Node): (SetStatus, Node)
    requires path != []
    decreases |path|
  {
    var p := path[0];
    if KeyStatus(n, p) != Done then (KeyStatus(n, p), n)
    else if |path| == 1 then (Done, WithChild(n, p, resource))
    else
      var child := match Child(n, p) case Some(c) => c case None => NewParent(path[1]);
      var (status, child') := SetAt(child, path[1..], resource);
      (status, WithChild(n, p, child'))
  }

  function WithoutChild(n: Node, p: string): Node
    requires Child(n, p).Some?
  {
    if n.Dict? then Dict(n.entries - {p})
    else List(n.items[..ParseNat(p)] + n.items[ParseNat(p)+1..])
  }

  function DelAt(n: Node, path: seq<string>): (DelStatus, Node)
    requires path != []
  {
    var p := path[0];
    if n.Leaf? then (if |path| == 1 then NotAContainer else Missing, n)
    else match Child(n, p)
      case None => (Missing, n)
      case Some(c) =>
        if |path| == 1 then (Deleted, WithoutChild(n, p))
        else
          var (status, c') := DelAt(c, path[1..]);
          (status, WithChild(n, p, c'))
  }

  // ----- Which paths name the same place -----

  /** Two components that no node can tell apart when both are valid on it. */
  predicate SameKey(p: string, q: string) {
    p == q || (IsNumeric(p) && IsNumeric(q) && ParseNat(p) == ParseNat(q))
  }

  /** Paths that part ways before either ends. */
  predicate Diverges(p: seq<string>, q: seq<string>) {
    p != [] && q != [] && (!SameKey(p[0], q[0]) || Diverges(p[1..], q[1..]))
  }

  // ----- Laws of setting -----

  lemma ChildOfWithChild(n: Node, p: string, c: Node)
    requires HasPlace(n, p) && KeyStatus(n, p) == Done
    ensures Child(WithChild(n, p, c), p) == Some(c)
    ensures KeyStatus(WithChild(n, p, c), p) == Done
    ensures forall d :: WithChild(WithChild(n, p, c), p, d) == WithChild(n, p, d)
    ensures forall q :: !SameKey(p, q) ==> Child(WithChild(n, p, c), q) == Child(n, q)
  {
    if n.List? {
      var i := ParseNat(p);
      forall d ensures WithChild(WithChild(n, p, c), p, d) == WithChild(n, p, d) {
        assert (n.items + [c])[|n.items| := d] == n.items + [d];
        assert i < |n.items| ==> n.items[i := c][i := d] == n.items[i := d];
      }
    }
  }

  /** A resource that was set is found. */
  lemma {:induction false} GetAfterSet(n: Node, path: seq<string>, resource: Node)
    requires path != [] && SetAt(n, path, resource).0 == Done
    ensures GetAt(SetAt(n, path, resource).1, path) == Some(resource)
    decreases |path|
  {
    var p := path[0];
    if |path| == 1 {
      ChildOfWithChild(n, p, resource);
      assert path[1..] == [];
    } else {
      var child := match Child(n, p) case Some(c) => c case None => NewParent(path[1]);
      GetAfterSet(child, path[1..], resource);
      ChildOfWithChild(n, p, SetAt(child, path[1..], resource).1);
    }
  }

  lemma {:induction false} NothingInNewParent(path: seq<string>)
    requires path != []
    ensures GetAt(NewParent(path[0]), path) == None && forall q :: Child(NewParent(path[0]), q) == None
  {
  }

  /** Nothing changes on diverging paths, whether or not the set succeeds. */
  lemma {:induction false} SetKeepsOthers(n: Node, path: seq<string>, resource: Node, q: seq<string>)
    requires path != [] && Diverges(path, q)
    ensures GetAt(SetAt(n, path, resource).1, q) == GetAt(n, q)
    decreases |path|
  {
    var p := path[0];
    if KeyStatus(n, p) == Done {
      if |path| == 1 {
        ChildOfWithChild(n, p, resource);
        assert !Diverges(path[1..], q[1..]);
      } else {
        var child := match Child(n, p) case Some(c) => c case None => NewParent(path[1]);
        var child' := SetAt(child, path[1..], resource).1;
        ChildOfWithChild(n, p, child');
        if SameKey(p, q[0]) {
          SetKeepsOthers(child, path[1..], resource, q[1..]);
          SameChild(n, p, q[0]);
          SameChild(WithChild(n, p, child'), p, q[0]);
          NothingInNewParent(path[1..]);
        }
      }
    }
  }

  lemma SameChild(n: Node, p: string, q: string)
    requires KeyStatus(n, p) == Done && SameKey(p, q)
    ensures Child(n, q) == Child(n, p)
  {
  }

  /** The status does not depend on the resource, and a second set at the path makes the first one void. */
  lemma {:induction false} SetTwice(n: Node, path: seq<string>, first: Node, second: Node)
    requires path != [] && SetAt(n, path, first).0 == Done
    ensures SetAt(SetAt(n, path, first).1, path, second) == SetAt(n, path, second)
    ensures SetAt(n, path, second).0 == Done
    decreases |path|
  {
    var p := path[0];
    if |path| == 1 {
      ChildOfWithChild(n, p, first);
    } else {
      var child := match Child(n, p) case Some(c) => c case None => NewParent(path[1]);
      SetTwice(child, path[1..], first, second);
      ChildOfWithChild(n, p, SetAt(child, path[1..], first).1);
    }
  }

  /** Setting what is already there changes nothing. */
  lemma {:induction false} SetSame(n: Node, path: seq<string>, resource: Node)
    requires path != [] && GetAt(n, path) == Some(resource) && SetAt(n, path, resource).0 == Done
    ensures SetAt(n, path, resource).1 == n
  {
    var p := path[0];
    var c := Child(n, p).value;
    if |path| == 1 {
      assert path[1..] == [];
    } else {
      SetSame(c, path[1..], resource);
    }
    assert n.Dict? ==> n.entries[p := c] == n.entries;
    assert n.List? ==> n.items[ParseNat(p) := c] == n.items;
  }

  /** A failed set leaves every leaf where it was; at most it adds empty parents. */
  lemma {:induction false} FailedSetKeepsLeaves(n: Node, path: seq<string>, resource: Node, q: seq<string>, text: string)
    requires path != [] && SetAt(n, path, resource).0 != Done
    requires GetAt(n, q) == Some(Leaf(text))
    ensures GetAt(SetAt(n, path, resource).1, q) == Some(Leaf(text))
    decreases |path|
  {
    var p := path[0];
    if KeyStatus(n, p) == Done {
      var child := match Child(n, p) case Some(c) => c case None => NewParent(path[1]);
      var child' := SetAt(child, path[1..], resource).1;
      ChildOfWithChild(n, p, child');
      if q != [] && SameKey(p, q[0]) {
        SameChild(n, p, q[0]);
        SameChild(WithChild(n, p, child'), p, q[0]);
        FailedSetKeepsLeaves(child, path[1..], resource, q[1..], text);
      }
    }
  }

  // ----- Laws of deleting -----

  /** Exactly the paths that resolve can be deleted; otherwise nothing changes. */
  lemma {:induction false} DeletedIffFound(n: Node, path: seq<string>)
    requires path != []
    ensures DelAt(n, path).0 == Deleted <==> GetAt(n, path).Some?
    ensures DelAt(n, path).0 == NotAContainer <==>
              GetAt(n, path[..|path|-1]).Some? && GetAt(n, path[..|path|-1]).value.Leaf?
    ensures DelAt(n, path).0 != Deleted ==> DelAt(n, path).1 == n
  {
    var p := path[0];
    if |path| == 1 {
      assert path[1..] == [] && path[..0] == [];
    } else if Child(n, p).Some? {
      var c := Child(n, p).value;
      DeletedIffFound(c, path[1..]);
      assert path[..|path|-1][1..] == path[1..][..|path|-2];
      assert path[..|path|-1][0] == p;
      assert n.Dict? ==> n.entries[p := c] == n.entries;
      assert n.List? ==> n.items[ParseNat(p) := c] == n.items;
    }
  }

  lemma ChildOfReplaced(n: Node, p: string, c: Node, q: string)
    requires Child(n, p).Some?
    ensures Child(WithChild(n, p, c), p) == Some(c)
    ensures Child(WithChild(n, p, c), q) == if q == p || (n.List? && SameKey(p, q)) then Some(c) else Child(n, q)
  {
  }

  /** Deleting under a dictionary: the path is gone, and all other keys of every dictionary and list are as they were. */
  lemma {:induction false} DeleteFromDict(n: Node, path: seq<string>, q: seq<string>)
    requires path != [] && GetAt(n, path).Some? && GetAt(n, path[..|path|-1]).Some? && GetAt(n, path[..|path|-1]).value.Dict?
    ensures GetAt(DelAt(n, path).1, path) == None
    ensures Diverges(path, q) ==> GetAt(DelAt(n, path).1, q) == GetAt(n, q)
    decreases |path|
  {
    var p := path[0];
    if |path| == 1 {
      assert path[..0] == [] && path[1..] == [];
      assert forall k :: k != p ==> Child(WithoutChild(n, p), k) == Child(n, k);
      if Diverges(path, q) {
        assert !Diverges(path[1..], q[1..]);
      }
    } else {
      var c := Child(n, p).value;
      assert path[..|path|-1][0] == p && path[..|path|-1][1..] == path[1..][..|path|-2];
      DeleteFromDict(c, path[1..], if q == [] then [] else q[1..]);
      ChildOfReplaced(n, p, DelAt(c, path[1..]).1, if q == [] then "" else q[0]);
    }
  }

  /** Every other key of the dictionary, and what is below it, is as it was, also one that is the same number written otherwise. */
  lemma {:induction false} DeleteKeepsKeys(n: Node, prefix: seq<string>, p: string, k: string, rest: seq<string>)
    requires GetAt(n, prefix + [p]).Some? && GetAt(n, prefix).Some? && GetAt(n, prefix).value.Dict? && k != p
    ensures GetAt(DelAt(n, prefix + [p]).1, prefix + [k] + rest) == GetAt(n, prefix + [k] + rest)
    decreases |prefix|
  {
    if prefix == [] {
      assert [] + [p] == [p] && [p][1..] == [];
      assert ([] + [k] + rest)[0] == k && ([] + [k] + rest)[1..] == rest;
      assert Child(WithoutChild(n, p), k) == Child(n, k);
    } else {
      var q := prefix[0];
      assert (prefix + [p])[1..] == prefix[1..] + [p] && (prefix + [p])[0] == q;
      assert (prefix + [k] + rest)[1..] == prefix[1..] + [k] + rest && (prefix + [k] + rest)[0] == q;
      var c := Child(n, q).value;
      DeleteKeepsKeys(c, prefix[1..], p, k, rest);
      ChildOfReplaced(n, q, DelAt(c, prefix[1..] + [p]).1, q);
    }
  }

  /** The place an element of a list had before the element at i was deleted. */
  function Before(i: nat, j: nat): nat {
    if j < i then j else j + 1
  }

  /** Deleting under a list: earlier elements keep their place and each later one moves down by one. */
  lemma {:induction false} DeleteFromList(n: Node, prefix: seq<string>, p: string, k: string, k': string, rest: seq<string>)
    requires GetAt(n, prefix + [p]).Some? && GetAt(n, prefix).Some? && GetAt(n, prefix).value.List?
    requires IsNumeric(p) && IsNumeric(k) && IsNumeric(k') && ParseNat(k') == Before(ParseNat(p), ParseNat(k))
    ensures GetAt(DelAt(n, prefix + [p]).1, prefix + [k] + rest) == GetAt(n, prefix + [k'] + rest)
    decreases |prefix|
  {
    if prefix == [] {
      assert [] + [p] == [p] && [p][1..] == [];
      assert ([] + [k] + rest)[1..] == rest && ([] + [k'] + rest)[1..] == rest;
      var i, items := ParseNat(p), n.items;
      var less := items[..i] + items[i+1..];
      assert forall j :: 0 <= j < |less| ==> less[j] == items[Before(i, j)];
    } else {
      var q := prefix[0];
      assert (prefix + [p])[1..] == prefix[1..] + [p] && (prefix + [p])[0] == q;
      assert (prefix + [k] + rest)[1..] == prefix[1..] + [k] + rest && (prefix + [k] + rest)[0] == q;
      assert (prefix + [k'] + rest)[1..] == prefix[1..] + [k'] + rest && (prefix + [k'] + rest)[0] == q;
      var c := Child(n, q).value;
      DeleteFromList(c, prefix[1..], p, k, k', rest);
      ChildOfReplaced(n, q, DelAt(c, prefix[1..] + [p]).1, q);
    }
  }

  /** Paths that part from the deleted one above its last component are untouched. */
  lemma {:induction false} DeleteKeepsOthers(n: Node, path: seq<string>, q: seq<string>)
    requires path != [] && GetAt(n, path).Some? && Diverges(path[..|path|-1], q)
    ensures GetAt(DelAt(n, path).1, q) == GetAt(n, q)
    decreases |path|
  {
    var p := path[0];
    assert path[..|path|-1][0] == p && path[..|path|-1][1..] == path[1..][..|path|-2];
    var c := Child(n, p).value;
    ChildOfReplaced(n, p, DelAt(c, path[1..]).1, q[0]);
    if Diverges(path[..|path|-1][1..], q[1..]) {
      DeleteKeepsOthers(c, path[1..], q[1..]);
    }
  }

  /** At the parent itself, deleting the new child restores it. */
  lemma DeleteNewChild(n: Node, p: string, resource: Node)
    requires KeyStatus(n, p) == Done && HasPlace(n, p) && Child(n, p) == None
    ensures Child(WithChild(n, p, resource), p).Some? && WithoutChild(WithChild(n, p, resource), p) == n
  {
    ChildOfWithChild(n, p, resource);
    if n.Dict? {
      assert n.entries[p := resource] - {p} == n.entries;
    } else {
      var i, more := ParseNat(p), n.items + [resource];
      assert more[..i] + more[i+1..] == n.items;
    }
  }

  lemma PutBack(n: Node, p: string, c: Node, c': Node)
    requires KeyStatus(n, p) == Done && HasPlace(n, p) && Child(n, p) == Some(c)
    ensures WithChild(WithChild(n, p, c'), p, c) == n
  {
    ChildOfWithChild(n, p, c');
    assert n.Dict? ==> n.entries[p := c] == n.entries;
    assert n.List? ==> n.items[ParseNat(p) := c] == n.items;
  }

  /** Deleting what was set as a new key of an existing parent restores the tree. */
  lemma {:induction false} DeleteAfterSet(n: Node, path: seq<string>, resource: Node)
    requires path != [] && SetAt(n, path, resource).0 == Done
    requires GetAt(n, path) == None && GetAt(n, path[..|path|-1]).Some?
    ensures DelAt(SetAt(n, path, resource).1, path) == (Deleted, n)
  {
    var p := path[0];
    if |path| == 1 {
      assert path[..0] == [] && path[1..] == [];
      DeleteNewChild(n, p, resource);
    } else {
      assert path[..|path|-1][0] == p && path[..|path|-1][1..] == path[1..][..|path|-2];
      var c := Child(n, p).value;
      DeleteAfterSet(c, path[1..], resource);
      var c' := SetAt(c, path[1..], resource).1;
      ChildOfWithChild(n, p, c');
      PutBack(n, p, c, c');
    }
  }
}
