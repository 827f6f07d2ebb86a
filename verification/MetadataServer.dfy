/**
 * The mock server's resources: one tree for each provider, read and changed along paths by
 * walking down from the root. The walk keeps the way back to the root, so that the stored tree
 * is at every step the tree with the node reached put back in its place.
 */
module MetadataServer {
  import opened Wrappers
  import opened Text
  import opened ResourceTree
  import opened ResourceParents

  datatype ServerError = InvalidProvider | DisabledProvider | Refused(status: SetStatus) | NotDeletable

  /** One step of the way down: the node passed, and the component followed. */
  datatype Step = Step(node: Node, key: string)

  ghost predicate Passable(trail: seq<Step>) {
    forall i :: 0 <= i < |trail| ==> HasPlace(trail[i].node, trail[i].key)
  }

  /** The whole tree, with n in the place the trail leads to. */
  function Plug(trail: seq<Step>, n: Node): Node
    requires forall i :: 0 <= i < |trail| ==> HasPlace(trail[i].node, trail[i].key)
  {
    if trail == [] then n
    else
      var last := trail[|trail|-1];
      Plug(trail[..|trail|-1], WithChild(last.node, last.key, n))
  }

  lemma PlugDeeper(trail: seq<Step>, node: Node, key: string, n: Node)
    requires Passable(trail) && HasPlace(node, key)
    ensures Passable(trail + [Step(node, key)])
    ensures Plug(trail + [Step(node, key)], n) == Plug(trail, WithChild(node, key, n))
  {
    assert (trail + [Step(node, key)])[..|trail|] == trail;
  }

  /** The child from which a set continues. */
  function NextParent(parent: Node, p: string, next: string): Node {
    match Child(parent, p) case Some(c) => c case None => NewParent(next)
  }

  /** One step down: setting the rest of the path below the child is setting the path below the parent. */
  lemma SetDescends(trail: seq<Step>, parent: Node, path: seq<string>, resource: Node)
    requires Passable(trail) && |path| > 1 && KeyStatus(parent, path[0]) == Done
    ensures var p := path[0];
            var child, deeper := NextParent(parent, p, path[1]), trail + [Step(parent, p)];
            && HasPlace(parent, p) && Passable(deeper)
            && Plug(deeper, child) == Plug(trail, WithChild(parent, p, child))
            && SetAt(parent, path, resource).0 == SetAt(child, path[1..], resource).0
            && Plug(trail, SetAt(parent, path, resource).1) == Plug(deeper, SetAt(child, path[1..], resource).1)
  {
    var p := path[0];
    var child := NextParent(parent, p, path[1]);
    PlugDeeper(trail, parent, p, child);
    PlugDeeper(trail, parent, p, SetAt(child, path[1..], resource).1);
  }

  lemma DelDescends(trail: seq<Step>, parent: Node, path: seq<string>)
    requires Passable(trail) && |path| > 1 && Child(parent, path[0]).Some?
    ensures var p, child := path[0], Child(parent, path[0]).value;
            var deeper := trail + [Step(parent, p)];
            && Passable(deeper) && Plug(deeper, child) == Plug(trail, parent)
            && DelAt(parent, path).0 == DelAt(child, path[1..]).0
            && Plug(trail, DelAt(parent, path).1) == Plug(deeper, DelAt(child, path[1..]).1)
  {
    var p, child := path[0], Child(parent, path[0]).value;
    PlugDeeper(trail, parent, p, child);
    PlugDeeper(trail, parent, p, DelAt(child, path[1..]).1);
    assert parent.Dict? ==> parent.entries[p := child] == parent.entries;
    assert parent.List? ==> parent.items[ParseNat(p) := child] == parent.items;
  }

  /** The root from which a set or a delete starts: a provider without resources gets an empty dictionary. */
  function Root(resources: map<string, Node>, provider: string): Node {
    if provider in resources then resources[provider] else Dict(map[])
  }

  class Server {
    const providers: set<string>
    const enabled: set<string>
    var resources: map<string, Node>

    constructor (providers: set<string>, enabled: set<string>)
      ensures this.providers == providers && this.enabled == enabled && resources == map[]
    {
      this.providers, this.enabled, this.resources := providers, enabled, map[];
    }

    method GetResource(provider: string, path: seq<string>) returns (r: Result<Option<Node>, ServerError>)
      requires path != []
      ensures r == if provider !in providers then Err(InvalidProvider)
                   else if provider !in enabled then Err(DisabledProvider)
                   else if provider !in resources then Ok(None)
                   else Ok(GetAt(resources[provider], path))
    {
      if provider !in providers {
        return Err(InvalidProvider);
      }
      if provider !in enabled {
        return Err(DisabledProvider);
      }
      if provider !in resources {
        return Ok(None);
      }
      var resource := resources[provider];
      assert path[0..] == path;
      for i := 0 to |path|
        invariant GetAt(resources[provider], path) == GetAt(resource, path[i..])
      {
        var p := path[i];
        assert path[i..][0] == p && path[i..][1..] == path[i+1..];
        match resource
        case Dict(entries) =>
          if p !in entries {
            return Ok(None);
          }
          resource := entries[p];
        case List(items) =>
          if !IsNumeric(p) || ParseNat(p) >= |items| {
            return Ok(None);
          }
          resource := items[ParseNat(p)];
        case Leaf(_) =>
          return Ok(None);
      }
      r := Ok(Some(resource));
    }

    /** The stored tree of the provider becomes the tree with n at the end of the trail. */
    method Store(provider: string, trail: seq<Step>, n: Node)
      requires Passable(trail)
      modifies this`resources
      ensures resources == old(resources)[provider := Plug(trail, n)]
    {
      resources := resources[provider := Plug(trail, n)];
    }

    /** The first half of a set: find the parent, and create the parents that are missing. */
    method FindParent(provider: string, path: seq<string>, ghost resource: Node)
      returns (status: SetStatus, trail: seq<Step>, parent: Node)
      requires path != [] && provider in resources
      modifies this`resources
      ensures Passable(trail) && resources == old(resources)[provider := Plug(trail, parent)]
      ensures var last, result := path[|path|-1], SetAt(old(resources)[provider], path, resource);
              && result.0 == status
              && (status != Done ==> result.1 == Plug(trail, parent))
              && (status == Done ==> KeyStatus(parent, last) == Done && result.1 == Plug(trail, WithChild(parent, last, resource)))
      ensures status == Done <==> Settable(old(resources)[provider], path)
    {
      parent, trail := resources[provider], [];
      ghost var result := SetAt(parent, path, resource);
      assert result.0 == Done <==> Settable(old(resources)[provider], path) by { SetSucceedsIff(parent, path, resource); }
      assert resources == resources[provider := parent];
      assert path[0..] == path;
      for i := 0 to |path|
        invariant Passable(trail) && resources == old(resources)[provider := Plug(trail, parent)]
        invariant i < |path|
        invariant result.0 == SetAt(parent, path[i..], resource).0
        invariant result.1 == Plug(trail, SetAt(parent, path[i..], resource).1)
      {
        var p := path[i];
        assert path[i..][0] == p && path[i..][1..] == path[i+1..];
        status := KeyStatus(parent, p);
        if status != Done || i == |path| - 1 {
          return;
        }
        SetDescends(trail, parent, path[i..], resource);
        var child := NextParent(parent, p, path[i+1]);
        Store(provider, trail, WithChild(parent, p, child));
        trail, parent := trail + [Step(parent, p)], child;
      }
    }

    method SetResource(provider: string, path: seq<string>, resource: Node) returns (error: Option<ServerError>)
      requires path != []
      modifies this`resources
      ensures provider !in providers ==> error == Some(InvalidProvider) && resources == old(resources)
      ensures provider in providers ==>
                var (status, root) := SetAt(Root(old(resources), provider), path, resource);
                && error == (if status == Done then None else Some(Refused(status)))
                && resources == old(resources)[provider := root]
      ensures provider in providers ==>
                (error == None <==> Settable(if provider in old(resources) then old(resources)[provider] else Dict(map[]), path))
    {
      SetSucceedsIff(Root(resources, provider), path, resource);
      if provider !in providers {
        return Some(InvalidProvider);
      }
      ghost var before := resources;
      Store(provider, [], Root(resources, provider));
      assert resources == before[provider := Root(before, provider)];
      error := SetBelow(provider, path, resource);
    }

    /** Find the parent of the path below the provider's root, and put the resource there. */
    method SetBelow(provider: string, path: seq<string>, resource: Node) returns (error: Option<ServerError>)
      requires path != [] && provider in resources
      modifies this`resources
      ensures var result := SetAt(old(resources)[provider], path, resource);
              && error == (if result.0 == Done then None else Some(Refused(result.0)))
              && resources == old(resources)[provider := result.1]
    {
      var status, trail, parent := FindParent(provider, path, resource);
      if status != Done {
        return Some(Refused(status));
      }
      Store(provider, trail, WithChild(parent, path[|path|-1], resource));
      error := None;
    }

    method DelResource(provider: string, path: seq<string>) returns (r: Result<bool, ServerError>)
      requires path != []
      modifies this`resources
      ensures provider !in providers ==> r == Err(InvalidProvider) && resources == old(resources)
      ensures provider in providers ==>
                var (status, root) := DelAt(Root(old(resources), provider), path);
                && r == (match status case Deleted => Ok(true) case Missing => Ok(false) case NotAContainer => Err(NotDeletable))
                && resources == old(resources)[provider := root]
    {
      if provider !in providers {
        return Err(InvalidProvider);
      }
      ghost var before := resources;
      ghost var (status, root) := DelAt(Root(resources, provider), path);
      var parent, trail: seq<Step> := Root(resources, provider), [];
      Store(provider, [], parent);
      var i := 0;
      assert path[0..] == path;
      while true
        invariant 0 <= i < |path| && Passable(trail)
        invariant resources == before[provider := Plug(trail, parent)]
        invariant (status, root) == (DelAt(parent, path[i..]).0, Plug(trail, DelAt(parent, path[i..]).1))
        decreases |path| - i
      {
        var p := path[i];
        assert path[i..][0] == p && path[i..][1..] == path[i+1..];
        if parent.Dict? && p !in parent.entries {
          return Ok(false);
        } else if parent.List? && (!IsNumeric(p) || ParseNat(p) >= |parent.items|) {
          return Ok(false);
        }
        if i == |path| - 1 {
          break;
        }
        if parent.Leaf? {
          return Ok(false);
        }
        DelDescends(trail, parent, path[i..]);
        var child := Child(parent, p).value;
        trail, parent, i := trail + [Step(parent, p)], child, i + 1;
      }
      if parent.Leaf? {
        return Err(NotDeletable);
      }
      Store(provider, trail, WithoutChild(parent, path[i]));
      r := Ok(true);
    }
  }
}
