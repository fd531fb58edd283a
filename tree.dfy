/** The `Tree` class: a root arena and a static-route index that `add`,
    `remove` and `clear` update in place. Each method is proved to leave the
    object in the state the matching function of module `Trie` describes. */
module PathTree {
  import opened Wrappers
  import opened Paths
  import opened Nodes
  import opened Matcher
  import Trie

  /** The state after the constructor has added `routes` in order. */
  function InsertAll(strict: bool, hash: string -> Id, routes: seq<string>): (s: Trie.State)
    requires forall i :: 0 <= i < |routes| ==> routes[i] != ""
    ensures Trie.Valid(s)
  {
    Trie.EmptyValid();
    if routes == [] then Trie.Empty
    else
      var last := routes[|routes| - 1];
      Trie.Insert(InsertAll(strict, hash, routes[..|routes| - 1]), strict, hash(last), last).value.0
  }

  /** The constructor's loop adds one more route at a time. */
  lemma InsertAllSnoc(strict: bool, hash: string -> Id, routes: seq<string>, i: nat)
    requires forall j :: 0 <= j < |routes| ==> routes[j] != ""
    requires i < |routes|
    ensures Trie.Valid(InsertAll(strict, hash, routes[..i]))
    ensures InsertAll(strict, hash, routes[..i + 1])
      == Trie.Insert(InsertAll(strict, hash, routes[..i]), strict, hash(routes[i]), routes[i]).value.0
  {
    assert routes[..i + 1][..i] == routes[..i];
  }

  /** Every route given to the constructor can be found by `id` afterwards
      (later routes may overwrite the id, never remove it). */
  lemma {:induction false} InsertAllRegisters(strict: bool, hash: string -> Id, routes: seq<string>, i: nat)
    requires forall j :: 0 <= j < |routes| ==> routes[j] != ""
    requires i < |routes|
    ensures var l := Trie.IdOf(InsertAll(strict, hash, routes), ValidatePath(routes[i], strict).value);
      l.Present? && l.id.Some?
    decreases |routes|
  {
    var init := routes[..|routes| - 1];
    var last := routes[|routes| - 1];
    var before := InsertAll(strict, hash, init);
    var p := ValidatePath(last, strict).value;
    if i == |routes| - 1 {
      Trie.LookupAfterPlace(before, p, hash(last));
    } else {
      assert routes[i] == init[i];
      InsertAllRegisters(strict, hash, init, i);
      Trie.PlaceKeepsIds(before, p, hash(last), ValidatePath(routes[i], strict).value);
    }
  }

  class Tree {
    /** `options.strict`: the trailing `/` is significant. */
    const strict: bool
    /** `uuid5`, applied to the raw pattern. */
    const hash: string -> Id
    /** `root` and every node below it; index 0 is the root. */
    var nodes: Arena
    var staticRoutes: map<string, nat>

    ghost function Model(): Trie.State
      reads this
    {
      Trie.State(nodes, staticRoutes)
    }

    ghost predicate Valid()
      reads this
    {
      Trie.Valid(Model())
    }

    /** `new Tree({strict, routes})`: a cleared tree with every route added. */
    constructor(strict: bool, hash: string -> Id, routes: seq<string>)
      requires forall i :: 0 <= i < |routes| ==> routes[i] != ""
      ensures Valid() && this.strict == strict && this.hash == hash
      ensures Model() == InsertAll(strict, hash, routes)
    {
      this.strict := strict;
      this.hash := hash;
      nodes := [RootNode];
      staticRoutes := map[];
      new;
      Trie.EmptyValid();
      for i := 0 to |routes|
        invariant Model() == InsertAll(strict, hash, routes[..i])
      {
        InsertAllSnoc(strict, hash, routes, i);
        assert Valid();
        var _ := Add(routes[i]);
      }
      assert routes[..|routes|] == routes;
    }

    /** `clear()`: a fresh root and an empty static index. */
    method Clear()
      modifies this
      ensures Valid() && Model() == Trie.Empty
    {
      nodes := [RootNode];
      staticRoutes := map[];
      Trie.EmptyValid();
    }

    /** `get(path)`. */
    method Get(path: string) returns (r: Result<Trie.Resolved, PathError>)
      requires Valid()
      ensures r == Trie.Resolve(Model(), strict, path)
    {
      var checked := ValidatePath(path, strict);
      if checked.Err? {
        return Err(checked.error);
      }
      var p := checked.value;
      if p in staticRoutes {
        return Ok(Trie.Resolved(nodes[staticRoutes[p]].id, None));
      }
      var found := FindNode(nodes, p);
      if found.None? {
        return Ok(Trie.Resolved(None, None));
      }
      return Ok(Trie.Resolved(nodes[found.value.node].id, found.value.params));
    }

    /** `getChildNode(parent, str)` on this tree's arena. */
    method GetChildNode(parent: nat, str: string) returns (child: nat)
      requires WellFormed(nodes) && parent < |nodes|
      modifies this
      ensures (nodes, child) == Trie.Child(old(nodes), parent, str)
      ensures staticRoutes == old(staticRoutes)
    {
      var key: string;
      var paramName: Option<string>;
      match KindOf(str) {
        case Param =>
          key, paramName := Placeholder, Some(str[1..]);
        case Star =>
          key, paramName := Wildcard, None;
        case Literal =>
          key, paramName := str, Some(str);
      }
      if key in nodes[parent].children {
        return nodes[parent].children[key];
      }
      child := |nodes|;
      var holder := nodes[parent].(children := nodes[parent].children[key := child]);
      nodes := nodes[parent := holder] + [CreateNode(None, Some(key), Some(parent), paramName)];
    }

    /** `add(path)`: the id is the hash of the raw path, taken before the
        path is normalised. */
    method Add(path: string) returns (r: Result<nat, PathError>)
      requires Valid()
      modifies this
      ensures Valid()
      ensures r.Err? <==> path == ""
      ensures r.Err? ==> Model() == old(Model())
      ensures r.Ok? ==> Trie.Insert(old(Model()), strict, hash(path), path) == Ok((Model(), r.value))
    {
      var id := hash(path);
      var checked := ValidatePath(path, strict);
      if checked.Err? {
        return Err(checked.error);
      }
      var p := checked.value;
      ghost var before := Model();
      var node, isStaticRoute := AddBranch(Split(p));
      Trie.InsertFrom(before, strict, id, path, p, nodes, node);
      nodes := nodes[node := nodes[node].(id := Some(id))];
      if isStaticRoute {
        staticRoutes := staticRoutes[p := node];
      }
      return Ok(node);
    }

    /** The loop of `add`: one `getChildNode` per segment from the root, and
        whether no segment was a placeholder or a wildcard. */
    method AddBranch(segments: seq<string>) returns (node: nat, isStaticRoute: bool)
      requires WellFormed(nodes)
      modifies this
      ensures (nodes, node) == Trie.AddPath(old(nodes), Root, segments)
      ensures isStaticRoute == AllLiteral(segments)
      ensures staticRoutes == old(staticRoutes)
    {
      isStaticRoute := true;
      node := Root;
      for i := 0 to |segments|
        invariant WellFormed(nodes) && node < |nodes|
        invariant Trie.AddPath(old(nodes), Root, segments) == Trie.AddPath(nodes, node, segments[i..])
        invariant isStaticRoute == AllLiteral(segments[..i])
        invariant staticRoutes == old(staticRoutes)
      {
        Trie.AddPathStep(nodes, node, segments, i);
        node := GetChildNode(node, segments[i]);
        SlotKeyKind(segments[i]);
        AllLiteralSnoc(segments, i);
        if nodes[node].section == Some(Placeholder) || nodes[node].section == Some(Wildcard) {
          isStaticRoute := false;
        }
      }
      assert segments[|segments|..] == [] && segments[..|segments|] == segments;
    }

    /** `remove(path)`: the id the exact node held, `None` for `null`. */
    method Remove(path: string) returns (r: Result<Option<Id>, PathError>)
      requires Valid()
      modifies this
      ensures Valid()
      ensures r.Err? <==> path == ""
      ensures r.Err? ==> Model() == old(Model())
      ensures r.Ok? ==> Trie.Delete(old(Model()), strict, path) == Ok((Model(), r.value))
    {
      var checked := ValidatePath(path, strict);
      if checked.Err? {
        return Err(checked.error);
      }
      var p := checked.value;
      ghost var before := Model();
      staticRoutes := staticRoutes - {p};
      var found := FindExactNode(nodes, Root, p);
      if found.None? {
        return Ok(None);
      }
      var id := nodes[found.value].id;
      var node: Option<nat> := found;
      ghost var pruned := Trie.Prune(nodes, found.value);
      assert Trie.Delete(before, strict, path) == Ok((Trie.State(pruned, staticRoutes), id));
      while node.Some?
        invariant WellFormed(nodes)
        invariant node.Some? ==> node.value < |nodes| && Trie.Prune(nodes, node.value) == pruned
        invariant node.None? ==> nodes == pruned
        invariant staticRoutes == before.staticRoutes - {p}
        decreases if node.Some? then node.value + 1 else 0
      {
        var n := node.value;
        if |nodes[n].children| != 0 {
          Trie.SetIdLinks(nodes, n, None);
          nodes := nodes[n := nodes[n].(id := None)];
          node := None;
        } else if nodes[n].parent.Some? {
          var parent := nodes[n].parent.value;
          var section := nodes[n].section.value;
          Trie.DetachShrinks(nodes, parent, section);
          nodes := nodes[parent := nodes[parent].(children := nodes[parent].children - {section})];
          node := Some(parent);
        } else {
          node := None;
        }
      }
      return Ok(id);
    }

    /** `id(path)`: the raw path, without normalisation. */
    method IdOf(path: string) returns (r: Trie.Lookup)
      requires Valid()
      ensures r == Trie.IdOf(Model(), path)
    {
      if path in staticRoutes {
        return Trie.Present(nodes[staticRoutes[path]].id);
      }
      var found := FindExactNode(nodes, Root, path);
      if found.None? {
        return Trie.Missing;
      }
      return Trie.Present(nodes[found.value].id);
    }
  }
}
