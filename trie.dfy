/** The state a `Tree` holds (its node arena and its static-route index) and
    what `get`, `add`, `remove` and `id` do to it, as functions of that state. */
module Trie {
  import opened Wrappers
  import opened Paths
  import opened Nodes
  import opened Matcher

  /** `root` (arena index 0) with everything below it, and `staticRoutes`. */
  datatype State = State(nodes: Arena, staticRoutes: map<string, nat>)

  /** The well-formed arena, and a static index whose keys are static paths
      mapped to non-root nodes whose pattern is that path. */
  ghost predicate Valid(s: State)
  {
    && WellFormed(s.nodes)
    && forall k :: k in s.staticRoutes ==>
      && 0 < s.staticRoutes[k] < |s.nodes|
      && IsStaticPath(k)
      && Sections(s.nodes, s.staticRoutes[k]) == Split(k)
  }

  /** `clear()`: a fresh root and an empty static index. */
  const Empty: State := State([RootNode], map[])

  lemma EmptyValid()
    ensures Valid(Empty)
  {
  }

  // ---------------------------------------------------------------------
  // get

  /** What `get` returns: the id (absent means `undefined`) and the captures. */
  datatype Resolved = Resolved(id: Option<Id>, params: Option<Params>)

  /** `get(path)`: the static index first, then `findNode`. */
  function Resolve(s: State, strict: bool, path: string): (r: Result<Resolved, PathError>)
    requires Valid(s)
    ensures r.Err? <==> path == ""
  {
    match ValidatePath(path, strict)
    case Err(e) => Err(e)
    case Ok(p) =>
      if p in s.staticRoutes then Ok(Resolved(s.nodes[s.staticRoutes[p]].id, None))
      else
        match Resolution(s.nodes, p)
        case None => Ok(Resolved(None, None))
        case Some(f) => Ok(Resolved(s.nodes[f.node].id, f.params))
  }

  // ---------------------------------------------------------------------
  // add

  /** The lookup-or-create step of `getChildNode` on one slot. */
  function Attach(a: Arena, parent: nat, key: string, paramName: Option<string>): (r: (Arena, nat))
    requires WellFormed(a) && parent < |a|
    requires KindOf(key) == Param ==> key == Placeholder
    ensures WellFormed(r.0) && Extends(a, r.0) && parent < r.1 < |r.0|
    ensures key in r.0[parent].children && r.0[parent].children[key] == r.1
    ensures r.0[r.1].section == Some(key)
  {
    if key in a[parent].children then (a, a[parent].children[key])
    else
      var child := |a|;
      var holder := a[parent].(children := a[parent].children[key := child]);
      var b := a[parent := holder] + [CreateNode(None, Some(key), Some(parent), paramName)];
      AttachKeepsShape(a, parent, key, paramName, b);
      (b, child)
  }

  /** `b` is `a` with a fresh node linked into slot `key` of `parent`. */
  ghost predicate Linked(a: Arena, parent: nat, key: string, paramName: Option<string>, b: Arena)
  {
    && parent < |a| && |b| == |a| + 1
    && (forall i :: 0 <= i < |a| && i != parent ==> b[i] == a[i])
    && b[parent] == a[parent].(children := a[parent].children[key := |a|])
    && b[|a|] == Node(None, Some(key), Some(parent), paramName, map[])
  }

  lemma AttachKeepsShape(a: Arena, parent: nat, key: string, paramName: Option<string>, b: Arena)
    requires WellFormed(a) && parent < |a| && key !in a[parent].children
    requires KindOf(key) == Param ==> key == Placeholder
    requires b == a[parent := a[parent].(children := a[parent].children[key := |a|])]
                  + [CreateNode(None, Some(key), Some(parent), paramName)]
    ensures WellFormed(b) && Extends(a, b)
  {
    assert Linked(a, parent, key, paramName, b);
    LinkedParentsBelow(a, parent, key, paramName, b);
    LinkedChildrenLinked(a, parent, key, paramName, b);
    LinkedKeysShaped(a, parent, key, paramName, b);
    assert Extends(a, b) by {
      forall i | 0 <= i < |a|
        ensures SubMap(a[i].children, b[i].children)
      {
      }
    }
  }

  lemma LinkedParentsBelow(a: Arena, parent: nat, key: string, paramName: Option<string>, b: Arena)
    requires WellFormed(a) && Linked(a, parent, key, paramName, b)
    ensures ParentsBelow(b)
  {
    forall i | 0 < i < |b|
      ensures b[i].parent.Some? && b[i].parent.value < i && b[i].section.Some?
    {
      if i < |a| {
        assert b[i].parent == a[i].parent && b[i].section == a[i].section;
      }
    }
  }

  lemma LinkedChildrenLinked(a: Arena, parent: nat, key: string, paramName: Option<string>, b: Arena)
    requires WellFormed(a) && Linked(a, parent, key, paramName, b) && key !in a[parent].children
    ensures ChildrenLinked(b)
  {
    forall i, k | 0 <= i < |b| && k in b[i].children
      ensures i < b[i].children[k] < |b| && b[b[i].children[k]].parent == Some(i) && b[b[i].children[k]].section == Some(k)
    {
      if i == parent && k == key {
        assert b[i].children[k] == |a|;
      } else {
        assert i < |a| && k in a[i].children && b[i].children[k] == a[i].children[k];
        var d := a[i].children[k];
        assert i < d < |a| && a[d].parent == Some(i) && a[d].section == Some(k);
        assert b[d].parent == a[d].parent && b[d].section == a[d].section;
      }
    }
  }

  lemma LinkedKeysShaped(a: Arena, parent: nat, key: string, paramName: Option<string>, b: Arena)
    requires WellFormed(a) && Linked(a, parent, key, paramName, b)
    requires KindOf(key) == Param ==> key == Placeholder
    ensures KeysShaped(b)
  {
    forall i, k | 0 <= i < |b| && k in b[i].children && KindOf(k) == Param
      ensures k == Placeholder
    {
      if !(i == parent && k == key) {
        assert i < |a| && k in a[i].children;
      }
    }
  }

  /** `getChildNode(parent, str)`: the child in the slot of `str`, created if
      the slot is empty. A placeholder node records the name after `:`, a
      literal node its own text, a wildcard node no name. */
  function Child(a: Arena, parent: nat, str: string): (r: (Arena, nat))
    requires WellFormed(a) && parent < |a|
    ensures WellFormed(r.0) && Extends(a, r.0) && parent < r.1 < |r.0|
    ensures SlotKey(str) in r.0[parent].children && r.0[parent].children[SlotKey(str)] == r.1
    ensures r.0[r.1].section == Some(SlotKey(str))
    ensures SlotKey(str) in a[parent].children ==> r == (a, a[parent].children[SlotKey(str)])
  {
    match KindOf(str)
    case Param => Attach(a, parent, Placeholder, Some(str[1..]))
    case Star => Attach(a, parent, Wildcard, None)
    case Literal => Attach(a, parent, str, Some(str))
  }

  /** The loop of `add` over the segments, one `getChildNode` per segment:
      afterwards the slots of the segments lead from `n` to the node returned. */
  function AddPath(a: Arena, n: nat, segments: seq<string>): (r: (Arena, nat))
    requires WellFormed(a) && n < |a|
    ensures WellFormed(r.0) && Extends(a, r.0) && r.1 < |r.0|
    ensures segments != [] ==> n < r.1
    ensures Walk(r.0, n, segments) == Some(r.1)
    decreases |segments|
  {
    if segments == [] then (a, n)
    else
      var step := Child(a, n, segments[0]);
      var r := AddPath(step.0, step.1, segments[1..]);
      ExtendsTransitive(a, step.0, r.0);
      assert SubMap(step.0[n].children, r.0[n].children);
      r
  }

  /** `add(path)` given `id`, the hash of the raw path. */
  function Insert(s: State, strict: bool, id: Id, path: string): (r: Result<(State, nat), PathError>)
    requires Valid(s)
    ensures r.Err? <==> path == ""
    ensures r.Ok? ==> r.value == Place(s, ValidatePath(path, strict).value, id)
  {
    match ValidatePath(path, strict)
    case Err(e) => Err(e)
    case Ok(p) => Ok(Place(s, p, id))
  }

  /** The body of `add` once the path is normalised: the nodes along `p`,
      `id` on the last of them, and the static index entry when no segment
      is a placeholder or a wildcard. */
  function Place(s: State, p: string, id: Id): (r: (State, nat))
    requires Valid(s)
    ensures Valid(r.0) && r.1 < |r.0.nodes| && r.0.nodes[r.1].id == Some(id)
  {
    var built := AddPath(s.nodes, Root, Split(p));
    var n := built.1;
    var nodes := built.0[n := built.0[n].(id := Some(id))];
    var routes := if IsStaticPath(p) then s.staticRoutes[p := n] else s.staticRoutes;
    InsertKeepsValid(s, p, built.0, n, Some(id), routes);
    (State(nodes, routes), n)
  }

  /** Two arenas with the same links: only ids may differ. */
  ghost predicate SameLinks(a: Arena, b: Arena)
  {
    && |a| == |b|
    && forall i :: 0 <= i < |a| ==>
      b[i].section == a[i].section && b[i].parent == a[i].parent && b[i].children == a[i].children
  }

  lemma {:induction false} SameLinksSections(a: Arena, b: Arena, n: nat)
    requires WellFormed(a) && WellFormed(b) && SameLinks(a, b) && n < |a|
    ensures Sections(b, n) == Sections(a, n)
    decreases n
  {
    if n != Root {
      SameLinksSections(a, b, a[n].parent.value);
    }
  }

  lemma {:induction false} SameLinksWalk(a: Arena, b: Arena, n: nat, segments: seq<string>)
    requires WellFormed(a) && WellFormed(b) && SameLinks(a, b) && n < |a|
    ensures Walk(b, n, segments) == Walk(a, n, segments)
    decreases |segments|
  {
    if segments != [] {
      var key := SlotKey(segments[0]);
      if key in a[n].children {
        SameLinksWalk(a, b, a[n].children[key], segments[1..]);
      }
    }
  }

  lemma SameLinksWellFormed(a: Arena, b: Arena)
    requires WellFormed(a) && SameLinks(a, b)
    ensures WellFormed(b)
  {
    forall i, k | 0 <= i < |b| && k in b[i].children
      ensures i < b[i].children[k] < |b| && b[b[i].children[k]].parent == Some(i) && b[b[i].children[k]].section == Some(k)
    {
      assert k in a[i].children;
    }
  }

  lemma SetIdLinks(a: Arena, n: nat, id: Option<Id>)
    requires WellFormed(a) && n < |a|
    ensures SameLinks(a, a[n := a[n].(id := id)]) && WellFormed(a[n := a[n].(id := id)])
  {
    SameLinksWellFormed(a, a[n := a[n].(id := id)]);
  }

  lemma InsertKeepsValid(s: State, p: string, built: Arena, n: nat, id: Option<Id>, routes: map<string, nat>)
    requires Valid(s)
    requires built == AddPath(s.nodes, Root, Split(p)).0 && n == AddPath(s.nodes, Root, Split(p)).1
    requires routes == if IsStaticPath(p) then s.staticRoutes[p := n] else s.staticRoutes
    ensures Valid(State(built[n := built[n].(id := id)], routes))
  {
    var nodes := built[n := built[n].(id := id)];
    SetIdLinks(built, n, id);
    if IsStaticPath(p) {
      assert 0 < n && Sections(nodes, n) == Split(p) by {
        WalkSections(built, Root, Split(p));
        StaticSlotKeys(Split(p));
        SameLinksSections(built, nodes, n);
        WalkAdvances(built, Root, Split(p));
      }
    }
    RoutesKept(s, p, built, nodes, n, routes);
  }

  /** The static index stays valid when the arena grows, ids change and the
      entry for `p` is added where `p` is static. */
  lemma RoutesKept(s: State, p: string, built: Arena, nodes: Arena, n: nat, routes: map<string, nat>)
    requires Valid(s) && WellFormed(built) && Extends(s.nodes, built) && WellFormed(nodes) && SameLinks(built, nodes)
    requires IsStaticPath(p) ==> 0 < n < |nodes| && Sections(nodes, n) == Split(p)
    requires routes == if IsStaticPath(p) then s.staticRoutes[p := n] else s.staticRoutes
    ensures Valid(State(nodes, routes))
  {
    forall k | k in routes
      ensures 0 < routes[k] < |nodes| && IsStaticPath(k) && Sections(nodes, routes[k]) == Split(k)
    {
      if !(IsStaticPath(p) && k == p) {
        OldRouteKept(s, built, nodes, k);
      }
    }
  }

  /** An entry of the static index survives growing the arena and changing ids. */
  lemma OldRouteKept(s: State, built: Arena, nodes: Arena, k: string)
    requires Valid(s) && k in s.staticRoutes
    requires WellFormed(built) && Extends(s.nodes, built) && WellFormed(nodes) && SameLinks(built, nodes)
    ensures 0 < s.staticRoutes[k] < |nodes| && IsStaticPath(k) && Sections(nodes, s.staticRoutes[k]) == Split(k)
  {
    SectionsExtends(s.nodes, built, s.staticRoutes[k]);
    SameLinksSections(built, nodes, s.staticRoutes[k]);
  }

  // ---------------------------------------------------------------------
  // remove

  /** `parent.children.delete(key)`. */
  function Detach(a: Arena, holder: nat, key: string): Arena
    requires holder < |a|
  {
    a[holder := a[holder].(children := a[holder].children - {key})]
  }

  /** The upward loop of `remove` from node `n`: a node with children only
      loses its id and the walk ends; a childless node is detached from its
      parent and the walk goes on at the parent; at the root it ends. */
  function Prune(a: Arena, n: nat): (r: Arena)
    requires WellFormed(a) && n < |a|
    ensures WellFormed(r) && Shrinks(a, r)
    decreases n
  {
    if |a[n].children| != 0 then
      SetIdLinks(a, n, None);
      a[n := a[n].(id := None)]
    else
      match a[n].parent
      case None => a
      case Some(p) =>
        var b := Detach(a, p, a[n].section.value);
        DetachShrinks(a, p, a[n].section.value);
        var r := Prune(b, p);
        ShrinksTransitive(a, b, r);
        r
  }

  lemma DetachShrinks(a: Arena, holder: nat, key: string)
    requires WellFormed(a) && holder < |a|
    ensures WellFormed(Detach(a, holder, key)) && Shrinks(a, Detach(a, holder, key))
  {
    var b := Detach(a, holder, key);
    forall i, k | 0 <= i < |b| && k in b[i].children
      ensures i < b[i].children[k] < |b| && b[b[i].children[k]].parent == Some(i) && b[b[i].children[k]].section == Some(k)
    {
      assert k in a[i].children && b[i].children[k] == a[i].children[k];
    }
  }

  /** `remove(path)`: drop the static entry of the normalised path, then
      prune from its exact node; the result is that node's id, `None` (for
      `null`) when there is no exact node or it holds no id. */
  function Delete(s: State, strict: bool, path: string): (r: Result<(State, Option<Id>), PathError>)
    requires Valid(s)
    ensures r.Err? <==> path == ""
    ensures r.Ok? ==> Valid(r.value.0)
  {
    match ValidatePath(path, strict)
    case Err(e) => Err(e)
    case Ok(p) =>
      var routes := s.staticRoutes - {p};
      match ExactNode(s.nodes, Root, Split(p), 0)
      case None => Ok((State(s.nodes, routes), None))
      case Some(n) =>
        var nodes := Prune(s.nodes, n);
        DeleteKeepsValid(s, nodes, routes);
        Ok((State(nodes, routes), s.nodes[n].id))
  }

  lemma DeleteKeepsValid(s: State, nodes: Arena, routes: map<string, nat>)
    requires Valid(s) && WellFormed(nodes) && Shrinks(s.nodes, nodes)
    requires routes.Keys <= s.staticRoutes.Keys && forall k :: k in routes ==> routes[k] == s.staticRoutes[k]
    ensures Valid(State(nodes, routes))
  {
    forall k | k in routes
      ensures Sections(nodes, routes[k]) == Split(k)
    {
      SectionsShrinks(s.nodes, nodes, routes[k]);
    }
  }

  // ---------------------------------------------------------------------
  // id

  /** What `id` returns: `Missing` for `null`, otherwise the node's id
      (absent for `undefined`). */
  datatype Lookup = Missing | Present(id: Option<Id>)

  /** `id(path)`: no normalisation; the static index, then the exact node,
      which off the static index is the node the slots of the tokens lead to. */
  function IdOf(s: State, path: string): (r: Lookup)
    requires Valid(s)
    ensures path !in s.staticRoutes ==>
      && (r.Present? <==> Walk(s.nodes, Root, Split(path)).Some?)
      && (r.Present? ==> r.id == s.nodes[Walk(s.nodes, Root, Split(path)).value].id)
  {
    assert Split(path)[0..] == Split(path);
    ExactNodeIsWalk(s.nodes, Root, Split(path), 0);
    if path in s.staticRoutes then Present(s.nodes[s.staticRoutes[path]].id)
    else
      match ExactNode(s.nodes, Root, Split(path), 0)
      case None => Missing
      case Some(n) => Present(s.nodes[n].id)
  }

  // ---------------------------------------------------------------------
  // What add promises

  /** Re-adding along slots that already exist creates nothing. */
  lemma {:induction false} AddPathReuses(a: Arena, n: nat, segments: seq<string>)
    requires WellFormed(a) && n < |a| && Walk(a, n, segments).Some?
    ensures AddPath(a, n, segments) == (a, Walk(a, n, segments).value)
    decreases |segments|
  {
    if segments != [] {
      var c := a[n].children[SlotKey(segments[0])];
      assert Child(a, n, segments[0]) == (a, c);
      AddPathReuses(a, c, segments[1..]);
    }
  }

  /** `add` builds one level per segment of the normalised path, empty
      segments included: the node it returns is reached from the root by the
      slots of those segments, and its sections are exactly those slots. */
  lemma PlaceWalks(s: State, p: string, id: Id)
    requires Valid(s)
    ensures var r := Place(s, p, id);
      && Walk(r.0.nodes, Root, Split(p)) == Some(r.1)
      && Sections(r.0.nodes, r.1) == SlotKeys(Split(p))
      && |Sections(r.0.nodes, r.1)| == |Split(p)|
  {
    var built := AddPath(s.nodes, Root, Split(p));
    var r := Place(s, p, id);
    SetIdLinks(built.0, built.1, Some(id));
    SameLinksWalk(built.0, r.0.nodes, Root, Split(p));
    WalkSections(r.0.nodes, Root, Split(p));
  }

  /** Adding a pattern whose slots all exist adds no node: it only puts the
      new id on the existing terminal node (placeholder and wildcard slots
      keep the parameter name they were created with). */
  lemma PlaceReusesSlots(s: State, p: string, id: Id)
    requires Valid(s) && Walk(s.nodes, Root, Split(p)).Some?
    ensures var m := Walk(s.nodes, Root, Split(p)).value;
      var r := Place(s, p, id);
      r.1 == m && r.0.nodes == s.nodes[m := s.nodes[m].(id := Some(id))]
  {
    AddPathReuses(s.nodes, Root, Split(p));
  }

  /** Adding the same pattern twice changes nothing the second time. */
  lemma PlaceIdempotent(s: State, p: string, id: Id)
    requires Valid(s)
    ensures var r := Place(s, p, id);
      Place(r.0, p, id) == r
  {
    PlaceAgainSameNodes(s, p, id);
    PlaceAgainSameRoutes(s, p, id);
  }

  lemma PlaceAgainSameNodes(s: State, p: string, id: Id)
    requires Valid(s)
    ensures var r := Place(s, p, id);
      Place(r.0, p, id).1 == r.1 && Place(r.0, p, id).0.nodes == r.0.nodes
  {
    var r := Place(s, p, id);
    PlaceWalks(s, p, id);
    PlaceReusesSlots(r.0, p, id);
    assert r.0.nodes[r.1 := r.0.nodes[r.1].(id := Some(id))] == r.0.nodes;
  }

  lemma PlaceAgainSameRoutes(s: State, p: string, id: Id)
    requires Valid(s)
    ensures var r := Place(s, p, id);
      Place(r.0, p, id).0.staticRoutes == r.0.staticRoutes
  {
    var r := Place(s, p, id);
    PlaceAgainSameNodes(s, p, id);
    PlaceRoutes(s, p, id);
    PlaceRoutes(r.0, p, id);
    if IsStaticPath(p) {
      UpdateSame(r.0.staticRoutes, p, r.1);
    }
  }

  lemma UpdateSame(m: map<string, nat>, k: string, v: nat)
    requires k in m && m[k] == v
    ensures m[k := v] == m
  {
  }

  /** `Place` spelled out once the walk of `p` is known. */
  lemma PlaceFrom(s: State, p: string, id: Id, a: Arena, n: nat)
    requires Valid(s) && AddPath(s.nodes, Root, Split(p)) == (a, n)
    ensures Place(s, p, id) == (State(a[n := a[n].(id := Some(id))], if IsStaticPath(p) then s.staticRoutes[p := n] else s.staticRoutes), n)
  {
  }

  /** What `add` leaves once its loop has built the nodes along the normalised path. */
  lemma InsertFrom(s: State, strict: bool, id: Id, path: string, p: string, a: Arena, n: nat)
    requires Valid(s) && ValidatePath(path, strict) == Ok(p) && AddPath(s.nodes, Root, Split(p)) == (a, n)
    ensures var t := State(a[n := a[n].(id := Some(id))], if IsStaticPath(p) then s.staticRoutes[p := n] else s.staticRoutes);
      Valid(t) && Insert(s, strict, id, path) == Ok((t, n))
  {
    PlaceFrom(s, p, id, a, n);
  }

  /** One turn of the loop in `add`. */
  lemma AddPathStep(a: Arena, n: nat, segments: seq<string>, i: nat)
    requires WellFormed(a) && n < |a| && i < |segments|
    ensures var step := Child(a, n, segments[i]);
      AddPath(a, n, segments[i..]) == AddPath(step.0, step.1, segments[i + 1..])
  {
    assert segments[i..][1..] == segments[i + 1..];
  }

  lemma PlaceRoutes(s: State, p: string, id: Id)
    requires Valid(s)
    ensures var r := Place(s, p, id);
      r.0.staticRoutes == if IsStaticPath(p) then s.staticRoutes[p := r.1] else s.staticRoutes
  {
    var built := AddPath(s.nodes, Root, Split(p));
    PlaceFrom(s, p, id, built.0, built.1);
  }

  /** The same, for `add` on the raw path. */
  lemma InsertIdempotent(s: State, strict: bool, id: Id, path: string)
    requires Valid(s) && path != ""
    ensures var r := Insert(s, strict, id, path).value;
      Insert(r.0, strict, id, path) == Ok(r)
  {
    PlaceIdempotent(s, ValidatePath(path, strict).value, id);
  }

  /** The static index holds the normalised pattern, pointing at its node,
      exactly when no node on its path sits in a `:` or `*` slot. */
  lemma PlaceStaticIndex(s: State, p: string, id: Id)
    requires Valid(s)
    ensures var r := Place(s, p, id);
      (p in r.0.staticRoutes && r.0.staticRoutes[p] == r.1) <==> NoVariableSlot(Sections(r.0.nodes, r.1))
  {
    PlaceWalks(s, p, id);
    LiteralSlots(Split(p));
  }

  /** After `add`, `id` of the normalised pattern is the new id. */
  lemma LookupAfterPlace(s: State, p: string, id: Id)
    requires Valid(s)
    ensures IdOf(Place(s, p, id).0, p) == Present(Some(id))
  {
    var r := Place(s, p, id);
    PlaceWalks(s, p, id);
    ExactNodeIsWalk(r.0.nodes, Root, Split(p), 0);
    assert Split(p)[0..] == Split(p);
  }

  /** After `add`, `get` of the same raw path yields the new id. */
  lemma ResolveAfterInsert(s: State, strict: bool, id: Id, path: string)
    requires Valid(s) && path != ""
    ensures var r := Insert(s, strict, id, path).value;
      Resolve(r.0, strict, path).Ok? && Resolve(r.0, strict, path).value.id == Some(id)
  {
    var p := ValidatePath(path, strict).value;
    var r := Place(s, p, id);
    PlaceWalks(s, p, id);
    if p !in r.0.staticRoutes {
      assert Split(p)[0..] == Split(p);
      DescentAlongWalk(r.0.nodes, Root, Split(p), 0, map[]);
    }
  }

  /** `add` leaves the id of every other pattern as it was, unless that
      pattern runs through the same slots (`/:x` and `/:y` share one node). */
  lemma PlacePreservesOthers(s: State, p: string, id: Id, q: string)
    requires Valid(s)
    requires IdOf(s, q).Present? && IdOf(s, q).id.Some?
    requires SlotKeys(Split(q)) != SlotKeys(Split(p))
    ensures IdOf(Place(s, p, id).0, q) == IdOf(s, q)
  {
    if q in s.staticRoutes {
      PlaceKeepsStaticOther(s, p, id, q);
    } else {
      PlaceKeepsExactOther(s, p, id, q);
    }
  }

  lemma PlaceKeepsStaticOther(s: State, p: string, id: Id, q: string)
    requires Valid(s) && q in s.staticRoutes
    requires SlotKeys(Split(q)) != SlotKeys(Split(p))
    ensures var r := Place(s, p, id);
      q in r.0.staticRoutes && r.0.staticRoutes[q] == s.staticRoutes[q]
      && r.0.nodes[s.staticRoutes[q]].id == s.nodes[s.staticRoutes[q]].id
  {
    var built := AddPath(s.nodes, Root, Split(p));
    var r := Place(s, p, id);
    var m := s.staticRoutes[q];
    PlaceFrom(s, p, id, built.0, built.1);
    assert m != r.1 by {
      PlaceWalks(s, p, id);
      SetIdLinks(built.0, built.1, Some(id));
      StaticSlotKeys(Split(q));
      SectionsExtends(s.nodes, built.0, m);
      SameLinksSections(built.0, r.0.nodes, m);
    }
    assert q != p;
  }

  lemma PlaceKeepsExactOther(s: State, p: string, id: Id, q: string)
    requires Valid(s) && q !in s.staticRoutes
    requires ExactNode(s.nodes, Root, Split(q), 0).Some?
    requires SlotKeys(Split(q)) != SlotKeys(Split(p))
    ensures var r := Place(s, p, id);
      var m := ExactNode(s.nodes, Root, Split(q), 0).value;
      q !in r.0.staticRoutes && ExactNode(r.0.nodes, Root, Split(q), 0) == Some(m)
      && r.0.nodes[m].id == s.nodes[m].id
  {
    var built := AddPath(s.nodes, Root, Split(p));
    var r := Place(s, p, id);
    PlaceFrom(s, p, id, built.0, built.1);
    SetIdLinks(built.0, built.1, Some(id));
    assert q != p;
    assert Split(q)[0..] == Split(q);
    ExactNodeIsWalk(s.nodes, Root, Split(q), 0);
    var m := Walk(s.nodes, Root, Split(q)).value;
    assert Walk(r.0.nodes, Root, Split(q)) == Some(m) by {
      WalkExtends(s.nodes, built.0, Root, Split(q));
      SameLinksWalk(built.0, r.0.nodes, Root, Split(q));
    }
    ExactNodeIsWalk(r.0.nodes, Root, Split(q), 0);
    assert m != r.1 by {
      PlaceWalks(s, p, id);
      WalkSections(r.0.nodes, Root, Split(q));
    }
  }

  /** `add` never takes an id away from a pattern `id` answered for. */
  lemma PlaceKeepsIds(s: State, p: string, id: Id, q: string)
    requires Valid(s) && IdOf(s, q).Present? && IdOf(s, q).id.Some?
    ensures IdOf(Place(s, p, id).0, q).Present? && IdOf(Place(s, p, id).0, q).id.Some?
  {
    var r := Place(s, p, id);
    if SlotKeys(Split(q)) != SlotKeys(Split(p)) {
      PlacePreservesOthers(s, p, id, q);
    } else if q in s.staticRoutes {
      var built := AddPath(s.nodes, Root, Split(p));
      PlaceRoutes(s, p, id);
      assert q in r.0.staticRoutes;
      var m := r.0.staticRoutes[q];
      assert m != r.1 ==> m == s.staticRoutes[q] && r.0.nodes[m].id == built.0[m].id;
    } else if q == p {
      LookupAfterPlace(s, p, id);
    } else {
      PlaceRoutes(s, p, id);
      PlaceWalks(s, p, id);
      WalkBySlots(r.0.nodes, Root, Split(q), Split(p));
      assert Split(q)[0..] == Split(q);
      ExactNodeIsWalk(r.0.nodes, Root, Split(q), 0);
    }
  }

  // ---------------------------------------------------------------------
  // What get promises

  /** `get` of a non-empty path never answers with the root, and an id it
      answers with belongs to a node whose pattern matches the normalised
      path (given that no segment of the path is literally `*`). */
  lemma ResolveSound(s: State, strict: bool, path: string)
    requires Valid(s) && path != ""
    requires var parts := Split(ValidatePath(path, strict).value);
      forall j :: 0 <= j < |parts| ==> parts[j] != Wildcard
    ensures var r := Resolve(s, strict, path);
      r.value.id.Some? ==>
        exists m :: 0 < m < |s.nodes| && s.nodes[m].id == r.value.id && GlobMatch(Sections(s.nodes, m), Split(ValidatePath(path, strict).value))
  {
    var p := ValidatePath(path, strict).value;
    var r := Resolve(s, strict, path);
    if r.value.id.Some? {
      if p in s.staticRoutes {
        var m := s.staticRoutes[p];
        GlobMatchSelf(Split(p));
        assert 0 < m < |s.nodes| && s.nodes[m].id == r.value.id && GlobMatch(Sections(s.nodes, m), Split(p));
      } else {
        ResolutionSound(s.nodes, p);
        var m := Resolution(s.nodes, p).value.node;
        assert 0 < m < |s.nodes| && s.nodes[m].id == r.value.id && GlobMatch(Sections(s.nodes, m), Split(p));
      }
    }
  }

  /** The parameters `get` reports are segments of the normalised path; a
      hit in the static index reports none. */
  lemma ResolveCaptures(s: State, strict: bool, path: string)
    requires Valid(s) && path != ""
    ensures var p := ValidatePath(path, strict).value; var r := Resolve(s, strict, path);
      r.value.params.Some? ==>
        p !in s.staticRoutes && forall k :: k in r.value.params.value ==> r.value.params.value[k] in Split(p)
  {
    ResolutionCaptures(s.nodes, ValidatePath(path, strict).value);
  }

  /** Outside strict mode a single trailing `/` makes no difference to `get`. */
  lemma ResolveTrailingSlash(s: State, path: string)
    requires Valid(s) && path != ""
    requires path == [Separator] || path[|path| - 1] != Separator
    ensures Resolve(s, false, path + [Separator]) == Resolve(s, false, path)
  {
    TrailingSlashEquivalence(path);
  }

  // ---------------------------------------------------------------------
  // What remove promises

  /** `null` for a missing node, otherwise its id. */
  function Flatten(l: Lookup): Option<Id>
  {
    match l
    case Missing => None
    case Present(id) => id
  }

  /** For a pattern outside the static index, `remove` returns what `id`
      reported for it just before, with `null` for `undefined`. */
  lemma DeleteReturnsLookup(s: State, strict: bool, path: string)
    requires Valid(s) && path != ""
    requires ValidatePath(path, strict).value !in s.staticRoutes
    ensures Delete(s, strict, path).value.1 == Flatten(IdOf(s, ValidatePath(path, strict).value))
  {
  }

  /** Detaching the node a walk reaches from its parent unlinks the walk. */
  lemma DetachUnlinks(a: Arena, n: nat, segments: seq<string>)
    requires WellFormed(a) && segments != [] && Walk(a, Root, segments) == Some(n) && a[n].parent.Some?
    ensures Walk(Detach(a, a[n].parent.value, a[n].section.value), Root, segments) == None
  {
    var p := a[n].parent.value;
    var c := Detach(a, p, a[n].section.value);
    DetachShrinks(a, p, a[n].section.value);
    if Walk(c, Root, segments).Some? {
      WalkShrinks(a, c, Root, segments);
      WalkLastStep(c, Root, segments);
      assert false;
    }
  }

  /** Pruning from the node a walk reaches either unlinks that walk or, when
      the node has children, leaves it in place without an id. */
  lemma PruneUnlinks(a: Arena, n: nat, segments: seq<string>)
    requires WellFormed(a) && segments != [] && Walk(a, Root, segments) == Some(n)
    ensures var b := Prune(a, n);
      Walk(b, Root, segments) == None || (Walk(b, Root, segments) == Some(n) && b[n].id == None)
  {
    var b := Prune(a, n);
    if |a[n].children| != 0 {
      SetIdLinks(a, n, None);
      SameLinksWalk(a, b, Root, segments);
    } else {
      WalkAdvances(a, Root, segments);
      var p := a[n].parent.value;
      var c := Detach(a, p, a[n].section.value);
      DetachShrinks(a, p, a[n].section.value);
      DetachUnlinks(a, n, segments);
      assert b == Prune(c, p);
      if Walk(b, Root, segments).Some? {
        WalkShrinks(c, b, Root, segments);
      }
    }
  }

  /** Once removed, `id` no longer finds an id under the pattern. */
  lemma DeleteForgets(s: State, strict: bool, path: string)
    requires Valid(s) && path != ""
    ensures var p := ValidatePath(path, strict).value;
      Flatten(IdOf(Delete(s, strict, path).value.0, p)) == None
  {
    var p := ValidatePath(path, strict).value;
    var s1 := Delete(s, strict, path).value.0;
    assert Split(p)[0..] == Split(p);
    ExactNodeIsWalk(s.nodes, Root, Split(p), 0);
    ExactNodeIsWalk(s1.nodes, Root, Split(p), 0);
    if ExactNode(s.nodes, Root, Split(p), 0).Some? {
      PruneUnlinks(s.nodes, ExactNode(s.nodes, Root, Split(p), 0).value, Split(p));
    }
  }

  /** Removing the same pattern a second time returns `null`. */
  lemma DeleteTwice(s: State, strict: bool, path: string)
    requires Valid(s) && path != ""
    ensures Delete(Delete(s, strict, path).value.0, strict, path).value.1 == None
  {
    var p := ValidatePath(path, strict).value;
    var s1 := Delete(s, strict, path).value.0;
    DeleteForgets(s, strict, path);
    assert ValidatePath(path, strict).value !in s1.staticRoutes;
    DeleteReturnsLookup(s1, strict, path);
  }

  /** Detaching a childless node leaves alone every walk that does not end at it. */
  lemma {:induction false} DetachKeepsWalk(a: Arena, holder: nat, key: string, n: nat, segments: seq<string>)
    requires WellFormed(a) && holder < |a| && key in a[holder].children
    requires |a[a[holder].children[key]].children| == 0
    requires n < |a| && Walk(a, n, segments).Some? && Walk(a, n, segments).value != a[holder].children[key]
    ensures WellFormed(Detach(a, holder, key)) && Walk(Detach(a, holder, key), n, segments) == Walk(a, n, segments)
    decreases |segments|
  {
    DetachShrinks(a, holder, key);
    if segments != [] {
      var b := Detach(a, holder, key);
      var slot := SlotKey(segments[0]);
      var c := a[n].children[slot];
      if segments[1..] != [] {
        assert SlotKey(segments[1..][0]) in a[c].children;
        DetachKeepsWalk(a, holder, key, c, segments[1..]);
      }
      assert slot in b[n].children && b[n].children[slot] == c;
    }
  }

  /** Detaching a node leaves every older node hanging where it hung. */
  lemma {:induction false} DetachKeepsAttached(a: Arena, holder: nat, key: string, x: nat)
    requires WellFormed(a) && holder < |a| && key in a[holder].children
    requires x < a[holder].children[key] && Attached(a, x)
    ensures WellFormed(Detach(a, holder, key)) && Attached(Detach(a, holder, key), x)
    decreases x
  {
    DetachShrinks(a, holder, key);
    if x != Root {
      DetachKeepsAttached(a, holder, key, a[x].parent.value);
    }
  }

  lemma PrefixExtend(x: seq<string>, y: seq<string>, key: string)
    ensures x <= y ==> x <= y + [key]
  {
    if x <= y {
      assert (y + [key])[..|x|] == y[..|x|];
    }
  }

  /** One step of the upward loop: detaching a childless hanging node keeps
      its parent hanging and changes neither ids nor walks to other nodes. */
  lemma DetachStep(a: Arena, n: nat, m: nat, segments: seq<string>)
    requires WellFormed(a) && 0 < n < |a| && |a[n].children| == 0 && Attached(a, n) && m < |a|
    requires !(Sections(a, m) <= Sections(a, n))
    ensures var b := Detach(a, a[n].parent.value, a[n].section.value);
      && WellFormed(b) && Attached(b, a[n].parent.value) && b[m].id == a[m].id
      && !(Sections(b, m) <= Sections(b, a[n].parent.value))
      && (Walk(a, Root, segments) == Some(m) ==> Walk(b, Root, segments) == Some(m))
  {
    var p := a[n].parent.value;
    var key := a[n].section.value;
    var b := Detach(a, p, key);
    DetachShrinks(a, p, key);
    DetachKeepsAttached(a, p, key, p);
    PrefixExtend(Sections(a, m), Sections(a, p), key);
    SectionsShrinks(a, b, m);
    SectionsShrinks(a, b, p);
    if Walk(a, Root, segments) == Some(m) {
      DetachKeepsWalk(a, p, key, Root, segments);
    }
  }

  /** Pruning from a hanging node `n` keeps the id of every node whose
      sections are not a prefix of `n`'s, and every walk from the root to it. */
  lemma {:induction false} PruneKeeps(a: Arena, n: nat, m: nat, segments: seq<string>)
    requires WellFormed(a) && n < |a| && Attached(a, n) && m < |a|
    requires !(Sections(a, m) <= Sections(a, n))
    ensures Prune(a, n)[m].id == a[m].id
    ensures Walk(a, Root, segments) == Some(m) ==> Walk(Prune(a, n), Root, segments) == Some(m)
    decreases n
  {
    if |a[n].children| != 0 {
      SetIdLinks(a, n, None);
      if Walk(a, Root, segments) == Some(m) {
        SameLinksWalk(a, Prune(a, n), Root, segments);
      }
    } else if n != Root {
      var p := a[n].parent.value;
      var b := Detach(a, p, a[n].section.value);
      DetachStep(a, n, m, segments);
      PruneKeeps(b, p, m, segments);
      assert Prune(a, n) == Prune(b, p);
    }
  }

  /** A pattern's walk from the root ends at a hanging node that spells out its slots. */
  lemma RootWalkHangs(a: Arena, segments: seq<string>)
    requires WellFormed(a) && Walk(a, Root, segments).Some?
    ensures var n := Walk(a, Root, segments).value; Attached(a, n) && Sections(a, n) == SlotKeys(segments)
  {
    WalkSections(a, Root, segments);
    WalkAttached(a, Root, segments);
    assert Sections(a, Root) == [];
  }

  /** Pruning from the node `pattern` walks to keeps the exact lookup of
      `other`, and the id of the node it finds, when the slots of `other`
      are not a prefix of those of `pattern`. */
  lemma PruneKeepsExact(a: Arena, n: nat, pattern: seq<string>, other: seq<string>)
    requires WellFormed(a) && Walk(a, Root, pattern) == Some(n)
    requires !(SlotKeys(other) <= SlotKeys(pattern))
    ensures var b := Prune(a, n); var e := ExactNode(a, Root, other, 0);
      ExactNode(b, Root, other, 0) == e && (e.Some? ==> b[e.value].id == a[e.value].id)
  {
    var b := Prune(a, n);
    RootWalkHangs(a, pattern);
    assert other[0..] == other;
    ExactNodeIsWalk(a, Root, other, 0);
    ExactNodeIsWalk(b, Root, other, 0);
    match Walk(a, Root, other)
    case Some(m) =>
      RootWalkHangs(a, other);
      PruneKeeps(a, n, m, other);
    case None =>
      if Walk(b, Root, other).Some? {
        WalkShrinks(a, b, Root, other);
      }
  }

  /** Pruning from the node `pattern` walks to keeps the id under a static
      route whose segments are not a prefix of the slots of `pattern`. */
  lemma PruneKeepsStatic(s: State, n: nat, pattern: seq<string>, q: string)
    requires Valid(s) && Walk(s.nodes, Root, pattern) == Some(n) && q in s.staticRoutes
    requires !(SlotKeys(Split(q)) <= SlotKeys(pattern))
    ensures Prune(s.nodes, n)[s.staticRoutes[q]].id == s.nodes[s.staticRoutes[q]].id
  {
    StaticSlotKeys(Split(q));
    RootWalkHangs(s.nodes, pattern);
    PruneKeeps(s.nodes, n, s.staticRoutes[q], Split(q));
  }

  /** Pruning from the exact node of `p` and dropping `p` from the static
      index keeps what `id` answers for `q`. */
  lemma PruneKeepsLookup(s: State, t: State, n: nat, p: string, q: string)
    requires Valid(s) && Valid(t) && ExactNode(s.nodes, Root, Split(p), 0) == Some(n)
    requires t == State(Prune(s.nodes, n), s.staticRoutes - {p})
    requires q != p && !(SlotKeys(Split(q)) <= SlotKeys(Split(p)))
    ensures IdOf(t, q) == IdOf(s, q)
  {
    assert Split(p)[0..] == Split(p);
    ExactNodeIsWalk(s.nodes, Root, Split(p), 0);
    if q in s.staticRoutes {
      PruneKeepsStatic(s, n, Split(p), q);
    } else {
      PruneKeepsExact(s.nodes, n, Split(p), Split(q));
    }
  }

  /** `remove` leaves `id` of every other pattern as it was, unless that
      pattern's slots are a prefix of the removed one's: its node may then be
      the one the upward loop stops at, or be detached on the way. */
  lemma DeleteKeepsOthers(s: State, strict: bool, path: string, p: string, q: string)
    requires Valid(s) && ValidatePath(path, strict) == Ok(p)
    requires q != p && !(SlotKeys(Split(q)) <= SlotKeys(Split(p)))
    ensures IdOf(Delete(s, strict, path).value.0, q) == IdOf(s, q)
  {
    if ExactNode(s.nodes, Root, Split(p), 0).Some? {
      PruneKeepsLookup(s, Delete(s, strict, path).value.0, ExactNode(s.nodes, Root, Split(p), 0).value, p, q);
    }
  }


  /** When the exact node of the removed pattern has children, `remove`
      clears that node's id and changes no other node. */
  lemma DeleteInnerNode(s: State, strict: bool, path: string)
    requires Valid(s) && path != ""
    requires var n := ExactNode(s.nodes, Root, Split(ValidatePath(path, strict).value), 0);
      n.Some? && |s.nodes[n.value].children| != 0
    ensures var p := ValidatePath(path, strict).value;
      var n := ExactNode(s.nodes, Root, Split(p), 0).value;
      Delete(s, strict, path).value.0 == State(s.nodes[n := s.nodes[n].(id := None)], s.staticRoutes - {p})
  {
  }

  /** As written, removing a leaf whose parent keeps other children clears
      the parent's id as well, although the parent's pattern was not removed. */
  lemma PruneClearsParent(a: Arena, n: nat, other: string)
    requires WellFormed(a) && n < |a| && |a[n].children| == 0 && a[n].parent.Some?
    requires other in a[a[n].parent.value].children && Some(other) != a[n].section
    ensures var p := a[n].parent.value;
      Prune(a, n)[p].id == None && a[n].section.value !in Prune(a, n)[p].children
  {
    var p := a[n].parent.value;
    var b := Detach(a, p, a[n].section.value);
    assert other in b[p].children;
  }

  /** As written, removing the only child of a childless parent also detaches
      the parent from its own parent, even when the parent holds an id. */
  lemma PruneDetachesParent(a: Arena, n: nat)
    requires WellFormed(a) && n < |a| && |a[n].children| == 0 && a[n].parent.Some?
    requires var p := a[n].parent.value; a[p].children.Keys == {a[n].section.value} && a[p].parent.Some?
    ensures var p := a[n].parent.value;
      a[p].section.value !in Prune(a, n)[a[p].parent.value].children
  {
    var p := a[n].parent.value;
    var g := a[p].parent.value;
    var b := Detach(a, p, a[n].section.value);
    DetachShrinks(a, p, a[n].section.value);
    assert b[p].children == map[];
    var c := Detach(b, g, b[p].section.value);
    DetachShrinks(b, g, b[p].section.value);
    assert Prune(b, p) == Prune(c, g);
    assert SubMap(Prune(c, g)[g].children, c[g].children);
  }

  // ---------------------------------------------------------------------
  // One pattern added to a fresh tree and removed again

  /** Nodes `0..n` form a single chain, each holding only the next, and `n`
      holds nothing. */
  ghost predicate ChainTo(a: Arena, n: nat)
  {
    && n < |a|
    && a[n].children == map[]
    && forall i :: 0 < i <= n ==> a[i].section.Some? && a[i - 1].children == map[a[i].section.value := i]
  }

  /** One step of `add` below the end of a chain that ends the arena. */
  lemma ChildChain(a: Arena, n: nat, segment: string)
    requires WellFormed(a) && n == |a| - 1 && ChainTo(a, n)
    ensures var r := Child(a, n, segment); r.1 == |r.0| - 1 && ChainTo(r.0, r.1)
  {
    var r := Child(a, n, segment);
    assert r.1 == |a| && |r.0| == |a| + 1;
    assert forall i :: 0 <= i < n ==> r.0[i] == a[i];
    assert r.0[n].children == map[SlotKey(segment) := |a|];
    assert r.0[|a|].children == map[];
  }

  /** Adding below the end of a chain that ends the arena extends the chain. */
  lemma {:induction false} AddPathChain(a: Arena, n: nat, segments: seq<string>)
    requires WellFormed(a) && n == |a| - 1 && ChainTo(a, n)
    ensures var r := AddPath(a, n, segments); r.1 == |r.0| - 1 && ChainTo(r.0, r.1)
    decreases |segments|
  {
    if segments != [] {
      var step := Child(a, n, segments[0]);
      ChildChain(a, n, segments[0]);
      AddPathChain(step.0, step.1, segments[1..]);
    }
  }

  /** Pruning from the end of a chain detaches the whole chain from the root. */
  lemma {:induction false} PruneChain(a: Arena, n: nat)
    requires WellFormed(a) && ChainTo(a, n)
    ensures Prune(a, n)[Root].children == map[]
    decreases n
  {
    if n != Root {
      var key := a[n].section.value;
      assert a[n - 1].children == map[key := n];
      assert a[n].parent == Some(n - 1) by {
        assert key in a[n - 1].children && a[n - 1].children[key] == n;
      }
      var b := Detach(a, n - 1, key);
      DetachShrinks(a, n - 1, key);
      assert forall i :: 0 <= i < n - 1 ==> b[i] == a[i];
      assert b[n - 1].children == map[];
      assert ChainTo(b, n - 1);
      assert Prune(a, n) == Prune(b, n - 1);
      PruneChain(b, n - 1);
    }
  }

  /** A fresh tree with one pattern is a chain ending at that pattern's node. */
  lemma PlaceOnEmpty(p: string, id: Id)
    ensures Valid(Empty)
    ensures var r := Place(Empty, p, id);
      ChainTo(r.0.nodes, r.1) && r.0.staticRoutes.Keys <= {p}
  {
    EmptyValid();
    var built := AddPath(Empty.nodes, Root, Split(p));
    assert ChainTo(Empty.nodes, Root);
    AddPathChain(Empty.nodes, Root, Split(p));
    PlaceFrom(Empty, p, id, built.0, built.1);
    SetIdChain(built.0, built.1, built.1, Some(id));
  }

  /** Changing an id keeps a chain. */
  lemma SetIdChain(a: Arena, n: nat, m: nat, id: Option<Id>)
    requires ChainTo(a, n) && m < |a|
    ensures ChainTo(a[m := a[m].(id := id)], n)
  {
    var b := a[m := a[m].(id := id)];
    forall i | 0 < i <= n
      ensures b[i].section.Some? && b[i - 1].children == map[b[i].section.value := i]
    {
      assert b[i].section == a[i].section && b[i - 1].children == a[i - 1].children;
    }
  }

  /** On a fresh tree, removing the one pattern just added returns its id and
      leaves the root without children and the static index empty. */
  lemma InsertThenDeleteEmpties(strict: bool, id: Id, path: string)
    requires path != ""
    ensures Valid(Empty)
    ensures var s1 := Insert(Empty, strict, id, path).value.0;
      var d := Delete(s1, strict, path).value;
      d.1 == Some(id) && d.0.nodes[Root].children == map[] && d.0.staticRoutes == map[]
  {
    var p := ValidatePath(path, strict).value;
    PlaceOnEmpty(p, id);
    var r := Place(Empty, p, id);
    assert ExactNode(r.0.nodes, Root, Split(p), 0) == Some(r.1) by {
      PlaceWalks(Empty, p, id);
      assert Split(p)[0..] == Split(p);
      ExactNodeIsWalk(r.0.nodes, Root, Split(p), 0);
    }
    PruneChain(r.0.nodes, r.1);
  }
}
