/** Adding and removing patterns over the life of a tree: every link of the
    arena is kept alive by a registered pattern, so once every added pattern
    has been removed no link and no static route is left. */
module Lifecycle {
  import opened Wrappers
  import opened Paths
  import opened Nodes
  import opened Matcher
  import opened Trie
  import PathTree

  /** `c` lies on the way from the root to the terminal node of some pattern in `live`. */
  ghost predicate KeptAlive(a: Arena, c: nat, live: set<string>)
    requires WellFormed(a) && c < |a|
  {
    exists q :: q in live && Walk(a, Root, Split(q)).Some? && Above(a, c, Walk(a, Root, Split(q)).value)
  }

  /** Every child link of the arena leads to a node kept alive by `live`. */
  ghost predicate Owned(a: Arena, live: set<string>)
    requires WellFormed(a)
  {
    forall i, k :: 0 <= i < |a| && k in a[i].children ==> KeptAlive(a, a[i].children[k], live)
  }

  /** What holds half-way through the upward loop of `remove` at node `x`:
      every link leads to a node kept alive by `live` or to an ancestor of `x`. */
  ghost predicate OwnedExcept(a: Arena, live: set<string>, x: nat)
    requires WellFormed(a) && x < |a|
  {
    forall i, k :: 0 <= i < |a| && k in a[i].children ==>
      KeptAlive(a, a[i].children[k], live) || Above(a, a[i].children[k], x)
  }

  /** Every link of `b` is a link of `a`, or leads to `c`. */
  ghost predicate LinksFrom(a: Arena, b: Arena, c: nat)
  {
    forall i, k :: 0 <= i < |b| && k in b[i].children ==>
      (i < |a| && k in a[i].children && a[i].children[k] == b[i].children[k]) || b[i].children[k] == c
  }

  // ---------------------------------------------------------------------
  // ancestors across arenas with the same parent links

  lemma {:induction false} AboveSameParents(a: Arena, b: Arena, c: nat, m: nat)
    requires WellFormed(a) && WellFormed(b) && m < |a| <= |b|
    requires forall i :: 0 <= i < |a| ==> b[i].parent == a[i].parent
    ensures Above(b, c, m) == Above(a, c, m)
    decreases m
  {
    if m != Root {
      AboveSameParents(a, b, c, a[m].parent.value);
    }
  }

  // ---------------------------------------------------------------------
  // add

  /** One slot lookup-or-create adds at most the link to the child it returns. */
  lemma ChildLinks(a: Arena, n: nat, str: string)
    requires WellFormed(a) && n < |a|
    ensures LinksFrom(a, Child(a, n, str).0, Child(a, n, str).1)
  {
    var r := Child(a, n, str);
    var key := SlotKey(str);
    if key !in a[n].children {
      var paramName := match KindOf(str) case Param => Some(str[1..]) case Star => None case Literal => Some(str);
      assert r.0 == a[n := a[n].(children := a[n].children[key := |a|])] + [CreateNode(None, Some(key), Some(n), paramName)];
      forall i, k | 0 <= i < |r.0| && k in r.0[i].children
        ensures (i < |a| && k in a[i].children && a[i].children[k] == r.0[i].children[k]) || r.0[i].children[k] == r.1
      {
        if i != n {
          assert i < |a| && r.0[i] == a[i];
        }
      }
    }
  }

  /** The loop of `add` only adds links to nodes on the way to the node it returns. */
  lemma {:induction false} AddPathLinks(a: Arena, n: nat, segments: seq<string>)
    requires WellFormed(a) && n < |a|
    ensures var r := AddPath(a, n, segments);
      && Above(r.0, n, r.1)
      && forall i, k :: 0 <= i < |r.0| && k in r.0[i].children ==>
           (i < |a| && k in a[i].children && a[i].children[k] == r.0[i].children[k]) || Above(r.0, r.0[i].children[k], r.1)
    decreases |segments|
  {
    var r := AddPath(a, n, segments);
    if segments != [] {
      var step := Child(a, n, segments[0]);
      ChildLinks(a, n, segments[0]);
      AddPathLinks(step.0, step.1, segments[1..]);
      assert r == AddPath(step.0, step.1, segments[1..]);
      ExtendsTransitive(a, step.0, r.0);
      assert r.0[step.1].parent == Some(n);
      AboveTransitive(r.0, n, step.1, r.1);
    }
  }

  /** Growing the arena keeps a node alive. */
  lemma KeptAliveExtends(a: Arena, b: Arena, c: nat, live: set<string>)
    requires WellFormed(a) && WellFormed(b) && Extends(a, b) && c < |a| && KeptAlive(a, c, live)
    ensures KeptAlive(b, c, live)
  {
    var q :| q in live && Walk(a, Root, Split(q)).Some? && Above(a, c, Walk(a, Root, Split(q)).value);
    WalkExtends(a, b, Root, Split(q));
    AboveSameParents(a, b, c, Walk(a, Root, Split(q)).value);
  }

  /** Changing ids keeps a node alive. */
  lemma KeptAliveSameLinks(a: Arena, b: Arena, c: nat, live: set<string>)
    requires WellFormed(a) && WellFormed(b) && SameLinks(a, b) && c < |a| && KeptAlive(a, c, live)
    ensures KeptAlive(b, c, live)
  {
    var q :| q in live && Walk(a, Root, Split(q)).Some? && Above(a, c, Walk(a, Root, Split(q)).value);
    SameLinksWalk(a, b, Root, Split(q));
    AboveSameParents(a, b, c, Walk(a, Root, Split(q)).value);
  }

  /** The loop of `add` keeps every link owned, the new pattern owning the links it adds. */
  lemma AddPathOwned(a: Arena, p: string, live: set<string>)
    requires WellFormed(a) && Owned(a, live)
    ensures Owned(AddPath(a, Root, Split(p)).0, live + {p})
  {
    var r := AddPath(a, Root, Split(p));
    AddPathLinks(a, Root, Split(p));
    forall i, k | 0 <= i < |r.0| && k in r.0[i].children
      ensures KeptAlive(r.0, r.0[i].children[k], live + {p})
    {
      var c := r.0[i].children[k];
      if i < |a| && k in a[i].children && a[i].children[k] == c {
        KeptAliveExtends(a, r.0, c, live);
      }
      assert KeptAlive(r.0, c, live) || (p in live + {p} && Walk(r.0, Root, Split(p)) == Some(r.1) && Above(r.0, c, r.1));
    }
  }

  /** Setting an id keeps every link owned. */
  lemma SetIdOwned(a: Arena, n: nat, id: Option<Id>, live: set<string>)
    requires WellFormed(a) && n < |a| && Owned(a, live)
    ensures WellFormed(a[n := a[n].(id := id)]) && Owned(a[n := a[n].(id := id)], live)
  {
    var b := a[n := a[n].(id := id)];
    SetIdLinks(a, n, id);
    forall i, k | 0 <= i < |b| && k in b[i].children
      ensures KeptAlive(b, b[i].children[k], live)
    {
      KeptAliveSameLinks(a, b, b[i].children[k], live);
    }
  }

  /** `add` keeps every link owned, the new pattern owning the links it adds,
      and adds no static route but its own. */
  lemma PlaceOwned(s: State, p: string, id: Id, live: set<string>)
    requires Valid(s) && Owned(s.nodes, live)
    ensures Owned(Place(s, p, id).0.nodes, live + {p})
    ensures Place(s, p, id).0.staticRoutes.Keys <= s.staticRoutes.Keys + {p}
  {
    var built := AddPath(s.nodes, Root, Split(p));
    PlaceFrom(s, p, id, built.0, built.1);
    AddPathOwned(s.nodes, p, live);
    SetIdOwned(built.0, built.1, Some(id), live + {p});
  }

  // ---------------------------------------------------------------------
  // remove

  /** Detaching the childless hanging node `x` keeps alive what was alive,
      except what lay on the way to `x` only, which lies above its parent. */
  lemma DetachLinkOwned(a: Arena, x: nat, live: set<string>, c: nat)
    requires WellFormed(a) && 0 < x < |a| && |a[x].children| == 0 && Attached(a, x)
    requires c < |a| && c != x && (KeptAlive(a, c, live) || Above(a, c, x))
    ensures var b := Detach(a, a[x].parent.value, a[x].section.value);
      WellFormed(b) && (KeptAlive(b, c, live) || Above(b, c, a[x].parent.value))
  {
    var px := a[x].parent.value;
    var key := a[x].section.value;
    var b := Detach(a, px, key);
    DetachShrinks(a, px, key);
    AboveSameParents(a, b, c, px);
    ghost var alive := false;
    if KeptAlive(a, c, live) {
      var q :| q in live && Walk(a, Root, Split(q)).Some? && Above(a, c, Walk(a, Root, Split(q)).value);
      var m := Walk(a, Root, Split(q)).value;
      if m != x {
        DetachKeepsWalk(a, px, key, Root, Split(q));
        AboveSameParents(a, b, c, m);
        assert q in live && Walk(b, Root, Split(q)) == Some(m) && Above(b, c, m);
        alive := true;
      }
    }
    if !alive {
      assert Above(a, c, x);
    }
  }

  /** One step of the upward loop of `remove` keeps the half-way invariant. */
  lemma DetachOwned(a: Arena, x: nat, live: set<string>)
    requires WellFormed(a) && 0 < x < |a| && |a[x].children| == 0 && Attached(a, x)
    requires OwnedExcept(a, live, x)
    ensures var b := Detach(a, a[x].parent.value, a[x].section.value);
      WellFormed(b) && OwnedExcept(b, live, a[x].parent.value)
  {
    var px := a[x].parent.value;
    var b := Detach(a, px, a[x].section.value);
    DetachShrinks(a, px, a[x].section.value);
    forall i, k | 0 <= i < |b| && k in b[i].children
      ensures KeptAlive(b, b[i].children[k], live) || Above(b, b[i].children[k], px)
    {
      var c := b[i].children[k];
      assert k in a[i].children && a[i].children[k] == c;
      assert a[c].parent == Some(i) && a[c].section == Some(k);
      assert KeptAlive(a, c, live) || Above(a, c, x);
      DetachLinkOwned(a, x, live, c);
    }
  }

  /** What lies above a node whose child is alive is alive. */
  lemma AliveAboveChild(a: Arena, x: nat, key: string, c: nat, live: set<string>)
    requires WellFormed(a) && x < |a| && c < |a| && key in a[x].children && Above(a, c, x)
    requires KeptAlive(a, a[x].children[key], live)
    ensures KeptAlive(a, c, live)
  {
    var y := a[x].children[key];
    var q :| q in live && Walk(a, Root, Split(q)).Some? && Above(a, y, Walk(a, Root, Split(q)).value);
    AboveChild(a, x, key);
    AboveTransitive(a, c, x, y);
    AboveTransitive(a, c, y, Walk(a, Root, Split(q)).value);
  }

  /** The upward loop of `remove` ends with every link owned. */
  lemma {:induction false} PruneOwned(a: Arena, x: nat, live: set<string>)
    requires WellFormed(a) && x < |a| && Attached(a, x) && OwnedExcept(a, live, x)
    ensures Owned(Prune(a, x), live)
    decreases x
  {
    if |a[x].children| != 0 {
      var b := a[x := a[x].(id := None)];
      SetIdLinks(a, x, None);
      var key :| key in a[x].children;
      AboveChild(a, x, key);
      AboveOrder(a, a[x].children[key], x);
      forall i, k | 0 <= i < |b| && k in b[i].children
        ensures KeptAlive(b, b[i].children[k], live)
      {
        var c := b[i].children[k];
        if !KeptAlive(a, c, live) {
          AliveAboveChild(a, x, key, c, live);
        }
        KeptAliveSameLinks(a, b, c, live);
      }
    } else if x != Root {
      var px := a[x].parent.value;
      var b := Detach(a, px, a[x].section.value);
      DetachOwned(a, x, live);
      DetachKeepsAttached(a, px, a[x].section.value, px);
      PruneOwned(b, px, live);
      assert Prune(a, x) == Prune(b, px);
    }
  }

  /** Before the loop: a link kept alive only by the removed pattern `p` lies
      above the node `p` walks to. */
  lemma OwnedBeforePrune(a: Arena, p: string, live: set<string>)
    requires WellFormed(a) && Owned(a, live) && Walk(a, Root, Split(p)).Some?
    ensures OwnedExcept(a, live - {p}, Walk(a, Root, Split(p)).value)
  {
    var n := Walk(a, Root, Split(p)).value;
    forall i, k | 0 <= i < |a| && k in a[i].children
      ensures KeptAlive(a, a[i].children[k], live - {p}) || Above(a, a[i].children[k], n)
    {
      var c := a[i].children[k];
      var q :| q in live && Walk(a, Root, Split(q)).Some? && Above(a, c, Walk(a, Root, Split(q)).value);
      if q != p {
        assert q in live - {p};
      }
    }
  }

  /** When nothing is found for `p`, no link was kept alive by `p`. */
  lemma OwnedWithout(a: Arena, p: string, live: set<string>)
    requires WellFormed(a) && Owned(a, live) && Walk(a, Root, Split(p)).None?
    ensures Owned(a, live - {p})
  {
    forall i, k | 0 <= i < |a| && k in a[i].children
      ensures KeptAlive(a, a[i].children[k], live - {p})
    {
      var c := a[i].children[k];
      var q :| q in live && Walk(a, Root, Split(q)).Some? && Above(a, c, Walk(a, Root, Split(q)).value);
      assert q in live - {p};
    }
  }

  /** The arena after the upward loop of `remove` for `p` from its exact
      node, if there is one, has every link owned by the patterns other than `p`. */
  lemma RemoveOwned(a: Arena, p: string, live: set<string>)
    requires WellFormed(a) && Owned(a, live)
    ensures var e := ExactNode(a, Root, Split(p), 0);
      Owned(if e.Some? then Prune(a, e.value) else a, live - {p})
  {
    assert Split(p)[0..] == Split(p);
    ExactNodeIsWalk(a, Root, Split(p), 0);
    if Walk(a, Root, Split(p)).Some? {
      OwnedBeforePrune(a, p, live);
      RootWalkHangs(a, Split(p));
      PruneOwned(a, Walk(a, Root, Split(p)).value, live - {p});
    } else {
      OwnedWithout(a, p, live);
    }
  }

  /** `remove` keeps every link owned by the patterns other than the removed
      one, and drops the removed one from the static index. */
  lemma DeleteOwned(s: State, strict: bool, path: string, live: set<string>)
    requires Valid(s) && path != "" && Owned(s.nodes, live)
    ensures var p := ValidatePath(path, strict).value; var t := Delete(s, strict, path).value.0;
      Owned(t.nodes, live - {p}) && t.staticRoutes.Keys == s.staticRoutes.Keys - {p}
  {
    RemoveOwned(s.nodes, ValidatePath(path, strict).value, live);
  }

  // ---------------------------------------------------------------------
  // lists of patterns

  /** The normalised forms of some non-empty paths. */
  ghost function Normalised(strict: bool, paths: seq<string>): set<string>
    requires forall i :: 0 <= i < |paths| ==> paths[i] != ""
  {
    if paths == [] then {}
    else Normalised(strict, paths[..|paths| - 1]) + {ValidatePath(paths[|paths| - 1], strict).value}
  }

  /** The state after calling `remove` on each of `paths` in order. */
  function DeleteAll(s: State, strict: bool, paths: seq<string>): (t: State)
    requires Valid(s) && forall i :: 0 <= i < |paths| ==> paths[i] != ""
    ensures Valid(t)
  {
    if paths == [] then s
    else Delete(DeleteAll(s, strict, paths[..|paths| - 1]), strict, paths[|paths| - 1]).value.0
  }

  /** After the constructor, every link is owned by an added pattern, and
      every static route is an added pattern. */
  lemma {:induction false} InsertAllOwned(strict: bool, hash: string -> Id, routes: seq<string>)
    requires forall i :: 0 <= i < |routes| ==> routes[i] != ""
    ensures var s := PathTree.InsertAll(strict, hash, routes);
      Owned(s.nodes, Normalised(strict, routes)) && s.staticRoutes.Keys <= Normalised(strict, routes)
  {
    if routes == [] {
      assert Empty.nodes == [RootNode];
    } else {
      var front := routes[..|routes| - 1];
      var last := routes[|routes| - 1];
      InsertAllOwned(strict, hash, front);
      PlaceOwned(PathTree.InsertAll(strict, hash, front), ValidatePath(last, strict).value, hash(last), Normalised(strict, front));
    }
  }

  /** Removing `paths` releases their normalised forms. */
  lemma {:induction false} DeleteAllOwned(s: State, strict: bool, paths: seq<string>, live: set<string>)
    requires Valid(s) && forall i :: 0 <= i < |paths| ==> paths[i] != ""
    requires Owned(s.nodes, live) && s.staticRoutes.Keys <= live
    ensures var t := DeleteAll(s, strict, paths);
      Owned(t.nodes, live - Normalised(strict, paths)) && t.staticRoutes.Keys <= live - Normalised(strict, paths)
  {
    if paths != [] {
      var front := paths[..|paths| - 1];
      DeleteAllOwned(s, strict, front, live);
      DeleteOwned(DeleteAll(s, strict, front), strict, paths[|paths| - 1], live - Normalised(strict, front));
    }
  }

  /** With no pattern left, no link is left. */
  lemma OwnedByNone(a: Arena)
    requires WellFormed(a) && Owned(a, {})
    ensures forall i :: 0 <= i < |a| ==> a[i].children == map[]
  {
  }

  /** Removing every added pattern, in any order and with any other paths in
      between, leaves the root and every other node without children and the
      static index empty. */
  lemma RemoveAllEmpties(strict: bool, hash: string -> Id, routes: seq<string>, removals: seq<string>)
    requires forall i :: 0 <= i < |routes| ==> routes[i] != ""
    requires forall i :: 0 <= i < |removals| ==> removals[i] != ""
    requires Normalised(strict, routes) <= Normalised(strict, removals)
    ensures var t := DeleteAll(PathTree.InsertAll(strict, hash, routes), strict, removals);
      && t.nodes[Root].children == map[]
      && (forall i :: 0 <= i < |t.nodes| ==> t.nodes[i].children == map[])
      && t.staticRoutes == map[]
  {
    var s := PathTree.InsertAll(strict, hash, routes);
    var t := DeleteAll(s, strict, removals);
    InsertAllOwned(strict, hash, routes);
    DeleteAllOwned(s, strict, removals, Normalised(strict, routes));
    assert Normalised(strict, routes) - Normalised(strict, removals) == {};
    OwnedByNone(t.nodes);
  }
}
