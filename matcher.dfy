/** Resolution of concrete paths against the trie: the downward descent of
    `findNodeDown`, the upward fallback of `findNodeUp`, their combination
    `findNode`, and the literal-token lookup `findExactNode`. Each loop of the
    source is a method proved equal to a recursive function that states the
    same walk step by step. */
module Matcher {
  import opened Wrappers
  import opened Paths
  import opened Nodes

  /** Captured placeholder values, by parameter name. */
  type Params = map<string, string>

  /** The key a placeholder node records its value under; placeholder nodes
      always carry a name, and JavaScript would coerce a missing one to `"undefined"`. */
  function ParamKey(n: Node): string
  {
    match n.paramName
    case Some(name) => name
    case None => "undefined"
  }

  /** An empty parameter object is reported as absent. */
  function Reported(params: Params): Option<Params>
  {
    if |params| == 0 then None else Some(params)
  }

  /** The result of `findNodeDown`: whether every segment was consumed, the
      node reached, the captures and the index of the first unconsumed segment. */
  datatype Down = Down(didMatch: bool, node: nat, params: Params, index: nat)

  /** The descent from segment `i` on, at node `node`: an exact child first,
      then the placeholder child (capturing the segment), then the wildcard
      child, then staying on a wildcard node; otherwise it stops at `i`. */
  function Descent(a: Arena, node: nat, parts: seq<string>, i: nat, params: Params): (d: Down)
    requires WellFormed(a) && node < |a| && i <= |parts|
    ensures d.node < |a| && i <= d.index <= |parts|
    ensures d.didMatch <==> d.index == |parts|
    ensures d.index == i ==> d.node == node
    decreases |parts| - i
  {
    if i == |parts| then Down(true, node, params, i)
    else
      var section := parts[i];
      var children := a[node].children;
      if section in children then
        Descent(a, children[section], parts, i + 1, params)
      else if Placeholder in children then
        var p := children[Placeholder];
        Descent(a, p, parts, i + 1, params[ParamKey(a[p]) := section])
      else if Wildcard in children then
        Descent(a, children[Wildcard], parts, i + 1, params)
      else if a[node].section == Some(Wildcard) then
        Descent(a, node, parts, i + 1, params)
      else
        Down(false, node, params, i)
  }

  /** One turn of the loop in `findNodeDown`, branch by branch. */
  lemma DescentStep(a: Arena, n: nat, parts: seq<string>, i: nat, params: Params)
    requires WellFormed(a) && n < |a| && i < |parts|
    ensures var c := a[n].children;
      parts[i] in c ==> c[parts[i]] < |a| && Descent(a, n, parts, i, params) == Descent(a, c[parts[i]], parts, i + 1, params)
    ensures var c := a[n].children;
      parts[i] !in c && Placeholder in c ==>
        c[Placeholder] < |a| &&
        Descent(a, n, parts, i, params) == Descent(a, c[Placeholder], parts, i + 1, params[ParamKey(a[c[Placeholder]]) := parts[i]])
    ensures var c := a[n].children;
      parts[i] !in c && Placeholder !in c && Wildcard in c ==>
        c[Wildcard] < |a| &&
        Descent(a, n, parts, i, params) == Descent(a, c[Wildcard], parts, i + 1, params)
    ensures var c := a[n].children;
      parts[i] !in c && Placeholder !in c && Wildcard !in c && a[n].section == Some(Wildcard) ==>
        Descent(a, n, parts, i, params) == Descent(a, n, parts, i + 1, params)
    ensures var c := a[n].children;
      parts[i] !in c && Placeholder !in c && Wildcard !in c && a[n].section != Some(Wildcard) ==>
        Descent(a, n, parts, i, params) == Down(false, n, params, i)
  {
  }

  /** `findNodeDown(node, path)`. */
  method FindNodeDown(a: Arena, start: nat, parts: seq<string>)
    returns (didMatch: bool, node: nat, params: Option<Params>, index: nat)
    requires WellFormed(a) && start < |a|
    ensures var d := Descent(a, start, parts, 0, map[]);
      didMatch == d.didMatch && node == d.node && params == Reported(d.params) && index == d.index
  {
    var captured: Params := map[];
    didMatch := true;
    node, index := start, 0;
    while index < |parts|
      invariant index <= |parts| && node < |a| && didMatch
      invariant Descent(a, start, parts, 0, map[]) == Descent(a, node, parts, index, captured)
    {
      var section := parts[index];
      var children := a[node].children;
      ghost var rest := Descent(a, node, parts, index, captured);
      DescentStep(a, node, parts, index, captured);
      if section in children {
        node := children[section];
      } else if Placeholder in children {
        var p := children[Placeholder];
        captured := captured[ParamKey(a[p]) := section];
        node := p;
      } else if Wildcard in children {
        node := children[Wildcard];
      } else if a[node].section == Some(Wildcard) {
      } else {
        didMatch := false;
        break;
      }
      assert rest == Descent(a, node, parts, index + 1, captured);
      index := index + 1;
    }
    params := Reported(captured);
  }

  /** The nearest proper ancestor of `n` whose wildcard child holds an id: that child. */
  function NearestWildcard(a: Arena, n: nat): (r: Option<nat>)
    requires WellFormed(a) && n < |a|
    ensures r.Some? ==> r.value < |a| && a[r.value].id.Some?
    decreases n
  {
    match a[n].parent
    case None => None
    case Some(p) =>
      if Wildcard in a[p].children && a[a[p].children[Wildcard]].id.Some? then Some(a[p].children[Wildcard])
      else NearestWildcard(a, p)
  }

  /** A resolved node and its captures. */
  datatype Found = Found(node: nat, params: Option<Params>)

  /** `findNodeUp(node, path, index)`: when every segment was consumed, the
      placeholder sibling of `node` if it holds an id, capturing the last
      segment; otherwise the nearest ancestor's wildcard child with an id. */
  function UpSearch(a: Arena, node: nat, parts: seq<string>, index: nat): (r: Option<Found>)
    requires WellFormed(a) && node < |a| && 1 <= |parts| && index <= |parts|
    ensures r.Some? ==> r.value.node < |a| && a[r.value.node].id.Some?
  {
    var sibling :=
      if index == |parts| && a[node].parent.Some? && Placeholder in a[a[node].parent.value].children
      then Some(a[a[node].parent.value].children[Placeholder]) else None;
    if sibling.Some? && a[sibling.value].id.Some? then
      Some(Found(sibling.value, Some(map[ParamKey(a[sibling.value]) := parts[index - 1]])))
    else
      match NearestWildcard(a, node)
      case None => None
      case Some(w) => Some(Found(w, None))
  }

  /** `findNodeUp(node, path, index)`. */
  method FindNodeUp(a: Arena, node: nat, parts: seq<string>, index: nat) returns (r: Option<Found>)
    requires WellFormed(a) && node < |a| && 1 <= |parts| && index <= |parts|
    ensures r == UpSearch(a, node, parts, index)
  {
    if index == |parts| && a[node].parent.Some? {
      var siblings := a[a[node].parent.value].children;
      if Placeholder in siblings && a[siblings[Placeholder]].id.Some? {
        var p := siblings[Placeholder];
        r := Some(Found(p, Some(map[ParamKey(a[p]) := parts[index - 1]])));
        UpSearchSibling(a, node, parts, index);
        return;
      }
    }
    UpSearchFallback(a, node, parts, index);
    var didMatch := false;
    var found := node;
    var goUp: Option<nat> := Some(node);
    while goUp.Some?
      invariant goUp.Some? ==> goUp.value < |a| && !didMatch && NearestWildcard(a, goUp.value) == NearestWildcard(a, node)
      invariant goUp.None? ==> NearestWildcard(a, node) == (if didMatch then Some(found) else None)
      decreases if goUp.Some? then goUp.value + 1 else 0
    {
      ghost var here := goUp.value;
      goUp := a[goUp.value].parent;
      if goUp.Some? {
        var children := a[goUp.value].children;
        if Wildcard in children && a[children[Wildcard]].id.Some? {
          found := children[Wildcard];
          didMatch := true;
          goUp := None;
          assert NearestWildcard(a, here) == Some(found);
        } else {
          assert NearestWildcard(a, here) == NearestWildcard(a, goUp.value);
        }
      } else {
        assert NearestWildcard(a, here) == None;
      }
    }
    r := if didMatch then Some(Found(found, None)) else None;
  }

  /** The first test of `findNodeUp`: a completed descent whose node has a
      placeholder sibling with an id resolves to that sibling. */
  lemma UpSearchSibling(a: Arena, node: nat, parts: seq<string>, index: nat)
    requires WellFormed(a) && node < |a| && 1 <= |parts| && index == |parts|
    requires a[node].parent.Some? && Placeholder in a[a[node].parent.value].children
    requires a[a[a[node].parent.value].children[Placeholder]].id.Some?
    ensures var p := a[a[node].parent.value].children[Placeholder];
      UpSearch(a, node, parts, index) == Some(Found(p, Some(map[ParamKey(a[p]) := parts[index - 1]])))
  {
    var q := a[node].parent.value;
    var p := a[q].children[Placeholder];
    assert q < |a| && p < |a|;
  }

  /** Otherwise `findNodeUp` falls back on the nearest wildcard above. */
  lemma UpSearchFallback(a: Arena, node: nat, parts: seq<string>, index: nat)
    requires WellFormed(a) && node < |a| && 1 <= |parts| && index <= |parts|
    requires index == |parts| && a[node].parent.Some? ==>
      !(Placeholder in a[a[node].parent.value].children && a[a[a[node].parent.value].children[Placeholder]].id.Some?)
    ensures UpSearch(a, node, parts, index) == match NearestWildcard(a, node) case None => None case Some(w) => Some(Found(w, None))
  {
  }

  /** `findNode(root, path)`: a completed descent onto a node with an id,
      otherwise the upward fallback. */
  function Resolution(a: Arena, path: string): (r: Option<Found>)
    requires WellFormed(a)
    ensures r.Some? ==> r.value.node < |a| && a[r.value.node].id.Some?
  {
    var parts := Split(path);
    var down := Descent(a, Root, parts, 0, map[]);
    if down.didMatch && a[down.node].id.Some? then Some(Found(down.node, Reported(down.params)))
    else UpSearch(a, down.node, parts, down.index)
  }

  /** `findNode(root, path)`. */
  method FindNode(a: Arena, path: string) returns (r: Option<Found>)
    requires WellFormed(a)
    ensures r == Resolution(a, path)
  {
    var parts := Split(path);
    var didMatch, node, params, index := FindNodeDown(a, Root, parts);
    if didMatch && a[node].id.Some? {
      return Some(Found(node, params));
    }
    r := FindNodeUp(a, node, parts, index);
  }

  /** The node `findExactNode` reaches from segment `i` on: an exact child,
      or the placeholder slot for a `:`-segment; a token such as `*` or
      `:name` is taken as the key it names, not as a pattern. */
  function ExactNode(a: Arena, n: nat, parts: seq<string>, i: nat): (r: Option<nat>)
    requires WellFormed(a) && n < |a| && i <= |parts|
    ensures r.Some? ==> r.value < |a|
    decreases |parts| - i
  {
    if i == |parts| then Some(n)
    else
      var section := parts[i];
      var children := a[n].children;
      if section in children then ExactNode(a, children[section], parts, i + 1)
      else if KindOf(section) == Param && Placeholder in children then ExactNode(a, children[Placeholder], parts, i + 1)
      else None
  }

  /** One turn of the loop in `findExactNode`. */
  lemma ExactNodeStep(a: Arena, n: nat, parts: seq<string>, i: nat)
    requires WellFormed(a) && n < |a| && i < |parts|
    ensures var c := a[n].children;
      parts[i] in c ==> c[parts[i]] < |a| && ExactNode(a, n, parts, i) == ExactNode(a, c[parts[i]], parts, i + 1)
    ensures var c := a[n].children;
      parts[i] !in c && KindOf(parts[i]) == Param && Placeholder in c ==>
        c[Placeholder] < |a| && ExactNode(a, n, parts, i) == ExactNode(a, c[Placeholder], parts, i + 1)
    ensures var c := a[n].children;
      parts[i] !in c && !(KindOf(parts[i]) == Param && Placeholder in c) ==> ExactNode(a, n, parts, i) == None
  {
  }

  /** `findExactNode(node, path)`. */
  method FindExactNode(a: Arena, start: nat, path: string) returns (r: Option<nat>)
    requires WellFormed(a) && start < |a|
    ensures r == ExactNode(a, start, Split(path), 0)
  {
    var parts := Split(path);
    var node: nat := start;
    ghost var target := ExactNode(a, start, parts, 0);
    for i := 0 to |parts|
      invariant node < |a| && target == ExactNode(a, node, parts, i)
    {
      var section := parts[i];
      var children := a[node].children;
      ExactNodeStep(a, node, parts, i);
      if section in children {
        node := children[section];
      } else if KindOf(section) == Param && Placeholder in children {
        node := children[Placeholder];
      } else {
        return None;
      }
      assert target == ExactNode(a, node, parts, i + 1);
    }
    r := Some(node);
  }

  // ---------------------------------------------------------------------
  // What a pattern means, and what the resolver promises about it.

  /** The meaning of a pattern, read from its last section backwards: a
      literal section matches exactly that segment, `:` any one segment and
      `*` one or more segments. */
  ghost predicate GlobMatch(pattern: seq<string>, parts: seq<string>)
    decreases |pattern| + |parts|
  {
    if pattern == [] then parts == []
    else if parts == [] then false
    else
      var last := pattern[|pattern| - 1];
      var init := pattern[..|pattern| - 1];
      var front := parts[..|parts| - 1];
      if last == Wildcard then GlobMatch(init, front) || GlobMatch(pattern, front)
      else (last == Placeholder || last == parts[|parts| - 1]) && GlobMatch(init, front)
  }

  /** Every pattern matches its own sections. */
  lemma {:induction false} GlobMatchSelf(pattern: seq<string>)
    ensures GlobMatch(pattern, pattern)
    decreases |pattern|
  {
    if pattern != [] {
      GlobMatchSelf(pattern[..|pattern| - 1]);
    }
  }

  lemma ExtendMatch(pattern: seq<string>, parts: seq<string>, key: string, part: string)
    requires GlobMatch(pattern, parts)
    requires key == Wildcard || key == Placeholder || key == part
    ensures GlobMatch(pattern + [key], parts + [part])
  {
    assert (pattern + [key])[..|pattern|] == pattern;
    assert (parts + [part])[..|parts|] == parts;
  }

  lemma StarExtend(pattern: seq<string>, parts: seq<string>, part: string)
    requires pattern != [] && pattern[|pattern| - 1] == Wildcard
    requires GlobMatch(pattern, parts)
    ensures GlobMatch(pattern, parts + [part])
  {
    assert (parts + [part])[..|parts|] == parts;
  }

  /** Every section consumes at least one segment, so the pattern without
      its last section matches a proper prefix of the segments. */
  lemma {:induction false} DropLast(pattern: seq<string>, key: string, parts: seq<string>) returns (j: nat)
    requires GlobMatch(pattern + [key], parts)
    ensures j < |parts| && GlobMatch(pattern, parts[..j])
    ensures key != Wildcard ==> j == |parts| - 1
    decreases |parts|
  {
    var whole := pattern + [key];
    assert whole[..|whole| - 1] == pattern;
    var front := parts[..|parts| - 1];
    if key == Wildcard && !GlobMatch(pattern, front) {
      j := DropLast(pattern, key, front);
      assert front[..j] == parts[..j];
    } else {
      j := |parts| - 1;
    }
  }

  /** A `*` appended to a pattern absorbs whatever non-empty rest follows a match. */
  lemma {:induction false} StarAbsorbs(pattern: seq<string>, parts: seq<string>, j: nat)
    requires j < |parts| && GlobMatch(pattern, parts[..j])
    ensures GlobMatch(pattern + [Wildcard], parts)
    decreases |parts|
  {
    var whole := pattern + [Wildcard];
    assert whole[..|whole| - 1] == pattern;
    var front := parts[..|parts| - 1];
    if j < |parts| - 1 {
      assert front[..j] == parts[..j];
      StarAbsorbs(pattern, front, j);
    } else {
      assert front == parts[..j];
    }
  }

  /** Every step of the descent keeps the segments consumed so far matched
      by the pattern of the node reached. */
  lemma {:induction false} DescentSound(a: Arena, n: nat, parts: seq<string>, i: nat, params: Params)
    requires WellFormed(a) && n < |a| && i <= |parts|
    requires GlobMatch(Sections(a, n), parts[..i])
    ensures var d := Descent(a, n, parts, i, params); GlobMatch(Sections(a, d.node), parts[..d.index])
    decreases |parts| - i
  {
    if i < |parts| {
      var section := parts[i];
      var children := a[n].children;
      var consumed := parts[..i];
      assert parts[..i + 1] == consumed + [section];
      DescentStep(a, n, parts, i, params);
      if section in children {
        var c := children[section];
        assert GlobMatch(Sections(a, c), parts[..i + 1]) by {
          ChildSections(a, n, section);
          ExtendMatch(Sections(a, n), consumed, section, section);
        }
        DescentSound(a, c, parts, i + 1, params);
      } else if Placeholder in children {
        var c := children[Placeholder];
        assert GlobMatch(Sections(a, c), parts[..i + 1]) by {
          ChildSections(a, n, Placeholder);
          ExtendMatch(Sections(a, n), consumed, Placeholder, section);
        }
        DescentSound(a, c, parts, i + 1, params[ParamKey(a[c]) := section]);
      } else if Wildcard in children {
        var c := children[Wildcard];
        assert GlobMatch(Sections(a, c), parts[..i + 1]) by {
          ChildSections(a, n, Wildcard);
          ExtendMatch(Sections(a, n), consumed, Wildcard, section);
        }
        DescentSound(a, c, parts, i + 1, params);
      } else if a[n].section == Some(Wildcard) {
        assert GlobMatch(Sections(a, n), parts[..i + 1]) by {
          assert n != Root;
          StarExtend(Sections(a, n), consumed, section);
        }
        DescentSound(a, n, parts, i + 1, params);
      }
    }
  }

  /** A wildcard node whose parent also has a placeholder slot. */
  ghost predicate BesidePlaceholder(a: Arena, n: nat)
    requires WellFormed(a) && n < |a|
  {
    n != Root && a[n].section == Some(Wildcard) && Placeholder in a[a[n].parent.value].children
  }

  /** Without a literal `*` segment the descent enters a wildcard node only
      through the wildcard branch, which is tried after the placeholder slot. */
  lemma {:induction false} DescentNotBesidePlaceholder(a: Arena, n: nat, parts: seq<string>, i: nat, params: Params)
    requires WellFormed(a) && n < |a| && i <= |parts|
    requires forall j :: i <= j < |parts| ==> parts[j] != Wildcard
    requires !BesidePlaceholder(a, n)
    ensures !BesidePlaceholder(a, Descent(a, n, parts, i, params).node)
    decreases |parts| - i
  {
    if i < |parts| {
      var section := parts[i];
      var children := a[n].children;
      if section in children {
        assert section != Wildcard && a[children[section]].section == Some(section);
        DescentNotBesidePlaceholder(a, children[section], parts, i + 1, params);
      } else if Placeholder in children {
        var p := children[Placeholder];
        assert a[p].section == Some(Placeholder);
        DescentNotBesidePlaceholder(a, p, parts, i + 1, params[ParamKey(a[p]) := section]);
      } else if Wildcard in children {
        assert a[children[Wildcard]].parent == Some(n);
        DescentNotBesidePlaceholder(a, children[Wildcard], parts, i + 1, params);
      } else if a[n].section == Some(Wildcard) {
        DescentNotBesidePlaceholder(a, n, parts, i + 1, params);
      }
    }
  }

  /** The wildcard fallback picks a node whose pattern matches all the segments. */
  lemma {:induction false} NearestWildcardSound(a: Arena, n: nat, parts: seq<string>, i: nat)
    requires WellFormed(a) && n < |a| && i <= |parts|
    requires GlobMatch(Sections(a, n), parts[..i])
    ensures NearestWildcard(a, n).Some? ==> GlobMatch(Sections(a, NearestWildcard(a, n).value), parts)
    decreases n
  {
    if a[n].parent.Some? {
      var p := a[n].parent.value;
      var j := DropLast(Sections(a, p), a[n].section.value, parts[..i]);
      assert parts[..i][..j] == parts[..j];
      if Wildcard in a[p].children && a[a[p].children[Wildcard]].id.Some? {
        ChildSections(a, p, Wildcard);
        StarAbsorbs(Sections(a, p), parts, j);
      } else {
        NearestWildcardSound(a, p, parts, j);
      }
    }
  }

  /** The placeholder fallback: once all segments are consumed on a node
      that is not a wildcard, its placeholder sibling matches them too. */
  lemma PlaceholderFallbackSound(a: Arena, n: nat, parts: seq<string>)
    requires WellFormed(a) && n < |a| && n != Root
    requires GlobMatch(Sections(a, n), parts) && !BesidePlaceholder(a, n)
    requires Placeholder in a[a[n].parent.value].children
    ensures GlobMatch(Sections(a, a[a[n].parent.value].children[Placeholder]), parts)
  {
    var p := a[n].parent.value;
    var key := a[n].section.value;
    assert key != Wildcard;
    assert Sections(a, n) == Sections(a, p) + [key];
    PlaceholderForLast(Sections(a, p), key, parts);
    ChildSections(a, p, Placeholder);
  }

  /** A last section that is not `*` consumes exactly one segment, which `:` matches too. */
  lemma PlaceholderForLast(front: seq<string>, key: string, parts: seq<string>)
    requires key != Wildcard && GlobMatch(front + [key], parts)
    ensures GlobMatch(front + [Placeholder], parts)
  {
    var j := DropLast(front, key, parts);
    ExtendMatch(front, parts[..j], Placeholder, parts[j]);
    assert parts[..j] + [parts[j]] == parts;
  }

  /** Soundness of `findNode`: a node it returns holds an id and its pattern
      matches the path, provided no segment of the path is literally `*`. */
  lemma ResolutionSound(a: Arena, path: string)
    requires WellFormed(a)
    requires forall j :: 0 <= j < |Split(path)| ==> Split(path)[j] != Wildcard
    ensures var r := Resolution(a, path);
      r.Some? ==> r.value.node != Root && a[r.value.node].id.Some? && GlobMatch(Sections(a, r.value.node), Split(path))
  {
    var parts := Split(path);
    var down := Descent(a, Root, parts, 0, map[]);
    var n := down.node;
    assert parts[..0] == [];
    DescentSound(a, Root, parts, 0, map[]);
    DescentNotBesidePlaceholder(a, Root, parts, 0, map[]);
    assert down.didMatch ==> parts[..down.index] == parts;
    var r := Resolution(a, path);
    if r.Some? {
      var w := r.value.node;
      if down.didMatch && a[n].id.Some? {
        assert w == n;
      } else if down.index == |parts| && a[n].parent.Some? && Placeholder in a[a[n].parent.value].children
         && a[a[a[n].parent.value].children[Placeholder]].id.Some? {
        assert w == a[a[n].parent.value].children[Placeholder];
        PlaceholderFallbackSound(a, n, parts);
      } else {
        assert r == Some(Found(NearestWildcard(a, n).value, None));
        NearestWildcardSound(a, n, parts, down.index);
      }
      assert Sections(a, Root) == [];
    }
  }

  /** Walking the slots of a pattern: the descent follows the same nodes
      (a placeholder token is not an exact key, so it takes the placeholder
      slot); it captures only placeholder tokens, and nothing when there are none. */
  lemma {:induction false} DescentAlongWalk(a: Arena, n: nat, parts: seq<string>, i: nat, params: Params)
    requires WellFormed(a) && n < |a| && i <= |parts|
    requires Walk(a, n, parts[i..]).Some?
    ensures var d := Descent(a, n, parts, i, params); d.didMatch && d.node == Walk(a, n, parts[i..]).value
    ensures var d := Descent(a, n, parts, i, params);
      forall k :: k in d.params ==> (k in params && d.params[k] == params[k]) || KindOf(d.params[k]) == Param
    ensures (forall j :: i <= j < |parts| ==> KindOf(parts[j]) != Param) ==> Descent(a, n, parts, i, params).params == params
    decreases |parts| - i
  {
    if i < |parts| {
      var section := parts[i];
      var key := SlotKey(section);
      var children := a[n].children;
      assert parts[i..][1..] == parts[i + 1..];
      assert key in children;
      if section in children {
        assert section == key;
        DescentAlongWalk(a, children[section], parts, i + 1, params);
      } else {
        assert KindOf(section) == Param;
        var p := children[Placeholder];
        DescentAlongWalk(a, p, parts, i + 1, params[ParamKey(a[p]) := section]);
      }
    }
  }

  /** `findExactNode` is the walk along the slots of the tokens. */
  lemma {:induction false} ExactNodeIsWalk(a: Arena, n: nat, parts: seq<string>, i: nat)
    requires WellFormed(a) && n < |a| && i <= |parts|
    ensures ExactNode(a, n, parts, i) == Walk(a, n, parts[i..])
    decreases |parts| - i
  {
    if i < |parts| {
      var section := parts[i];
      var children := a[n].children;
      assert parts[i..][1..] == parts[i + 1..];
      if section in children {
        assert SlotKey(section) == section;
        ExactNodeIsWalk(a, children[section], parts, i + 1);
      } else if KindOf(section) == Param && Placeholder in children {
        ExactNodeIsWalk(a, children[Placeholder], parts, i + 1);
      }
    }
  }

  // ---------------------------------------------------------------------
  // what the descent captures

  /** `k` is the name of a placeholder node on the way from `n` (exclusive) down to `m`. */
  ghost predicate CapturedBelow(a: Arena, n: nat, m: nat, k: string)
    requires WellFormed(a) && m < |a|
  {
    exists c: nat :: c < |a| && Above(a, n, c) && c != n && Above(a, c, m) && a[c].section == Some(Placeholder) && ParamKey(a[c]) == k
  }

  /** The captures of a descent from `n` at segment `i` that ended in `d`:
      it ends below `n`, and each entry is either one it started with or the
      value of a consumed segment under the name of a placeholder node it entered. */
  ghost predicate CapturesFrom(a: Arena, n: nat, parts: seq<string>, i: nat, params: Params, d: Down)
    requires WellFormed(a) && d.node < |a| && i <= d.index <= |parts|
  {
    && Above(a, n, d.node)
    && forall k :: k in d.params ==>
         (k in params && d.params[k] == params[k]) || (d.params[k] in parts[i..d.index] && CapturedBelow(a, n, d.node, k))
  }

  /** A capture below a descendant of `n` is a capture below `n`. */
  lemma CapturedLift(a: Arena, n: nat, c0: nat, m: nat, k: string)
    requires WellFormed(a) && c0 < |a| && m < |a| && Above(a, n, c0) && CapturedBelow(a, c0, m, k)
    ensures CapturedBelow(a, n, m, k)
  {
    var c: nat :| c < |a| && Above(a, c0, c) && c != c0 && Above(a, c, m) && a[c].section == Some(Placeholder) && ParamKey(a[c]) == k;
    AboveTransitive(a, n, c0, c);
    AboveOrder(a, n, c0);
    AboveOrder(a, c0, c);
  }

  lemma InLongerSlice(parts: seq<string>, i: nat, e: nat, v: string)
    requires i < e <= |parts| && v in parts[i + 1..e]
    ensures v in parts[i..e]
  {
    assert parts[i..e] == [parts[i]] + parts[i + 1..e];
  }

  /** The captures of the rest of a descent that continued at `c0`, below `n`,
      after consuming segment `i`. */
  lemma CapturesLift(a: Arena, n: nat, c0: nat, parts: seq<string>, i: nat, inner: Params, d: Down)
    requires WellFormed(a) && c0 < |a| && d.node < |a| && i < d.index <= |parts|
    requires Above(a, n, c0) && CapturesFrom(a, c0, parts, i + 1, inner, d)
    ensures Above(a, n, d.node)
    ensures forall k :: k in d.params && !(k in inner && d.params[k] == inner[k]) ==>
      d.params[k] in parts[i..d.index] && CapturedBelow(a, n, d.node, k)
  {
    AboveTransitive(a, n, c0, d.node);
    forall k | k in d.params && !(k in inner && d.params[k] == inner[k])
      ensures d.params[k] in parts[i..d.index] && CapturedBelow(a, n, d.node, k)
    {
      CapturedLift(a, n, c0, d.node, k);
      InLongerSlice(parts, i, d.index, d.params[k]);
    }
  }

  /** Entering the placeholder child of `n` captures segment `i` under its name. */
  lemma CapturesEnter(a: Arena, n: nat, parts: seq<string>, i: nat, params: Params, d: Down)
    requires WellFormed(a) && n < |a| && Placeholder in a[n].children
    requires d.node < |a| && i < d.index <= |parts|
    requires var p := a[n].children[Placeholder];
      CapturesFrom(a, p, parts, i + 1, params[ParamKey(a[p]) := parts[i]], d)
    ensures CapturesFrom(a, n, parts, i, params, d)
  {
    var p := a[n].children[Placeholder];
    var inner := params[ParamKey(a[p]) := parts[i]];
    AboveChild(a, n, Placeholder);
    CapturesLift(a, n, p, parts, i, inner, d);
    assert a[p].section == Some(Placeholder);
    assert parts[i] == parts[i..d.index][0];
    assert CapturedBelow(a, n, d.node, ParamKey(a[p]));
  }

  /** `findNodeDown` only captures segments it consumed, under the names of
      placeholder nodes on the way down to the node it stops at. */
  lemma {:induction false} DescentCaptures(a: Arena, n: nat, parts: seq<string>, i: nat, params: Params)
    requires WellFormed(a) && n < |a| && i <= |parts|
    ensures CapturesFrom(a, n, parts, i, params, Descent(a, n, parts, i, params))
    decreases |parts| - i
  {
    var d := Descent(a, n, parts, i, params);
    if i < |parts| {
      var section := parts[i];
      var children := a[n].children;
      DescentStep(a, n, parts, i, params);
      if section in children {
        AboveChild(a, n, section);
        DescentCaptures(a, children[section], parts, i + 1, params);
        CapturesLift(a, n, children[section], parts, i, params, d);
      } else if Placeholder in children {
        var p := children[Placeholder];
        var inner := params[ParamKey(a[p]) := section];
        DescentCaptures(a, p, parts, i + 1, inner);
        CapturesEnter(a, n, parts, i, params, d);
      } else if Wildcard in children {
        AboveChild(a, n, Wildcard);
        DescentCaptures(a, children[Wildcard], parts, i + 1, params);
        CapturesLift(a, n, children[Wildcard], parts, i, params, d);
      } else if a[n].section == Some(Wildcard) {
        DescentCaptures(a, n, parts, i + 1, params);
        CapturesLift(a, n, n, parts, i, params, d);
      }
    }
  }

  lemma InSlice(parts: seq<string>, i: nat, e: nat, v: string)
    requires i <= e <= |parts| && v in parts[i..e]
    ensures v in parts
  {
    var t :| 0 <= t < e - i && parts[i..e][t] == v;
    assert parts[i + t] == v;
  }

  /** The parameters `findNode` reports are segments of the path, each under
      the name of a placeholder node on the way from the root to the node it returns. */
  lemma ResolutionCaptures(a: Arena, path: string)
    requires WellFormed(a)
    ensures var r := Resolution(a, path);
      r.Some? && r.value.params.Some? ==>
        forall k :: k in r.value.params.value ==>
          r.value.params.value[k] in Split(path) && CapturedBelow(a, Root, r.value.node, k)
  {
    var parts := Split(path);
    var down := Descent(a, Root, parts, 0, map[]);
    var r := Resolution(a, path);
    if r.Some? && r.value.params.Some? {
      if down.didMatch && a[down.node].id.Some? {
        DescentCaptures(a, Root, parts, 0, map[]);
        forall k | k in down.params
          ensures down.params[k] in parts
        {
          InSlice(parts, 0, down.index, down.params[k]);
        }
      } else {
        var q := a[down.node].parent.value;
        var sibling := a[q].children[Placeholder];
        assert r.value == Found(sibling, Some(map[ParamKey(a[sibling]) := parts[down.index - 1]]));
        AboveChild(a, q, Placeholder);
        RootAbove(a, sibling);
        assert a[sibling].section == Some(Placeholder) && Above(a, sibling, sibling);
        assert CapturedBelow(a, Root, sibling, ParamKey(a[sibling]));
      }
    }
  }
}
