/** The trie's nodes, kept in an arena: a node is addressed by its index, its
    `children` map a slot key to a child's index and `parent` is the index of
    the node that created it. Entries are never freed, so a node detached by
    `remove` keeps its fields and can still be reached through the static index. */
module Nodes {
  import opened Wrappers
  import opened Paths

  /** A route identifier: what `uuid5` returns, and the root's `'root'`. It is
      never the empty string, so JavaScript's truthiness test on `node.id`
      is the same as `id.Some?`. */
  type Id = s: string | s != "" witness "root"

  const RootId: Id := "root"

  /** `createNode(id, section, parent, paramName)`; `None` stands for `undefined`. */
  datatype Node = Node(
    id: Option<Id>,
    section: Option<string>,
    parent: Option<nat>,
    paramName: Option<string>,
    children: map<string, nat>)

  type Arena = seq<Node>

  const Root: nat := 0

  /** `createNode('root')`. */
  const RootNode: Node := CreateNode(Some(RootId), None, None, None)

  /** `createNode`: a node with the given fields and no children yet. */
  function CreateNode(id: Option<Id>, section: Option<string>, parent: Option<nat>, paramName: Option<string>): (r: Node)
    ensures r.id == id && r.section == section && r.parent == parent && r.paramName == paramName
    ensures |r.children| == 0
  {
    Node(id, section, parent, paramName, map[])
  }

  ghost predicate SubMap(m: map<string, nat>, m': map<string, nat>)
  {
    forall k :: k in m ==> k in m' && m'[k] == m[k]
  }

  /** Every node but the root was created below an older node, with a section. */
  ghost predicate ParentsBelow(a: Arena)
  {
    forall i :: 0 < i < |a| ==> a[i].parent.Some? && a[i].parent.value < i && a[i].section.Some?
  }

  /** A child is younger than its holder, points back at it and has the slot key as its section. */
  ghost predicate ChildrenLinked(a: Arena)
  {
    forall i, k :: 0 <= i < |a| && k in a[i].children ==>
      i < a[i].children[k] < |a| &&
      a[a[i].children[k]].parent == Some(i) &&
      a[a[i].children[k]].section == Some(k)
  }

  /** The only key that looks like a placeholder is the placeholder slot itself. */
  ghost predicate KeysShaped(a: Arena)
  {
    forall i, k :: 0 <= i < |a| && k in a[i].children && KindOf(k) == Param ==> k == Placeholder
  }

  ghost predicate WellFormed(a: Arena)
  {
    && |a| >= 1
    && a[Root].parent == None
    && a[Root].section == None
    && ParentsBelow(a)
    && ChildrenLinked(a)
    && KeysShaped(a)
  }

  /** The slot keys from the root down to `n`, read off the parent links. */
  ghost function Sections(a: Arena, n: nat): seq<string>
    requires WellFormed(a) && n < |a|
    decreases n
  {
    if n == Root then [] else Sections(a, a[n].parent.value) + [a[n].section.value]
  }

  /** The node reached from `n` by following the slot of each segment in turn. */
  ghost function Walk(a: Arena, n: nat, segments: seq<string>): (r: Option<nat>)
    requires WellFormed(a) && n < |a|
    ensures r.Some? ==> r.value < |a|
    decreases |segments|
  {
    if segments == [] then Some(n)
    else
      var key := SlotKey(segments[0]);
      if key in a[n].children then Walk(a, a[n].children[key], segments[1..]) else None
  }

  /** `n` hangs in the trie: it is the root, or its parent still holds it
      under its section and the parent hangs in the trie. */
  ghost predicate Attached(a: Arena, n: nat)
    requires WellFormed(a) && n < |a|
    decreases n
  {
    n == Root ||
      (var p := a[n].parent.value; var key := a[n].section.value;
       key in a[p].children && a[p].children[key] == n && Attached(a, p))
  }

  /** `c` is `m` or one of its ancestors. */
  ghost predicate Above(a: Arena, c: nat, m: nat)
    requires WellFormed(a) && m < |a|
    decreases m
  {
    c == m || (m != Root && Above(a, c, a[m].parent.value))
  }

  /** `b` grows `a`: nodes are appended and keys added, nothing else changes. */
  ghost predicate Extends(a: Arena, b: Arena)
  {
    && |a| <= |b|
    && forall i :: 0 <= i < |a| ==>
      && b[i].id == a[i].id
      && b[i].section == a[i].section
      && b[i].parent == a[i].parent
      && b[i].paramName == a[i].paramName
      && SubMap(a[i].children, b[i].children)
  }

  /** `b` shrinks `a`: keys are removed and ids cleared, nothing else changes. */
  ghost predicate Shrinks(a: Arena, b: Arena)
  {
    && |a| == |b|
    && forall i :: 0 <= i < |a| ==>
      && (b[i].id == a[i].id || b[i].id == None)
      && b[i].section == a[i].section
      && b[i].parent == a[i].parent
      && b[i].paramName == a[i].paramName
      && SubMap(b[i].children, a[i].children)
  }

  lemma ExtendsTransitive(a: Arena, b: Arena, c: Arena)
    requires Extends(a, b) && Extends(b, c)
    ensures Extends(a, c)
  {
  }

  lemma ShrinksTransitive(a: Arena, b: Arena, c: Arena)
    requires Shrinks(a, b) && Shrinks(b, c)
    ensures Shrinks(a, c)
  {
  }

  /** A child's sections are its holder's followed by its slot key. */
  lemma ChildSections(a: Arena, n: nat, key: string)
    requires WellFormed(a) && n < |a| && key in a[n].children
    ensures Sections(a, a[n].children[key]) == Sections(a, n) + [key]
  {
    var c := a[n].children[key];
    assert n < c && a[c].parent == Some(n) && a[c].section == Some(key);
  }

  /** Walking the slots of `segments` from `n` spells out their slot keys below `n`. */
  lemma {:induction false} WalkSections(a: Arena, n: nat, segments: seq<string>)
    requires WellFormed(a) && n < |a| && Walk(a, n, segments).Some?
    ensures Sections(a, Walk(a, n, segments).value) == Sections(a, n) + SlotKeys(segments)
    decreases |segments|
  {
    if segments != [] {
      var key := SlotKey(segments[0]);
      var c := a[n].children[key];
      var rest := segments[1..];
      assert Walk(a, n, segments) == Walk(a, c, rest);
      ChildSections(a, n, key);
      WalkSections(a, c, rest);
      assert SlotKeys(segments) == [key] + SlotKeys(rest);
      AppendAssoc(Sections(a, n), [key], SlotKeys(rest));
    }
  }

  lemma AppendAssoc(x: seq<string>, y: seq<string>, z: seq<string>)
    ensures (x + y) + z == x + (y + z)
  {
  }

  /** Growing the arena keeps every walk that already succeeded. */
  lemma {:induction false} WalkExtends(a: Arena, b: Arena, n: nat, segments: seq<string>)
    requires WellFormed(a) && WellFormed(b) && Extends(a, b) && n < |a|
    requires Walk(a, n, segments).Some?
    ensures Walk(b, n, segments) == Walk(a, n, segments)
    decreases |segments|
  {
    if segments != [] {
      var key := SlotKey(segments[0]);
      assert SubMap(a[n].children, b[n].children);
      WalkExtends(a, b, a[n].children[key], segments[1..]);
    }
  }

  /** Growing the arena keeps the sections of the old nodes. */
  lemma {:induction false} SectionsExtends(a: Arena, b: Arena, n: nat)
    requires WellFormed(a) && WellFormed(b) && Extends(a, b) && n < |a|
    ensures Sections(b, n) == Sections(a, n)
    decreases n
  {
    if n != Root {
      SectionsExtends(a, b, a[n].parent.value);
    }
  }

  /** Shrinking the arena keeps the sections of every node. */
  lemma {:induction false} SectionsShrinks(a: Arena, b: Arena, n: nat)
    requires WellFormed(a) && WellFormed(b) && Shrinks(a, b) && n < |a|
    ensures Sections(b, n) == Sections(a, n)
    decreases n
  {
    if n != Root {
      SectionsShrinks(a, b, a[n].parent.value);
    }
  }

  /** Every step of a walk goes to a child, and children sit after their holder. */
  lemma {:induction false} WalkAdvances(a: Arena, n: nat, segments: seq<string>)
    requires WellFormed(a) && n < |a| && segments != [] && Walk(a, n, segments).Some?
    ensures n < Walk(a, n, segments).value
    decreases |segments|
  {
    var c := a[n].children[SlotKey(segments[0])];
    if segments[1..] != [] {
      WalkAdvances(a, c, segments[1..]);
    }
  }

  /** A walk that succeeds after shrinking succeeded before, at the same node. */
  lemma {:induction false} WalkShrinks(a: Arena, b: Arena, n: nat, segments: seq<string>)
    requires WellFormed(a) && WellFormed(b) && Shrinks(a, b) && n < |a|
    requires Walk(b, n, segments).Some?
    ensures Walk(a, n, segments) == Walk(b, n, segments)
    decreases |segments|
  {
    if segments != [] {
      var key := SlotKey(segments[0]);
      assert SubMap(b[n].children, a[n].children);
      WalkShrinks(a, b, b[n].children[key], segments[1..]);
    }
  }

  /** The node a walk reaches hangs in its parent under its own section. */
  lemma {:induction false} WalkLastStep(a: Arena, n: nat, segments: seq<string>)
    requires WellFormed(a) && n < |a| && segments != [] && Walk(a, n, segments).Some?
    ensures var m := Walk(a, n, segments).value;
      && a[m].parent.Some? && a[m].section.Some? && a[m].parent.value < |a|
      && a[m].section.value in a[a[m].parent.value].children
      && a[a[m].parent.value].children[a[m].section.value] == m
    decreases |segments|
  {
    var key := SlotKey(segments[0]);
    var c := a[n].children[key];
    if segments[1..] != [] {
      WalkLastStep(a, c, segments[1..]);
    } else {
      assert n < c && a[c].parent == Some(n) && a[c].section == Some(key);
    }
  }

  /** A walk only looks at the slot keys of its segments. */
  lemma {:induction false} WalkBySlots(a: Arena, n: nat, segments: seq<string>, others: seq<string>)
    requires WellFormed(a) && n < |a| && SlotKeys(segments) == SlotKeys(others)
    ensures Walk(a, n, segments) == Walk(a, n, others)
    decreases |segments|
  {
    if segments != [] {
      assert SlotKey(segments[0]) == SlotKeys(segments)[0] && SlotKey(others[0]) == SlotKeys(others)[0];
      assert SlotKeys(segments[1..]) == SlotKeys(segments)[1..] && SlotKeys(others[1..]) == SlotKeys(others)[1..];
      var key := SlotKey(segments[0]);
      if key in a[n].children {
        WalkBySlots(a, a[n].children[key], segments[1..], others[1..]);
      }
    }
  }

  /** Every node a walk from a hanging node reaches hangs as well. */
  lemma {:induction false} WalkAttached(a: Arena, n: nat, segments: seq<string>)
    requires WellFormed(a) && n < |a| && Attached(a, n) && Walk(a, n, segments).Some?
    ensures Attached(a, Walk(a, n, segments).value)
    decreases |segments|
  {
    if segments != [] {
      var c := a[n].children[SlotKey(segments[0])];
      assert a[c].parent == Some(n) && a[c].section == Some(SlotKey(segments[0]));
      WalkAttached(a, c, segments[1..]);
    }
  }

  /** An ancestor is older than its descendants. */
  lemma {:induction false} AboveOrder(a: Arena, c: nat, m: nat)
    requires WellFormed(a) && m < |a|
    ensures Above(a, c, m) ==> c <= m
    decreases m
  {
    if c != m && m != Root {
      AboveOrder(a, c, a[m].parent.value);
    }
  }

  lemma {:induction false} AboveTransitive(a: Arena, x: nat, y: nat, z: nat)
    requires WellFormed(a) && y < |a| && z < |a| && Above(a, x, y) && Above(a, y, z)
    ensures Above(a, x, z)
    decreases z
  {
    if y != z {
      AboveTransitive(a, x, y, a[z].parent.value);
    }
  }

  /** The root is above every node. */
  lemma {:induction false} RootAbove(a: Arena, m: nat)
    requires WellFormed(a) && m < |a|
    ensures Above(a, Root, m)
    decreases m
  {
    if m != Root {
      RootAbove(a, a[m].parent.value);
    }
  }

  /** A node is above each of its children. */
  lemma AboveChild(a: Arena, n: nat, key: string)
    requires WellFormed(a) && n < |a| && key in a[n].children
    ensures Above(a, n, a[n].children[key]) && n < a[n].children[key]
  {
    var c := a[n].children[key];
    assert a[c].parent == Some(n);
  }
}
