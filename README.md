# Path-pattern trie of matter-in-motion/transport

A model of `tree.js`, the route tree that maps `/`-separated paths to route ids.

A pattern is split at every `/`, and each segment becomes one level of a prefix tree. There are three kinds of segment:

- a literal, stored under its own text;
- `:name`, a placeholder, stored in the single `:` slot of its parent, which captures one segment;
- `*`, a wildcard, stored in the single `*` slot, which consumes one or more segments.

The terminal node of a pattern holds its id: the hash of the raw pattern. Patterns without placeholders or wildcards are also kept in a static index from the normalised pattern to its node.

The `Tree` class has these operations:

- `get` resolves a concrete path to `{id, params}`. It tries the static index first. Then it descends with the priority exact, placeholder, wildcard, stay-on-wildcard. If that fails, it falls back to a placeholder sibling or the nearest ancestor's wildcard.
- `add` inserts a pattern.
- `remove` deletes a pattern and prunes childless nodes upwards.
- `id` looks up the exact token, without normalisation.
- `clear` resets the tree.

Layout:

- `wrappers.dfy` (`Wrappers`): `Option` and `Result`.
- `paths.dfy` (`Paths`): `validatePath`, `split('/')` as `Split`, and the segment kinds.
- `nodes.dfy` (`Nodes`): the node record (`createNode`), and the arena of nodes.
  - Nodes are addressed by index; the root is index 0.
  - A node has a parent link and a map from slot key to child.
  - The arena's invariant: parents sit before children, every child link agrees with the child's `parent` and `section`, and a key beginning with `:` is exactly `:`.
  - It also defines the pattern of a node (`Sections`, its slot keys read off the parent links), the walk along slot keys (`Walk`), and the growth and shrink relations used as frames.
- `matcher.dfy` (`Matcher`): `findNodeDown`, `findNodeUp`, `findNode` and `findExactNode`.
  - Each is a method with the source's loop, proved equal to a recursive function of the same walk.
  - It also defines `GlobMatch`, what a pattern means: a literal matches itself, `:` one segment, `*` one or more.
  - It proves that resolution only answers with a node whose pattern matches the path, provided no segment of the path is literally `*`.
  - It also proves what resolution captures: each parameter is a segment of the path, recorded under the name of a placeholder node on the way down to the answer.
- `trie.dfy` (`Trie`): the state of a tree (arena and static index) and `add`, `remove`, `get`, `id`, `getChildNode` as functions of it, with their properties.
- `lifecycle.dfy` (`Lifecycle`): adding and removing patterns over the life of a tree. Every child link leads to an ancestor of the terminal node of a pattern still registered; `add` and `remove` keep that so. Hence removing every added pattern, in any order, leaves no link and no static route.
- `tree.dfy` (`PathTree`): the class `Tree`, whose fields the methods update in place. Every method is proved to produce exactly the state, or the answer, of the matching `Trie` function.

Modelling choices:

- Ids are non-empty strings, so JavaScript truthiness of an id is `Some?`.
- `uuid5` is the constructor parameter `hash`. The root's id is `"root"`.
- `undefined` and `null` results are `None` or `Missing`.
- An empty path is the error `MissingPath`.

## Model

| member | source | states |
|---|---|---|
| Paths.ValidatePath | tree.js:8-20 | An error exactly for the empty path. Otherwise it returns a non-empty prefix of the path. The path is unchanged in strict mode, for `/`, and when it does not end in `/`. Otherwise exactly the one trailing `/` is dropped. |
| Paths.TrailingSlashEquivalence | tree.js:14-17 | Outside strict mode, a path without a trailing `/` (or `/` itself) and the same path with one `/` appended normalise to the same path. |
| Paths.Split | tree.js:142 | Splitting at `/` gives at least one segment, and no segment contains `/`. |
| Paths.JoinSplit | tree.js:142 | Joining the segments of a path with `/` gives back the path, so splitting loses nothing, empty segments included. |
| Paths.SplitJoin | tree.js:142 | Splitting the `/`-join of slash-free segments gives back those segments. |
| Paths.SlotKeyKind | tree.js:32-60 | A segment is stored in the `:` or `*` slot exactly when it is not a literal; a literal is stored under its own text. |
| Paths.LiteralSlots | tree.js:214-221 | The static flag of `add` is true exactly when every segment is a literal, i.e. no slot on the path is `:` or `*`. |
| Nodes.CreateNode | tree.js:22-30 | The new node has exactly the given id, section, parent and parameter name, and no children. |
| Nodes.WalkSections | tree.js:32-60 | The node reached by following the slots of some segments has, as its pattern, the pattern of the start followed by those slots. |
| Nodes.WalkBySlots | tree.js:166-184 | Two segment lists with the same slot keys walk to the same node, so `:x` and `:y` are one pattern. |
| Matcher.Descent | tree.js:96-139 | The descent consumes a prefix of the segments. It reports a match exactly when it consumed them all, and consuming none leaves it on the start node. |
| Matcher.FindNodeDown | tree.js:96-139 | The source's `for` loop with `continue` and `break` computes exactly `Descent` from the start node with no captures, reporting an empty capture set as absent. |
| Matcher.DescentSound | tree.js:96-139 | When the descent starts from a node whose pattern matches the consumed segments, the stopping node's pattern matches every segment it consumed. |
| Matcher.DescentAlongWalk | tree.js:104-109 | Where the slots of the remaining segments lead to a node, the descent matches and ends exactly there. Along such a walk every capture it adds is a segment starting with `:`, and it adds none when no remaining segment starts with `:`. |
| Matcher.DescentCaptures | tree.js:96-139 | The descent ends at a descendant of its start. Each capture it adds is one of the segments it consumed, under the name of a placeholder node strictly below the start and on the way to the node it stops at. |
| Matcher.NearestWildcard | tree.js:76-88 | The upward search yields only a node that holds an id. |
| Matcher.NearestWildcardSound | tree.js:76-88 | If the start node's pattern matches a prefix of the segments, the wildcard node it yields has a pattern matching all of them. |
| Matcher.UpSearch | tree.js:62-94 | The fallback yields only a node holding an id. |
| Matcher.FindNodeUp | tree.js:62-94 | The source's `while` loop over parent links computes exactly `UpSearch`. |
| Matcher.PlaceholderFallbackSound | tree.js:63-73 | If descent ended on a node whose pattern matches the path, and it is not beside a placeholder, the placeholder sibling's pattern matches the path too. |
| Matcher.Resolution | tree.js:141-164 | The resolved node, if any, holds an id. |
| Matcher.FindNode | tree.js:141-164 | `findNode` computes exactly `Resolution`. |
| Matcher.ResolutionCaptures | tree.js:141-164 | Every parameter `findNode` reports is a segment of the path, under the name of a placeholder node between the root and the returned node; this covers the descent and the placeholder-sibling fallback. |
| Matcher.ResolutionSound | tree.js:141-164 | The resolved node is never the root, holds an id, and its pattern glob-matches the segments, provided no segment is literally `*`. |
| Matcher.ExactNode | tree.js:166-184 | The exact lookup yields a node of the arena or nothing. |
| Matcher.FindExactNode | tree.js:166-184 | The source's early-exit loop computes exactly `ExactNode` on the split path. |
| Matcher.ExactNodeIsWalk | tree.js:166-184 | Exact lookup is the walk along slot keys: `*` reaches the wildcard slot by its key, and any `:x` reaches the placeholder slot whatever its name. |
| Matcher.GlobMatchSelf | tree.js:196-201 | Every pattern matches its own sections, so a static-index hit is a matching pattern. |
| Trie.EmptyValid | tree.js:277-280 | The cleared tree satisfies the invariant. |
| Trie.Resolve | tree.js:196-208 | `get` is an error exactly for the empty path, and never throws on a non-empty one. |
| Trie.Attach | tree.js:22-60 | After one slot lookup-or-create, the slot holds a child whose section is the slot key, placed after the parent. The arena only grows and stays well formed. |
| Trie.Child | tree.js:32-60 | `getChildNode` stores the segment under its slot key and returns that child. An existing slot is reused unchanged, so the first `paramName` is kept. |
| Trie.Place | tree.js:213-234 | `add` on an already normalised path keeps the state valid, and the node it returns holds the new id. |
| Trie.AddPath | tree.js:214-223 | The loop of `add` leaves the slots of the segments leading from the start to the returned node. The node is below the start whenever there is a segment, and the arena only grows. |
| Trie.Insert | tree.js:210-235 | `add` is an error exactly for the empty path. Otherwise the state stays valid, with static keys being static paths whose node pattern is that path, and the returned node holds the new id. |
| Trie.PlaceWalks | tree.js:214-223 | The node `add` returns is reached by the slots of the normalised path, one level per segment (empty segments included), and its pattern is those slots. |
| Trie.PlaceReusesSlots | tree.js:32-60 | Adding a pattern whose slots already exist creates no node and only overwrites the terminal's id. |
| Trie.PlaceIdempotent | tree.js:210-235 | Adding the same normalised pattern a second time leaves the state and result unchanged. |
| Trie.InsertIdempotent | tree.js:210-235 | Adding the same raw pattern twice: the second add changes nothing. |
| Trie.PlaceStaticIndex | tree.js:214-232 | After `add`, the normalised pattern is in the static index, pointing at its node, exactly when no node on its path is in a `:` or `*` slot. |
| Trie.LookupAfterPlace | tree.js:264-275 | After `add`, `id` of the normalised pattern returns the new id. |
| Trie.ResolveAfterInsert | tree.js:196-208 | After `add`, `get` of the same raw path returns the new id. |
| Trie.PlacePreservesOthers | tree.js:210-235 | `add` leaves the `id` answer of every other registered pattern as it was, unless the two walk the same slots. |
| Trie.PlaceKeepsIds | tree.js:210-235 | `add` never makes `id` lose the id of a pattern it already answered with an id. |
| Trie.ResolveSound | tree.js:196-208 | An id that `get` returns belongs to a non-root node whose pattern glob-matches the normalised path, provided no segment is literally `*`. |
| Trie.ResolveCaptures | tree.js:196-208 | Every parameter `get` reports is a segment of the normalised path, and a hit in the static index reports no parameters. |
| Trie.ResolveTrailingSlash | tree.js:14-17 | Outside strict mode, `get` answers the same for a path with and without one trailing `/`. |
| Trie.Prune | tree.js:246-258 | The upward loop of `remove` keeps the arena well formed. It only removes keys and clears ids. |
| Trie.Delete | tree.js:237-262 | `remove` is an error exactly for the empty path, and otherwise keeps the state valid. |
| Trie.DeleteInnerNode | tree.js:247-251 | When the exact node of the removed pattern has children, `remove` only clears that node's id and drops the pattern from the static index; no other node changes. |
| Trie.DeleteReturnsLookup | tree.js:237-262 | For a pattern outside the static index, `remove` returns what `id` reported just before, with `null` for `undefined`. |
| Trie.PruneUnlinks | tree.js:246-258 | After pruning from a walk's node, either the walk no longer reaches any node, or it reaches the same node, which no longer holds an id. |
| Trie.DeleteForgets | tree.js:237-262 | After `remove`, `id` of the normalised pattern yields no id. |
| Trie.PruneKeeps | tree.js:246-258 | Pruning from a node that hangs in the trie keeps the id of every node whose pattern is not a prefix of the start's pattern, and every walk from the root to such a node. |
| Trie.DeleteKeepsOthers | tree.js:237-262 | `remove` leaves the `id` answer of every other pattern as it was, unless that pattern's slots are a prefix of the removed pattern's slots. |
| Trie.DeleteTwice | tree.js:237-262 | Removing the same pattern a second time returns `null`. |
| Trie.PruneClearsParent | tree.js:246-257 | Removing a leaf whose parent keeps other children detaches the leaf and clears the parent's id, as the loop is written. |
| Trie.PruneDetachesParent | tree.js:246-257 | Removing the only child of a parent also detaches that parent from its own parent, even if the parent holds an id, as the loop is written. |
| Trie.InsertThenDeleteEmpties | tree.js:237-262 | On a fresh tree, removing the one pattern just added returns its id. The root is left without children and the static index empty; `Lifecycle.RemoveAllEmpties` states the emptiness for any list of patterns. |
| Lifecycle.PlaceOwned | tree.js:210-235 | `add` keeps every child link leading to an ancestor of a registered pattern's terminal node, with the new pattern added to the registered ones; it adds no static route but its own. |
| Lifecycle.PruneOwned | tree.js:246-258 | Started where every link is kept alive by a registered pattern or leads to an ancestor of the start node, the upward loop of `remove` ends with every link kept alive by a registered pattern. |
| Lifecycle.DeleteOwned | tree.js:237-262 | After `remove`, every child link is kept alive by a pattern other than the removed one, and the static index has lost exactly the removed pattern. |
| Lifecycle.DeleteAll | tree.js:237-262 | Calling `remove` on a list of non-empty paths in order keeps the state valid. |
| Lifecycle.InsertAllOwned | tree.js:187-194 | After the constructor, every child link is kept alive by one of the added patterns, and every static route is one of them. |
| Lifecycle.DeleteAllOwned | tree.js:237-262 | If every link and static route is owned by a set of registered patterns, then after removing a list of paths they are owned by that set minus the paths' normalised forms. |
| Lifecycle.RemoveAllEmpties | test/tree.js:152-205 | Adding any routes and then removing a list of paths covering all of them, in any order and with other paths in between, leaves the root and every other node without children and the static index empty. |
| PathTree.InsertAll | tree.js:187-194 | Adding the constructor's routes in order yields a valid state. |
| PathTree.InsertAllRegisters | tree.js:190-192 | After construction, `id` answers with an id for the normalised form of every route given. |
| PathTree.Tree.constructor | tree.js:187-194 | The new tree is valid and holds exactly the routes added in order. |
| PathTree.Tree.Clear | tree.js:277-280 | The tree becomes a fresh root with an empty static index. |
| PathTree.Tree.Get | tree.js:196-208 | Answers exactly `Trie.Resolve` on the current state. |
| PathTree.Tree.GetChildNode | tree.js:32-60 | Updates the arena in place to exactly `Trie.Child` and leaves the static index alone. |
| PathTree.Tree.Add | tree.js:210-235 | Hashes the raw path, then changes the tree to exactly the state of `Trie.Insert` and returns its node. It is an error for the empty path, leaving the tree unchanged. |
| PathTree.Tree.AddBranch | tree.js:213-223 | The `forEach` loop of `add` changes the arena in place to exactly the arena and node of `Trie.AddPath` from the root. The static flag ends true exactly when every segment is a literal, and the static index is left alone. |
| PathTree.Tree.Remove | tree.js:237-262 | Changes the tree to exactly the state of `Trie.Delete` and returns its answer. It is an error for the empty path, leaving the tree unchanged. |
| Trie.IdOf | tree.js:264-275 | Off the static index, `id` answers exactly when the slots of the token's segments lead from the root to a node, and then with that node's id. |
| PathTree.Tree.IdOf | tree.js:264-275 | Answers exactly `Trie.IdOf` on the current state. |

## Removal and `id` as written

- **Removal.** One might expect removal to prune only nodes that carry no id. The loop, which this model follows (`Trie.Prune`), does otherwise:
  - after detaching a childless node, it walks up to the parent;
  - if the parent still has children, it clears the parent's id (`Trie.PruneClearsParent`);
  - if the parent has no children left, it detaches the parent even when the parent holds an id (`Trie.PruneDetachesParent`).

  Ancestor routes therefore need not survive a removal, and no lemma claims they do.
- **`id`.** It does not normalise its argument. On a node that lies on a pattern's path but holds no id, it returns `undefined` (`Present(None)`), not `null`.

## Left out

- `transport.js` and the event multiplexer behind `on`/`off`/`emit` are not part of this model. They are asynchronous lifecycle plumbing.
- `uuid5` is not modelled; the hash is the abstract parameter `hash`.
- The message texts of the path assertions are not modelled; both assertions become the one error `MissingPath`.
- The assertion that the path is a string is not modelled: paths are strings by type.
- `options.strict` is a `bool`, and `undefined` is `false`.
- Map iteration order is not modelled; no operation depends on it.
- JavaScript object quirks of the `params` object are not modelled, such as a parameter named `__proto__`. Captures are a plain `map`. A missing parameter name becomes the key `"undefined"`, as JavaScript coerces it.
- Nodes and their identity are not modelled by reference. They live in an arena and are addressed by index. Detached nodes stay in the arena, and the static index may still point at them, as it does in the source.
- PathTree.Tree.constructor: requires every route to be non-empty. The source throws part-way through construction on an empty route, and then leaves no tree.
- Trie.ResolveSound: holds only for paths with no literal `*` segment. Such a segment enters the wildcard slot by exact key and can absorb several segments. The placeholder fallback can then answer with a pattern of a different length. For example, with `/a/:p` and `/a/*/b` registered, `/a/*/z` resolves to `/a/:p`.
- Matcher.ResolutionSound: the same hypothesis as `Trie.ResolveSound`.
- Matcher.DescentCaptures: states where each capture comes from, not that every placeholder node passed on the way down is captured, and not which of two captures under the same name survives. The first would be false as written: a segment that is literally `:` enters the placeholder slot by its exact key and captures nothing.
- Trie.DeleteKeepsOthers: requires the other pattern's slots not to be a prefix of the removed pattern's slots. Such a pattern's node may be the one the upward loop stops at, losing its id, or may be detached on the way, as `Trie.PruneClearsParent` and `Trie.PruneDetachesParent` show.
- Trie.PlacePreservesOthers: requires the other pattern to walk different slots. Patterns that walk the same slots (`/:x` and `/:y`) share a node, so `add` overwrites that node's id.
