# Outline tree with a selection cursor

A model of the core of `rstim`, a terminal outline editor. The outline is a
forest of named nodes. Each node is owned by its parent's child list, and
the top-level nodes are owned by the root list. A node is addressed by its
path: a sequence of zero-based indices from the root list. The editor holds
the forest, an optional selected path and a one-key memory for the `gg`
chord. In tree mode a key press does one of these:

- `A` appends a child named "new node" to the selected node and selects it.
  With nothing selected, the node goes at the end of the root list.
- `j` / `k` move to the next / previous sibling.
- `gg` selects the first root.
- `G` selects the deepest-last node.
- `q` quits.

The tree pane shows one line per node, in pre-order. Each line is indented
by two spaces per level, and the selected node's line is highlighted.

The project has three modules:

- `Outline` (`outline.dfy`) holds the node datatype and the two path
  lookups. `Resolve` models `get_node_mut` and `ChildrenAt` models
  `get_parent_children_mut`. `AppendChildAt` is the functional
  "append a child at a path" update. Lemmas say what each one does and
  what it leaves alone.
- `Render` (`render.dfy`) holds `BuildTreeLines`, the recursive push loop
  of `build_tree_lines`. It is proved against the spec function `Lines`.
  `Lines` is then related to an independent pre-order listing of paths,
  `PreOrder`.
- `Editor` (`editor.dfy`) holds the `App` class, with fields `tree`,
  `selected` and `prevKey`. It has one method per key of `run`'s
  `match key.code` and a `HandleKey` dispatcher. `DeepestLastPath` is the
  `while` loop of the `G` arm.

Indices (`usize`) are modelled as `nat`. Paths are `seq<nat>`, names are
`string`, and `Option` is a local datatype.

## Model

| member | source | states |
|---|---|---|
| `Outline.NewNode` | src/main.rs:24-31 | a fresh node has the given name, no children, and counts as exactly one node |
| `Outline.Resolve` | src/main.rs:69-81 | the node lookup never resolves the empty path, and never a path whose first index is outside the root list |
| `Outline.ChildrenAt` | src/main.rs:83-96 | the root list for the empty path; otherwise the children of the node at the path, or None when an index is out of range at its level. For a non-empty path it finds a list exactly when the node lookup finds a node (the exact list is given by `ChildrenAtViaResolve`) |
| `Outline.AppendChildAt` | src/main.rs:57-58 | the in-place `push` onto the selected node's children, as a rebuilt tree: the root list keeps its length, every root off the path is unchanged, and the root on the path keeps its name. What happens at the target and below is stated by the `AppendChildAt*` lemmas |
| `Outline.ResolveViaParent` | src/main.rs:69-96 | `get_node_mut(p)` is the element at `p`'s last index of `get_parent_children_mut(parent of p)`; it is None when that list is missing or the index is out of range |
| `Outline.ChildrenAtViaResolve` | src/main.rs:83-96 | for a non-empty path, `get_parent_children_mut` gives exactly the children of the node `get_node_mut` finds, and None exactly when that lookup fails |
| `Outline.ChildrenAtExtend` | src/main.rs:88-95 | descending by an in-range index `i` from a child list that exists reaches that list's `i`-th node and its children |
| `Outline.PrefixResolves` | src/main.rs:71-78 | every non-empty prefix of a resolving path resolves, because the walk fails as soon as one index is out of range |
| `Outline.AppendChildAtTarget` | src/main.rs:56-62 | after `add_child` at a resolving path, the target keeps its name and old children in order and gains the new node as its last child; the old path plus the old child count resolves to the new node; the root list keeps its length |
| `Outline.AppendChildAtElsewhere` | src/main.rs:56-62 | every path that is neither the target, nor one of its ancestors, nor under the new child resolves exactly as before, so all other nodes are unchanged |
| `Outline.AppendChildAtAncestor` | src/main.rs:56-62 | every strict ancestor of the target still resolves, with its name and child count unchanged |
| `Outline.AppendChildAtKeepsPaths` | src/main.rs:56-62 | appending a child never invalidates a path that resolved before |
| `Outline.AppendChildAtCount` | src/main.rs:56-62 | appending a node adds exactly that node's size to the tree's node count |
| `Render.Spaces` | src/main.rs:249 | the indentation prefix has the requested length and consists only of blanks |
| `Render.BuildTreeLines` | src/main.rs:232-256 | the loop with recursion pushes onto the output buffer exactly the lines of `Lines` for the given forest, selection and parent path, after what the buffer already held |
| `Render.LinesLength` | src/main.rs:232-256 | there is one line per node: the line count equals the total node count |
| `Render.LinesFollowPreOrder` | src/main.rs:232-256 | the k-th line belongs to the k-th node in pre-order; it shows that node's name after 2 × depth blanks and is highlighted exactly when the selection equals that node's path |
| `Render.PreOrderSorted` | src/main.rs:232-256 | the visiting order strictly increases in the ancestor-first lexicographic order on paths: a node comes before its descendants, and an earlier sibling's subtree before a later sibling |
| `Render.PreOrderDistinct` | src/main.rs:232-256 | no node is visited twice |
| `Render.PreOrderComplete` | src/main.rs:232-256 | a path is visited exactly when it resolves to a node, so every node is listed and nothing else is |
| `Render.PreOrderLength` | src/main.rs:232-256 | the pre-order has one entry per node |
| `Render.AtMostOneHighlighted` | src/main.rs:237-241 | two distinct lines of the tree pane are never both highlighted |
| `Render.ThreeNodeExample` | src/main.rs:232-256 | A with children [B, C] renders as A at depth 0, then B and C at depth 1, in that order |
| `Editor.DeepestLastPath` | src/main.rs:175-187 | the path built is empty exactly for an empty tree; otherwise every index is the last one at its level and the path ends at a node with no children |
| `Editor.DeepestLastUnique` | src/main.rs:175-191 | at most one path has that deepest-last shape, so `G`'s target is determined by the tree alone |
| `Editor.DeepestLastExample` | src/main.rs:175-191 | for root list [X] where X has the single leaf child Y, `G` goes to Y at [0, 0] and not to X |
| `Editor.App.constructor` | src/main.rs:45-52 | a new app has an empty tree, no selection and no pending chord key |
| `Editor.App.AddChild` | src/main.rs:54-67 | with no selection, the new node is appended to the root list and `[old length]` is selected; with a resolving selection, the new node is appended to the selected node's children and the old path plus the new index is selected; with a dangling selection nothing changes; a new selection names the new node, the node count rises by one, and every previously resolving path still resolves |
| `Editor.App.MoveDown` | src/main.rs:136-155 | the last index rises by one only when it is below the sibling count minus one; otherwise nothing happens (no wraparound); with a resolving selection, it moves exactly when a next sibling exists; the tree is untouched and a resolving selection keeps resolving |
| `Editor.App.MoveUp` | src/main.rs:156-165 | the last index falls by one only when it is above 0; otherwise nothing happens; the tree is untouched and a resolving selection keeps resolving |
| `Editor.App.PressG` | src/main.rs:166-174 | a `g` right after a `g` selects `[0]` when the root list is non-empty, and otherwise leaves the selection alone; any other `g` only arms the chord |
| `Editor.App.SelectLast` | src/main.rs:175-191 | on a non-empty tree `G` selects the deepest-last node; on an empty tree the selection is unchanged |
| `Editor.App.HandleKey` | src/main.rs:128-196 | the chord memory is cleared before every key, and is armed only by a `g` that did not complete a chord. Only `q` reports quit. Only `A` changes the tree: with no selection the new node is appended to the root list and `[old length]` is selected; otherwise it is appended under the selected node, whose path plus the new index is selected. Either way the count rises by one and the new selection names the fresh node. `j` and `k` keep the selection at the same depth under the same parent; `gg`, `G`, `q` and other keys behave as above. The selection keeps resolving |

## Left out

- Terminal plumbing is not modelled: `setup_terminal`, `restore_terminal`, `main`, and the `terminal.draw` / `event::read` loop of `run` (src/main.rs:99-127). These are crossterm I/O with no state of their own. Each key read becomes one `HandleKey` call, and `q` becomes its `quit` result.
- `ui` and the ratatui widgets, layouts and styles (src/main.rs:201-230, 243-250) are rendering calls into a library. A styled line is modelled as `Line(indent, name, highlighted)`, with highlighted standing for the black-on-white style.
- `AppMode` has a single variant, so there is nothing to branch on.
- crossterm's `KeyCode` is replaced by the `Key` enum (`q`, `A`, `j`, `k`, `g`, `G`, and `Other` for every other key). `prev_key_code` only ever holds a `g`.
- The source changes nodes in place through `&mut` references returned by `get_node_mut`. The model rebuilds the path functionally (`AppendChildAt`) and assigns the result to `tree`. Aliasing of those references is not modelled. `build_tree_lines` appends to a `&mut Vec`; the model passes that buffer in and returns it as a sequence.
- `j` computes `parent_nodes.len() - 1` in `usize`. This underflows when the sibling list of a dangling selection is empty: a debug build panics, and a release build wraps around to the largest `usize` and moves the index past the end. `MoveDown` requires that this case does not occur instead of modelling the panic. `HandleKey` requires a resolving selection. The constructor establishes that, and every key preserves it.
- `Editor.App.HandleKey`: for `j` and `k` its contract says only that the selection stays at the same depth under the same parent. The exact index arithmetic is stated by `MoveDown` and `MoveUp`, which it calls.
- The code implements no add-sibling command, leaf content, identity table with parent back-references, or deletion, so the model has none of them.
- With a dangling selection, `A` does nothing (src/main.rs:57).
