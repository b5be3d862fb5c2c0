# Collapsible tree: a verified model of `TreeNode` and the editor rules

The repository shows a tree in a web page that can be edited: nodes are
added, removed and moved by drag and drop. Its core is `TreeNode`
(src/TreeNode.js). That class keeps each node's children in a doubly
linked sibling list (`first`/`last` on the parent, `prev`/`next` on the
children). It also keeps a `count` of direct children and a cached `root`
pointer on every node. On top of it, src/renderer.js names new nodes
(`toLetters`, `nextAutoName`) and applies the add, remove and drop rules to
the tree and to the current selection.

The model has four modules:

- `TreeShape` holds the shape of the node graph on plain values. Nodes are
  numbered, every per-node field is a sequence indexed by node, and `NIL`
  stands for `null`. It has these parts:
  - the ancestry relation `Reaches`, kept finite by a ghost rank that grows
    from child to parent;
  - the ghost child lists `kids` and the predicate `Shaped`. `Shaped` says
    that every sibling chain runs both ways, that `count` is its length, that
    `first`/`last` are its ends, and that parent links and lists agree;
  - the pre-order walk `PreOrder` and the lemmas about it.
- `TreeNode` has the class `Forest`, which holds every node's fields and
  changes them in place as the source does. `Valid()` is `Shaped` plus
  "every cached `root` is the top of that node's tree".
- `Renderer` has bijective base-26 naming, automatic names, and the class
  `Editor`, which holds the selected node and the dragged node and updates
  them.
- `Demo` has the sample tree of src/demo.js and its walk.

## Model

| member | source | states |
|---|---|---|
| TreeNode.Forest.NewNode | src/TreeNode.js:3-12 | A new node has the given label, no parent, no siblings and no children. Its count is 0 and it is its own root. No existing node changes, and the forest stays well formed. |
| TreeNode.Forest.Add | src/TreeNode.js:14-45 | Refused with no change when the node is the receiver or the receiver lies below the node, so no cycle can form. Otherwise the node is taken out of its old parent's list and becomes the receiver's last child. Its `next` is null, its `prev` is the receiver's last child after the detach, and the receiver's count grows by one unless the node was already its child. Every node of the moved subtree gets the receiver's root; no other root changes. The forest stays well formed. |
| TreeNode.Forest.Unhook | src/TreeNode.js:25-27 | The detach step: a node with a parent leaves that parent's list and the parent's count drops by one. Nothing else in the list table changes, the node's subtree keeps its members, and no root outside the subtree changes. |
| TreeNode.Forest.Move | src/TreeNode.js:25-44 | Detach, then append: the node's parent becomes the receiver and the child lists are the old ones with the node detached and appended. The count and root rules of `add` hold. |
| TreeNode.Forest.AttachDetached | src/TreeNode.js:29-44 | A detached node becomes the receiver's last child. The receiver's `last` is the node, the node's `prev` is the previous last child, and the receiver's count grows by one. The node's subtree takes `this.root \|\| this` as root, and the forest stays well formed. |
| TreeNode.Forest.Append | src/TreeNode.js:29-41 | The link writes of `add` give exactly the "appended" link table: `last`, `next`, `prev` and the count as the source sets them. |
| TreeNode.Forest.HangBelow | src/TreeNode.js:29-35 | The node's parent, `prev` and `next` are set, and the old last child's `next` now points to it. |
| TreeNode.Forest.ExtendList | src/TreeNode.js:36-41 | `first` is set only when the list was empty, `last` becomes the node, and the count grows by one. |
| TreeNode.Forest.Remove | src/TreeNode.js:47-73 | Nothing changes unless the node is the receiver's child, so a second `remove` of the same node is a no-op. Otherwise the node is spliced out of the sibling chain and the chain still runs both ways. The node's parent, `prev` and `next` become null, and the count drops by one. The node's own children are untouched. Every node of its subtree gets the node as root; no other root changes. |
| TreeNode.Forest.Splice | src/TreeNode.js:55-71 | The link writes of `remove` give exactly the "unlinked" link table. `first` and `last` are fixed at the ends, and the count is `max(0, count - 1)`. |
| TreeNode.Forest.Unthread | src/TreeNode.js:55-69 | The neighbours are joined: `prev.next = next` and `next.prev = prev` where they exist. The node's own parent and sibling links are cleared. |
| TreeNode.Forest.ShrinkList | src/TreeNode.js:55-71 | `first` moves when the node was first and `last` moves when it was last. The count becomes `max(0, count - 1)`. |
| TreeNode.Forest.Each | src/TreeNode.js:75-92 | Without a callback nothing is visited. With one, the visits made through the explicit stack are exactly the pre-order walk `PreOrder(self, 0)`. |
| TreeNode.Forest.PushChildren | src/TreeNode.js:86-90 | Pushing the children from last to first leaves the stack with the children's subtrees, in sibling order, ahead of what it held before. |
| TreeShape.PreOrderSound | src/TreeNode.js:75-92 | Every visit of the walk from `x` is a node of x's subtree. Its depth is the start depth plus its distance from `x`. |
| TreeShape.PreOrderComplete | src/TreeNode.js:75-92 | Every node of x's subtree is visited. |
| TreeShape.PreOrderOnce | src/TreeNode.js:75-92 | No node is visited twice. |
| TreeNode.Forest.IsDescendantOf | src/TreeNode.js:94-103 | True exactly when `a` is a strict ancestor of the node. A node is never its own descendant. |
| TreeNode.Forest.SetRootForSubtree | src/TreeNode.js:105-119 | Every node of the subtree gets `newRoot`, or the node itself when `newRoot` is null. Every other root is unchanged. |
| TreeNode.Forest.Children | src/TreeNode.js:121-127 | The walk from `first` along `next` yields the node's child list. Its length is `count`, it has no repeats, and it holds exactly the nodes whose parent is the node. |
| TreeShape.RootIsTop | src/TreeNode.js:43-44 | Where every root agrees with its parent's root, a node's root is a parentless ancestor of it. |
| TreeShape.RootsOfTop | src/TreeNode.js:105-119 | A node's root is a given top exactly when the node lies below that top. |
| TreeShape.ReachesChildless | src/TreeNode.js:21-23 | Only the node itself lies below a node that has no children. |
| Renderer.ToLetters | src/renderer.js:307-316 | The loop returns `Letters(num)`: the empty string for `num <= 0`, otherwise letters 'A'..'Z' only. |
| Renderer.LettersRoundTrip | src/renderer.js:308-315 | Reading the letters as base-26 digits with A=1 … Z=26 gives back the number. |
| Renderer.LettersComplete | src/renderer.js:308-315 | Every string of capital letters is the name of the number it reads as, so every name is reached. |
| Renderer.LettersInjective | src/renderer.js:308-315 | Different numbers get different names. |
| Renderer.LettersExamples | src/renderer.js:307-316 | 0 → "", 1 → "A", 26 → "Z". |
| Renderer.LettersLongerExamples | src/renderer.js:307-316 | 27 → "AA", 28 → "AB", 702 → "ZZ", 703 → "AAA". |
| Renderer.DecimalRoundTrip | src/renderer.js:304 | The decimal text of a count reads back as that count. |
| Renderer.DecimalComplete | src/renderer.js:304 | Every digit string without a leading zero is the text of its own value. |
| Renderer.AutoName | src/renderer.js:301-305 | For a node without a parent, letters that read back as `count + 1`. Otherwise the node's label, a dot, and digits that read back as `count + 1`. |
| Renderer.NextAutoName | src/renderer.js:301-305 | Returns `AutoName` of the node's label, parentlessness and count. |
| Renderer.Editor.Open | src/renderer.js:35-36 | The editor opens with the top as the selection and no node dragged, and the tree shown is well formed. |
| Renderer.Editor.OnAddClick | src/renderer.js:66-73 | The new node is named by `nextAutoName` of the selection and appended as the selection's last child. The selection's count grows by one, the new node becomes the selection, and the tree shown stays well formed. |
| Renderer.Editor.AddLeaf | src/renderer.js:67-69 | The created node is the last child of its parent and lies in the tree shown when its parent does. |
| Renderer.Editor.OnRemoveClick | src/renderer.js:76-89 | Removes something exactly when the selection is not the top, and leaves the tree alone otherwise. When it removes, the child lists are the old ones with the selected node taken out of its parent's list, so every other list, the removed node's own included, keeps its order. The parent's count drops by one, and the parent becomes the selection. |
| Renderer.Editor.OnDragStart | src/renderer.js:172-181 | Dragging the top is refused. Any other node becomes the dragged node. |
| Renderer.Editor.OnDragEnd | src/renderer.js:223-225 | The end of a drag clears the dragged node. |
| Renderer.Editor.OnDrop | src/renderer.js:203-221 | Nothing happens with no drag. A drop on the dragged node or below it is refused with no change. Otherwise the dragged node leaves its old parent, becomes the target's last child and is selected. Either way the drag ends, and the tree shown stays well formed. |
| Renderer.Editor.Relocate | src/renderer.js:212-214 | The dragged node is detached, then added under the target. What was above the target is now above the node too. |
| Demo.SampleOrder | src/demo.js:10-13 | The walk of the sample tree visits Root, A, C, D, B at depths 0, 1, 2, 2, 1. |
| Demo.LinkUnderRoot | src/demo.js:10-11 | `root.add(nodeA)` and `root.add(nodeB)` give Root the children A, B. |
| Demo.LinkUnderA | src/demo.js:12-13 | `nodeA.add(nodeC)` and `nodeA.add(nodeD)` give A the children C, D. |
| Demo.SampleWalk | src/renderer.js:249-253 | The four `add` calls of src/demo.js:10-13 are made on the five new nodes. Then `root.each` walks from Root, as the order panel does once src/demo.js:16 has mounted the tree. The labels come out as Root, A, C, D, B and the depths as 0, 1, 2, 2, 1. |

Re-adding a node that is already a direct child: `add` first removes it
(src/TreeNode.js:25-27) and then appends it, so it moves to the end of the
list and the count is unchanged. `TreeNode.Forest.Add` states this.

## Left out

- The DOM work of src/renderer.js is not modelled: rendering, building controls, the order panel, highlighting, CSS classes and dataset ids. It is presentation through a host API.
- Event wiring and drag styling are not modelled: `dragenter`, `dragover` and `dragleave`, and the class changes in `clearDragState`. Only the drop decision, the drag start and the clearing of the dragged node are kept.
- Status messages and their timers are not modelled; they are time-based UI effects.
- Collapse flags and display ids are kept in `WeakMap`s and `ensureNodeId`; they are view-only and are not modelled.
- The runtime type checks are modelled by types. `instanceof TreeNode` always holds for a node number, so the `TypeError` paths do not exist here. For `typeof cb`, the model takes a flag saying whether a callback was given.
- TreeNode.Forest.Each: does not run a callback. It returns the calls it would make, in order, as (node, depth) visits. A callback that changes the tree during the walk is not modelled.
- TreeNode.Forest.Children: returns the whole sequence of children at once; the laziness of the generator is not modelled.
- TreeNode.Forest.Remove: the floor at zero in `Math.max(0, count - 1)` is modelled in `Splice` and `ShrinkList`. Under the invariant that `count` is the length of the list, a parent of the removed node has a count of at least one, so the floor never applies.
- TreeNode.Forest.NewNode: always takes a label. The constructor's default `label = ""` (src/TreeNode.js:3) is the call with `""`, so no behaviour is lost.
- Renderer.ToLetters: the input is an integer. JavaScript's fractional numbers are not modelled; every caller passes `count + 1`.
- Renderer.NextAutoName: `parent.count || 0` is modelled as `count`, because every node's count is a number from the constructor on.
- Renderer.Editor.OnRemoveClick: the source also tests that the selection has a parent. Below the top every node has one, so that test always passes, and the model does not repeat it.
- The `root` passed to `createCollapsibleTreeUI` is the `Editor`'s `top`. The UI's `selected` and `draggingNode` closure variables are its fields.
- Demo.SampleWalk: the five `new TreeNode(...)` calls of src/demo.js are taken as its precondition (a forest of five fresh, unlinked nodes with those labels), not replayed. Mounting the tree in the page is left out.
