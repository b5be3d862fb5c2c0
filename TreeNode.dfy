/**
 * Model of class `TreeNode` in src/TreeNode.js.
 *
 * A `Forest` holds every TreeNode object created so far; a node is its
 * index, and each field of the source object is a sequence indexed by node.
 * The methods below do what the source's methods do to those fields, in the
 * same order, and their contracts relate the result to the ghost child lists
 * and ancestry defined in module TreeShape.
 */
module TreeNode {
  import opened TreeShape

  /** Why `add` throws. */
  datatype AddError = SelfAttachment | AncestorAttachment

  /** What `add` does: attaches the node, or throws before changing anything. */
  datatype AddResult = Attached | Rejected(error: AddError)

  class Forest {
    var labels: seq<string>
    var parent: seq<int>
    var prev: seq<int>
    var next: seq<int>
    var first: seq<int>
    var last: seq<int>
    var count: seq<nat>
    var root: seq<int>
    /** The children of each node, in sibling order. */
    ghost var kids: seq<seq<nat>>
    /** Grows strictly from child to parent, within `bound`. */
    ghost var rank: seq<nat>
    ghost var bound: nat

    /** The link fields as one value. */
    ghost function Snapshot(): Links
      reads this`parent, this`prev, this`next, this`first, this`last, this`count, this`kids, this`rank, this`bound
    {
      Links(parent, prev, next, first, last, count, kids, rank, bound)
    }

    /** The links are well formed (the cached roots may still be stale). */
    ghost predicate Linked()
      reads this
    {
      |labels| == |parent| && |root| == |parent| && Snapshot().Shaped()
    }

    /** The links are well formed and every node caches the top of its tree as `root`. */
    ghost predicate Valid()
      reads this
    {
      Linked() && RootsAgree(parent, root)
    }

    /** `y` is `x` or lies below it. */
    ghost predicate InSubtree(y: nat, x: nat)
      reads this`parent, this`prev, this`next, this`first, this`last, this`count, this`kids, this`rank, this`bound
      requires Snapshot().Shaped() && y < |parent|
    {
      Reaches(parent, rank, bound, y, x)
    }

    /** `y` lies strictly below `a`. */
    ghost predicate IsProperDescendant(y: nat, a: nat)
      reads this`parent, this`prev, this`next, this`first, this`last, this`count, this`kids, this`rank, this`bound
      requires Snapshot().Shaped() && y < |parent|
    {
      y != a && InSubtree(y, a)
    }

    /** A forest with no nodes yet. */
    constructor Empty()
      ensures Valid() && parent == []
    {
      labels, parent, prev, next, first, last, count, root := [], [], [], [], [], [], [], [];
      kids, rank, bound := [], [], 0;
    }

    /** `new TreeNode(label)` with `name` as the label: a node with no parent and no children that is its own root. */
    method NewNode(name: string) returns (x: nat)
      requires Valid()
      modifies this
      ensures Valid()
      ensures x == old(|parent|) && labels == old(labels) + [name]
      ensures parent == old(parent) + [NIL] && prev == old(prev) + [NIL] && next == old(next) + [NIL]
      ensures first == old(first) + [NIL] && last == old(last) + [NIL] && count == old(count) + [0]
      ensures root == old(root) + [x] && kids == old(kids) + [[]] && rank == old(rank) + [0] && bound == old(bound)
    {
      GrownShaped(Snapshot());
      x := |parent|;
      labels, parent, prev, next := labels + [name], parent + [NIL], prev + [NIL], next + [NIL];
      first, last, count, root := first + [NIL], last + [NIL], count + [0], root + [x];
      kids, rank := kids + [[]], rank + [0];
      assert Snapshot() == old(Snapshot()).Grown();
    }

    /** `self.isDescendantOf(a)`: walks up from self's parent looking for `a`. */
    method IsDescendantOf(self: nat, a: nat) returns (b: bool)
      requires Linked() && self < |parent|
      ensures b <==> IsProperDescendant(self, a)
    {
      var cursor := parent[self];
      assert InSubtree(self, a) == (self == a || (cursor != NIL && InSubtree(cursor, a)));
      if cursor != NIL && InSubtree(cursor, a) {
        ReachesRank(parent, rank, bound, cursor, a);
      }
      while cursor != NIL
        invariant NIL <= cursor < |parent|
        invariant IsProperDescendant(self, a) <==> cursor != NIL && InSubtree(cursor, a)
        decreases if cursor == NIL then 0 else bound + 1 - rank[cursor]
      {
        if cursor == a {
          return true;
        }
        cursor := parent[cursor];
      }
      return false;
    }

    /** `self.children()`: the children of self, read along the sibling links from `first`. */
    method Children(self: nat) returns (cs: seq<nat>)
      requires Linked() && self < |parent|
      ensures cs == kids[self]
      ensures |cs| == count[self] && NoDup(cs)
      ensures forall y :: 0 <= y < |parent| ==> (y in cs <==> parent[y] == self)
    {
      ghost var s := Snapshot();
      assert s.ListAt(self);
      cs := [];
      var cursor := first[self];
      ghost var j := 0;
      while cursor != NIL
        invariant j <= |kids[self]| && cs == kids[self][..j]
        invariant cursor == if j < |kids[self]| then kids[self][j] else NIL
        decreases |kids[self]| - j
      {
        ChainNeighbours(kids[self], prev, next, NIL, j);
        cs := cs + [cursor];
        cursor := next[cursor];
        j := j + 1;
      }
      assert cs == kids[self];
      forall y | 0 <= y < |parent| && parent[y] == self ensures y in cs {
        assert y in kids[parent[y]];
      }
    }

    /**
     * `self.each(cb)`: the calls made to `cb`, in order, as visits. Without a
     * callback nothing is called.
     */
    method Each(self: nat, hasCallback: bool) returns (visits: seq<Visit>)
      requires Linked() && self < |parent|
      ensures !hasCallback ==> visits == []
      ensures hasCallback ==> visits == Snapshot().PreOrder(self, 0)
    {
      visits := [];
      if !hasCallback {
        return;
      }
      ghost var s := Snapshot();
      var stack := [Visit(self, 0)];
      PendingPush(s, [], self, 0);
      while |stack| > 0
        invariant forall i :: 0 <= i < |stack| ==> stack[i].node < |parent|
        invariant visits + s.Pending(stack) == s.PreOrder(self, 0)
        decreases |s.Pending(stack)|
      {
        var top := stack[|stack| - 1];
        var rest := stack[..|stack| - 1];
        assert stack == rest + [top];
        var pushed := PushChildren(top.node, top.depth, rest);
        EachStep(s, visits, rest, top, pushed, s.PreOrder(self, 0));
        visits := visits + [top];
        stack := pushed;
      }
    }

    /** The inner loop of `each`: pushes the children of `node` from last to first. */
    method PushChildren(node: nat, depth: nat, stack0: seq<Visit>) returns (stack: seq<Visit>)
      requires Linked() && node < |parent|
      requires forall i :: 0 <= i < |stack0| ==> stack0[i].node < |parent|
      ensures forall i :: 0 <= i < |stack| ==> stack[i].node < |parent|
      ensures Snapshot().Pending(stack) == Snapshot().PreOrderFrom(node, 0, depth) + Snapshot().Pending(stack0)
    {
      ghost var s := Snapshot();
      PushChildrenStart(s, node, depth);
      stack := stack0;
      var child := last[node];
      ghost var j: nat := |s.kids[node]|;
      while child != NIL
        invariant j <= |s.kids[node]|
        invariant child == if j > 0 then s.kids[node][j - 1] else NIL
        invariant forall i :: 0 <= i < |stack| ==> stack[i].node < |s.parent|
        invariant s.Pending(stack) == s.PreOrderFrom(node, j, depth) + s.Pending(stack0)
        decreases j
      {
        PrevChild(s, node, j);
        PendingPushChild(s, stack, stack0, node, j, depth);
        stack := stack + [Visit(child, depth + 1)];
        child := prev[child];
        j := j - 1;
      }
    }

    /**
     * `setRootForSubtree(node, newRoot)` with `x` as the node: stamps
     * `newRoot`, or `x` itself when `newRoot` is null, as the root of every
     * node of x's subtree, and leaves every other root as it was.
     */
    method SetRootForSubtree(x: nat, newRoot: int)
      requires Linked() && x < |parent| && NIL <= newRoot < |parent|
      modifies this`root
      ensures |root| == |parent|
      ensures forall y :: 0 <= y < |parent| ==>
                root[y] == if InSubtree(y, x) then (if newRoot == NIL then x else newRoot) else old(root[y])
    {
      var rootRef := if newRoot != NIL then newRoot else x;
      ghost var s := Snapshot();
      var stack: seq<nat> := [x];
      StampingStart(s, x, root, rootRef);
      while |stack| > 0
        invariant Stamping(s, x, stack, old(root), root, rootRef)
        decreases s.SizeOfStack(stack)
      {
        var current := stack[|stack| - 1];
        var rest := stack[..|stack| - 1];
        assert stack == rest + [current];
        RestampStep(s, x, rest, current, old(root), root, rootRef);
        root := root[current := rootRef];
        var children := Children(current);
        stack := rest + children;
      }
      StampingDone(s, x, old(root), root, rootRef);
    }

    /**
     * `self.add(x)`: refuses to attach a node to itself or to one of its own
     * descendants, changing nothing; otherwise takes `x` out of its current
     * parent's list (if any), appends it to self's list and gives its whole
     * subtree self's root.
     */
    method Add(self: nat, x: nat) returns (result: AddResult)
      requires Valid() && self < |parent| && x < |parent|
      modifies this
      ensures Valid() && labels == old(labels)
      ensures result == if x == self then Rejected(SelfAttachment)
                        else if old(IsProperDescendant(self, x)) then Rejected(AncestorAttachment)
                        else Attached
      ensures result.Rejected? ==> unchanged(this)
      ensures result == Attached ==>
                && parent == old(parent)[x := self]
                && kids == Attach(Detach(old(kids), old(parent[x]), x), self, x)
                && last[self] == x && next[x] == NIL && prev[x] == LastOf(Detach(old(kids), old(parent[x]), x)[self])
                && count[self] == (if old(parent[x]) == self then old(count[self]) else old(count[self]) + 1)
                && forall y :: 0 <= y < |parent| ==>
                     root[y] == if old(InSubtree(y, x)) then old(root[self]) else old(root[y])
    {
      if x == self {
        return Rejected(SelfAttachment);
      }
      var above := IsDescendantOf(self, x);
      if above {
        return Rejected(AncestorAttachment);
      }
      Move(self, x);
      return Attached;
    }

    /** What `add` does once the guards pass: `x` leaves its old parent and becomes self's last child. */
    method Move(self: nat, x: nat)
      requires Valid() && self < |parent| && x < |parent| && !IsProperDescendant(self, x) && x != self
      modifies this
      ensures Valid() && labels == old(labels)
      ensures parent == old(parent)[x := self]
      ensures kids == Attach(Detach(old(kids), old(parent[x]), x), self, x)
      ensures last[self] == x && next[x] == NIL && prev[x] == LastOf(Detach(old(kids), old(parent[x]), x)[self])
      ensures count[self] == (if old(parent[x]) == self then old(count[self]) else old(count[self]) + 1)
      ensures forall y :: 0 <= y < |parent| ==>
                root[y] == if old(InSubtree(y, x)) then old(root[self]) else old(root[y])
    {
      Unhook(x);
      AttachDetached(self, x);
    }

    /** The first step of `add`: `x` leaves its parent's list, if it has a parent. */
    method Unhook(x: nat)
      requires Valid() && x < |parent|
      modifies this
      ensures Valid() && labels == old(labels)
      ensures parent == old(parent)[x := NIL] && kids == Detach(old(kids), old(parent[x]), x)
      ensures old(parent[x]) != NIL ==> count[old(parent[x])] + 1 == old(count[parent[x]])
      ensures forall q :: 0 <= q < |count| && q != old(parent[x]) ==> count[q] == old(count[q])
      ensures forall y :: 0 <= y < |parent| ==> InSubtree(y, x) == old(InSubtree(y, x))
      ensures forall y :: 0 <= y < |parent| && !old(InSubtree(y, x)) ==> root[y] == old(root[y])
    {
      ghost var s0 := Snapshot();
      if parent[x] != NIL {
        Remove(parent[x], x);
      }
      forall y | 0 <= y < |parent| ensures InSubtree(y, x) == Reaches(s0.parent, s0.rank, s0.bound, y, x) {
        ReachesFrame(parent, rank, bound, s0.parent, s0.rank, s0.bound, y, x);
      }
    }

    /** The part of `add` after `x` is detached: appends it to self's list and gives its subtree self's root. */
    method AttachDetached(self: nat, x: nat)
      requires Valid() && self < |parent| && x < |parent| && parent[x] == NIL && !InSubtree(self, x)
      modifies this
      ensures Valid() && labels == old(labels)
      ensures parent == old(parent)[x := self] && kids == Attach(old(kids), self, x)
      ensures last[self] == x && next[x] == NIL && count == old(count)[self := old(count[self]) + 1]
      ensures prev[x] == LastOf(old(kids[self]))
      ensures forall y :: 0 <= y < |parent| ==>
                root[y] == if old(InSubtree(y, x)) then old(root[self]) else old(root[y])
    {
      ghost var s1, root1 := Snapshot(), root;
      LastNotDetached(s1, self, x);
      ghost var rank', bound' := RanksForAttach(s1, self, x);
      AppendedShaped(s1, self, x, rank', bound');
      Append(self, x, rank', bound');
      var newRoot := if root[self] != NIL then root[self] else self;
      SetRootForSubtree(x, newRoot);
      AppendedRoots(s1, self, x, rank, bound, root1, root);
    }

    /**
     * The part of `add` that appends `x` to self's list: first the links of
     * `x` and of the old last child, then self's own list fields; the ghost
     * ranks are the ones the caller chose.
     */
    method Append(self: nat, x: nat, ghost rank': seq<nat>, ghost bound': nat)
      requires Snapshot().Sized() && self < |parent| && x < |parent| && NIL <= last[self] < |parent| && last[self] != x
      modifies this
      ensures Snapshot() == old(Snapshot()).Appended(self, x, rank', bound')
      ensures labels == old(labels) && root == old(root)
      ensures last[self] == x && next[x] == NIL && prev[x] == old(last[self]) && count == old(count)[self := old(count[self]) + 1]
    {
      HangBelow(self, x);
      ExtendList(self, x, rank', bound');
    }

    /** `x.parent = self`, `x.prev = self.last`, `x.next = null` and, if there is a last child, its `next = x`. */
    method HangBelow(self: nat, x: nat)
      requires self < |parent| && x < |parent| && |prev| == |parent| && |next| == |parent| && |last| == |parent|
      requires NIL <= last[self] < |parent|
      modifies this`parent, this`prev, this`next
      ensures parent == old(parent)[x := self]
      ensures prev == AppendedPrev(old(prev), x, last[self]) && next == AppendedNext(old(next), x, last[self])
    {
      var l := last[self];
      var next' := next[x := NIL];
      if l != NIL {
        next' := next'[l := x];
      }
      parent, prev, next := parent[x := self], prev[x := l], next';
    }

    /** `self.first` set if there was none, `self.last = x`, `self.count += 1`; the ghost list and ranks follow. */
    method ExtendList(self: nat, x: nat, ghost rank': seq<nat>, ghost bound': nat)
      requires self < |first| && self < |last| && self < |count| && self < |kids|
      modifies this`first, this`last, this`count, this`kids, this`rank, this`bound
      ensures first == (if old(first[self]) == NIL then old(first)[self := x] else old(first))
      ensures last == old(last)[self := x] && count == old(count)[self := old(count[self]) + 1]
      ensures kids == old(kids)[self := old(kids[self]) + [x]] && rank == rank' && bound == bound'
    {
      if first[self] == NIL {
        first := first[self := x];
      }
      last, count, kids, rank, bound := last[self := x], count[self := count[self] + 1], kids[self := kids[self] + [x]], rank', bound';
    }

    /**
     * `self.remove(x)`: when `x` is a child of self, splices it out of self's
     * list, clears its links, decrements the count (never below zero) and
     * makes `x` the root of its own subtree; otherwise does nothing.
     */
    method Remove(self: nat, x: nat)
      requires Valid() && self < |parent| && x < |parent|
      modifies this
      ensures Valid() && labels == old(labels)
      ensures old(parent[x]) != self ==> unchanged(this)
      ensures old(parent[x]) == self ==>
                && old(NIL <= prev[x] < |parent| && NIL <= next[x] < |parent|)
                && Snapshot() == old(Snapshot()).Unlinked(self, x)
                && parent[x] == NIL && prev[x] == NIL && next[x] == NIL
                && old(count[self]) >= 1 && count[self] == old(count[self]) - 1
                && kids[self] == Without(old(kids[self]), x) && x !in kids[self]
                && kids[x] == old(kids[x]) && first[x] == old(first[x]) && last[x] == old(last[x])
                && forall y :: 0 <= y < |parent| ==> root[y] == if old(InSubtree(y, x)) then x else old(root[y])
    {
      if parent[x] != self {
        return;
      }
      ghost var s, root0 := Snapshot(), root;
      ChildCounted(s, self, x);
      UnlinkedShaped(s, self, x);
      Splice(self, x);
      SetRootForSubtree(x, x);
      UnlinkedRoots(s, self, x, root0, root);
    }

    /**
     * The part of `remove` that takes `x` out of self's list: the neighbours
     * of `x` are joined and its own links cleared, then self's list fields
     * follow.
     */
    method Splice(self: nat, x: nat)
      requires Snapshot().Sized() && self < |parent| && x < |parent|
      requires NIL <= prev[x] < |parent| && NIL <= next[x] < |parent|
      modifies this
      ensures Snapshot() == old(Snapshot()).Unlinked(self, x)
      ensures labels == old(labels) && root == old(root)
      ensures parent == old(parent)[x := NIL] && prev[x] == NIL && next[x] == NIL
      ensures count == old(count)[self := if old(count[self]) >= 1 then old(count[self]) - 1 else 0]
      ensures kids == old(kids)[self := Without(old(kids[self]), x)]
    {
      var p, nx := prev[x], next[x];
      Unthread(x);
      ShrinkList(self, x, p, nx);
    }

    /** `x.prev.next = x.next`, `x.next.prev = x.prev` where those exist, then `x`'s own links cleared. */
    method Unthread(x: nat)
      requires x < |parent| && |prev| == |parent| && |next| == |parent|
      requires NIL <= prev[x] < |parent| && NIL <= next[x] < |parent|
      modifies this`parent, this`prev, this`next
      ensures parent == old(parent)[x := NIL]
      ensures prev == SplicedPrev(old(prev), old(next), x) && next == SplicedNext(old(prev), old(next), x)
    {
      var p, nx := prev[x], next[x];
      var prev', next' := prev, next;
      if p != NIL {
        next' := next'[p := nx];
      }
      if nx != NIL {
        prev' := prev'[nx := p];
      }
      parent, prev, next := parent[x := NIL], prev'[x := NIL], next'[x := NIL];
    }

    /**
     * `self.first = x.next` when `x` had no predecessor, `self.last = x.prev`
     * when it had no successor, and `self.count = Math.max(0, self.count - 1)`;
     * the ghost list loses `x`.
     */
    method ShrinkList(self: nat, x: nat, p: int, nx: int)
      requires self < |first| && self < |last| && self < |count| && self < |kids|
      modifies this`first, this`last, this`count, this`kids
      ensures first == if p != NIL then old(first) else old(first)[self := nx]
      ensures last == if nx != NIL then old(last) else old(last)[self := p]
      ensures count == old(count)[self := if old(count[self]) >= 1 then old(count[self]) - 1 else 0]
      ensures kids == old(kids)[self := Without(old(kids[self]), x)]
    {
      if p == NIL {
        first := first[self := nx];
      }
      if nx == NIL {
        last := last[self := p];
      }
      count := count[self := if count[self] >= 1 then count[self] - 1 else 0];
      kids := kids[self := Without(kids[self], x)];
    }
  }
}
