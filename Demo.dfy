/**
 * The sample tree of src/demo.js: "Root" with children "A" and "B", and
 * "A" with children "C" and "D". Walking it with `each` visits the nodes in
 * pre-order.
 */
module Demo {
  import opened TreeShape
  import opened TreeNode

  /** The pre-order walk of the sample tree's child lists, node by node. */
  lemma SampleOrder(s: Links)
    requires s.Shaped() && |s.parent| == 5
    requires s.kids[0] == [1, 2] && s.kids[1] == [3, 4] && s.kids[2] == [] && s.kids[3] == [] && s.kids[4] == []
    ensures s.PreOrder(0, 0) == [Visit(0, 0), Visit(1, 1), Visit(3, 2), Visit(4, 2), Visit(2, 1)]
  {
    assert s.PreOrder(3, 2) == [Visit(3, 2)] by { assert s.PreOrderFrom(3, 0, 2) == []; }
    assert s.PreOrder(4, 2) == [Visit(4, 2)] by { assert s.PreOrderFrom(4, 0, 2) == []; }
    assert s.PreOrder(2, 1) == [Visit(2, 1)] by { assert s.PreOrderFrom(2, 0, 1) == []; }
    assert s.PreOrderFrom(1, 0, 1) == [Visit(3, 2), Visit(4, 2)] by {
      assert s.PreOrderFrom(1, 2, 1) == [];
      assert s.PreOrderFrom(1, 1, 1) == [Visit(4, 2)];
    }
    assert s.PreOrder(1, 1) == [Visit(1, 1), Visit(3, 2), Visit(4, 2)];
    assert s.PreOrderFrom(0, 0, 0) == [Visit(1, 1), Visit(3, 2), Visit(4, 2), Visit(2, 1)] by {
      assert s.PreOrderFrom(0, 2, 0) == [];
      assert s.PreOrderFrom(0, 1, 0) == [Visit(2, 1)];
    }
  }

  /** `p.add(x)` for a node `x` without parent or children: it becomes p's last child. */
  method Hang(f: Forest, p: nat, x: nat)
    requires f.Valid() && p < |f.parent| && x < |f.parent| && p != x
    requires f.parent[x] == NIL && forall z :: 0 <= z < |f.parent| ==> f.parent[z] != x
    modifies f
    ensures f.Valid() && f.labels == old(f.labels)
    ensures f.parent == old(f.parent)[x := p] && f.kids == old(f.kids)[p := old(f.kids[p]) + [x]]
  {
    if f.InSubtree(p, x) {
      ReachesChildless(f.parent, f.rank, f.bound, p, x);
    }
    var added := f.Add(p, x);
  }

  /** `root.add(nodeA)` and `root.add(nodeB)`. */
  method LinkUnderRoot(f: Forest)
    requires f.Valid() && f.parent == [NIL, NIL, NIL, NIL, NIL]
    modifies f
    ensures f.Valid() && f.labels == old(f.labels) && f.parent == [NIL, 0, 0, NIL, NIL]
    ensures f.kids[0] == old(f.kids[0]) + [1, 2]
    ensures forall q :: 1 <= q < 5 ==> f.kids[q] == old(f.kids[q])
  {
    Hang(f, 0, 1);
    assert f.parent == [NIL, 0, NIL, NIL, NIL];
    Hang(f, 0, 2);
  }

  /** `nodeA.add(nodeC)` and `nodeA.add(nodeD)`. */
  method LinkUnderA(f: Forest)
    requires f.Valid() && f.parent == [NIL, 0, 0, NIL, NIL]
    modifies f
    ensures f.Valid() && f.labels == old(f.labels) && |f.parent| == 5
    ensures f.kids[1] == old(f.kids[1]) + [3, 4]
    ensures forall q :: 0 <= q < 5 && q != 1 ==> f.kids[q] == old(f.kids[q])
  {
    Hang(f, 1, 3);
    assert f.parent == [NIL, 0, 0, 1, NIL];
    Hang(f, 1, 4);
  }

  /** The label and the depth of each visit, in visiting order. */
  method Transcribe(f: Forest, visits: seq<Visit>) returns (labels: seq<string>, depths: seq<nat>)
    requires forall k :: 0 <= k < |visits| ==> visits[k].node < |f.labels|
    ensures |labels| == |depths| == |visits|
    ensures forall k :: 0 <= k < |visits| ==> labels[k] == f.labels[visits[k].node] && depths[k] == visits[k].depth
  {
    labels, depths := [], [];
    for i := 0 to |visits|
      invariant |labels| == |depths| == i
      invariant forall k :: 0 <= k < i ==> labels[k] == f.labels[visits[k].node] && depths[k] == visits[k].depth
    {
      labels, depths := labels + [f.labels[visits[i].node]], depths + [visits[i].depth];
    }
  }

  /**
   * Starting from the five new nodes Root, A, B, C and D, makes the `add`
   * calls of src/demo.js and walks the tree from Root with `each`.
   */
  method SampleWalk(f: Forest) returns (labels: seq<string>, depths: seq<nat>)
    requires f.Valid() && f.labels == ["Root", "A", "B", "C", "D"]
    requires f.parent == [NIL, NIL, NIL, NIL, NIL] && f.kids == [[], [], [], [], []]
    modifies f
    ensures labels == ["Root", "A", "C", "D", "B"]
    ensures depths == [0, 1, 2, 2, 1]
  {
    LinkUnderRoot(f);
    LinkUnderA(f);
    var visits := f.Each(0, true);
    SampleOrder(f.Snapshot());
    labels, depths := Transcribe(f, visits);
  }
}
