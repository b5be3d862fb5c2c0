/**
 * The shape of the node graph built by src/TreeNode.js, stated on plain
 * values.
 *
 * Nodes are numbered 0, 1, ... and every per-node field of the source
 * (`parent`, `prev`, `next`, `first`, `last`, `count`, `root`) becomes a
 * sequence indexed by node, with NIL standing for the source's `null`.
 * Two ghost tables carry the abstract view: `kids[p]` is the list of p's
 * children in sibling order, and `rank` strictly grows from a child to its
 * parent (all ranks stay within `bound`), which keeps the parent chains
 * acyclic and makes every walk over the tree finite.
 */
module TreeShape {

  /** The source's `null`, for node links. */
  const NIL: int := -1

  // ---------------------------------------------------------------------------
  // Ancestry over a parent table
  // ---------------------------------------------------------------------------

  /** Every parent link is NIL or a node. */
  ghost predicate InRange(parent: seq<int>)
  {
    forall y :: 0 <= y < |parent| ==> NIL <= parent[y] < |parent|
  }

  /** Links are in range and ranks strictly grow from child to parent. */
  ghost predicate Ranked(parent: seq<int>, rank: seq<nat>, bound: nat)
  {
    && InRange(parent)
    && |rank| == |parent|
    && (forall y :: 0 <= y < |parent| ==> rank[y] <= bound)
    && (forall y {:trigger parent[y]} :: 0 <= y < |parent| && parent[y] != NIL ==> rank[y] < rank[parent[y]])
  }

  /** `a` is `y` itself or an ancestor of `y`: walking up the parent chain from `y` meets `a`. */
  ghost predicate Reaches(parent: seq<int>, rank: seq<nat>, bound: nat, y: nat, a: int)
    requires Ranked(parent, rank, bound) && y < |parent|
    decreases bound - rank[y]
  {
    y == a || (parent[y] != NIL && Reaches(parent, rank, bound, parent[y], a))
  }

  /** Number of parent steps from `y` up to its ancestor `a`. */
  ghost function Steps(parent: seq<int>, rank: seq<nat>, bound: nat, y: nat, a: int): nat
    requires Ranked(parent, rank, bound) && y < |parent|
    requires Reaches(parent, rank, bound, y, a)
    decreases bound - rank[y]
  {
    if y == a then 0 else 1 + Steps(parent, rank, bound, parent[y], a)
  }

  /** Walking up only meets higher ranks, so no node is its own strict ancestor. */
  lemma {:induction false} ReachesRank(parent: seq<int>, rank: seq<nat>, bound: nat, y: nat, a: int)
    requires Ranked(parent, rank, bound) && y < |parent|
    requires Reaches(parent, rank, bound, y, a)
    ensures 0 <= a < |parent| && rank[y] <= rank[a]
    ensures y != a ==> rank[y] < rank[a]
    decreases bound - rank[y]
  {
    if y != a {
      ReachesRank(parent, rank, bound, parent[y], a);
    }
  }

  /** An ancestor of an ancestor is an ancestor. */
  lemma {:induction false} ReachesTransitive(parent: seq<int>, rank: seq<nat>, bound: nat, y: nat, b: nat, a: int)
    requires Ranked(parent, rank, bound) && y < |parent| && b < |parent|
    requires Reaches(parent, rank, bound, y, b) && Reaches(parent, rank, bound, b, a)
    ensures Reaches(parent, rank, bound, y, a)
    decreases bound - rank[y]
  {
    if y != b {
      ReachesTransitive(parent, rank, bound, parent[y], b, a);
    }
  }

  /** The ancestors of a node form a chain: any two of them are ancestor-related. */
  lemma {:induction false} ReachesLinear(parent: seq<int>, rank: seq<nat>, bound: nat, y: nat, a: nat, b: nat)
    requires Ranked(parent, rank, bound) && y < |parent| && a < |parent| && b < |parent|
    requires Reaches(parent, rank, bound, y, a) && Reaches(parent, rank, bound, y, b)
    ensures Reaches(parent, rank, bound, a, b) || Reaches(parent, rank, bound, b, a)
    decreases bound - rank[y]
  {
    if y != a && y != b {
      ReachesLinear(parent, rank, bound, parent[y], a, b);
    }
  }

  /**
   * Whether `a` is reached from `y` depends only on the links below `a`: two
   * parent tables (with any ranks) that differ at most in the link of `a`
   * agree on it.  This is what lets `add` and `remove`, which relink only the
   * moved node, keep that node's subtree.
   */
  lemma {:induction false} ReachesFrame(p1: seq<int>, r1: seq<nat>, b1: nat, p2: seq<int>, r2: seq<nat>, b2: nat, y: nat, a: nat)
    requires Ranked(p1, r1, b1) && Ranked(p2, r2, b2) && |p1| == |p2| && y < |p1|
    requires forall z :: 0 <= z < |p1| && z != a ==> p1[z] == p2[z]
    ensures Reaches(p1, r1, b1, y, a) == Reaches(p2, r2, b2, y, a)
    decreases b1 - r1[y]
  {
    if y != a && p1[y] != NIL {
      ReachesFrame(p1, r1, b1, p2, r2, b2, p1[y], a);
    }
  }

  /** A node with no children is reached only from itself. */
  lemma {:induction false} ReachesChildless(parent: seq<int>, rank: seq<nat>, bound: nat, y: nat, x: nat)
    requires Ranked(parent, rank, bound) && y < |parent|
    requires forall z :: 0 <= z < |parent| ==> parent[z] != x
    requires Reaches(parent, rank, bound, y, x)
    ensures y == x
    decreases bound - rank[y]
  {
    if y != x {
      ReachesChildless(parent, rank, bound, parent[y], x);
    }
  }

  /**
   * Relinking `x` does not change the ancestors of a node whose parent chain
   * does not pass through `x`.
   */
  lemma {:induction false} ReachesAvoiding(p1: seq<int>, r1: seq<nat>, b1: nat, p2: seq<int>, r2: seq<nat>, b2: nat, x: nat, y: nat, a: int)
    requires Ranked(p1, r1, b1) && Ranked(p2, r2, b2) && |p1| == |p2| && y < |p1|
    requires forall z :: 0 <= z < |p1| && z != x ==> p1[z] == p2[z]
    requires !Reaches(p1, r1, b1, y, x)
    ensures Reaches(p1, r1, b1, y, a) == Reaches(p2, r2, b2, y, a)
    decreases b1 - r1[y]
  {
    if y != a && p1[y] != NIL {
      ReachesAvoiding(p1, r1, b1, p2, r2, b2, x, p1[y], a);
    }
  }

  /** Adding a node without parent leaves the ancestors of the old nodes as they were. */
  lemma {:induction false} ReachesGrown(parent: seq<int>, rank: seq<nat>, bound: nat, y: nat, a: int)
    requires Ranked(parent, rank, bound) && y < |parent|
    ensures Ranked(parent + [NIL], rank + [0], bound)
    ensures Reaches(parent + [NIL], rank + [0], bound, y, a) == Reaches(parent, rank, bound, y, a)
    decreases bound - rank[y]
  {
    var p := parent + [NIL];
    assert p[y] == parent[y];
    if y != a && parent[y] != NIL {
      ReachesGrown(parent, rank, bound, parent[y], a);
    }
  }

  /** A node just created is below no existing node. */
  lemma GrownLeaf(parent: seq<int>, rank: seq<nat>, bound: nat, y: nat)
    requires Ranked(parent, rank, bound) && y < |parent|
    ensures Ranked(parent + [NIL], rank + [0], bound)
    ensures !Reaches(parent + [NIL], rank + [0], bound, y, |parent|)
  {
    var p := parent + [NIL];
    ReachesGrown(parent, rank, bound, y, |parent|);
    if Reaches(p, rank + [0], bound, y, |parent|) {
      assert forall z :: 0 <= z < |p| ==> p[z] != |parent|;
      ReachesChildless(p, rank + [0], bound, y, |parent|);
    }
  }

  /**
   * Hanging `x` below `t`, where `t` is not in x's subtree, keeps every
   * ancestor of `t` and makes each of them an ancestor of `x`.
   */
  lemma ReachesHung(p1: seq<int>, r1: seq<nat>, b1: nat, p2: seq<int>, r2: seq<nat>, b2: nat, x: nat, t: nat, a: int)
    requires Ranked(p1, r1, b1) && Ranked(p2, r2, b2) && x < |p1| && t < |p1|
    requires p2 == p1[x := t] && !Reaches(p1, r1, b1, t, x)
    requires Reaches(p1, r1, b1, t, a)
    ensures Reaches(p2, r2, b2, t, a) && Reaches(p2, r2, b2, x, a)
  {
    ReachesAvoiding(p1, r1, b1, p2, r2, b2, x, t, a);
  }

  /**
   * Cutting `x` from its parent keeps every ancestor of that parent; so a
   * node strictly below `a` leaves its parent still below or at `a`.
   */
  lemma ReachesCut(p1: seq<int>, r1: seq<nat>, b1: nat, p2: seq<int>, r2: seq<nat>, b2: nat, x: nat, a: int)
    requires Ranked(p1, r1, b1) && Ranked(p2, r2, b2) && x < |p1|
    requires p2 == p1[x := NIL] && x != a && Reaches(p1, r1, b1, x, a)
    ensures p1[x] != NIL && Reaches(p2, r2, b2, p1[x], a)
  {
    var p := p1[x];
    if Reaches(p1, r1, b1, p, x) {
      ReachesRank(p1, r1, b1, p, x);
    }
    ReachesAvoiding(p1, r1, b1, p2, r2, b2, x, p, a);
  }

  // ---------------------------------------------------------------------------
  // Cached roots
  // ---------------------------------------------------------------------------

  /** A node without parent is its own root; any other node shares its parent's root. */
  ghost predicate RootsAgree(parent: seq<int>, root: seq<int>)
    requires InRange(parent)
  {
    && |root| == |parent|
    && (forall y :: 0 <= y < |parent| ==> 0 <= root[y] < |parent|)
    && (forall y {:trigger parent[y]} :: 0 <= y < |parent| ==>
         root[y] == (if parent[y] == NIL then y else root[parent[y]]))
  }

  /** The cached root of a node is the top of its tree: it has no parent and lies on the node's parent chain. */
  lemma {:induction false} RootIsTop(parent: seq<int>, rank: seq<nat>, bound: nat, root: seq<int>, y: nat)
    requires Ranked(parent, rank, bound) && RootsAgree(parent, root) && y < |parent|
    ensures parent[root[y]] == NIL && Reaches(parent, rank, bound, y, root[y])
    decreases bound - rank[y]
  {
    if parent[y] != NIL {
      RootIsTop(parent, rank, bound, root, parent[y]);
    }
  }

  /** For a node `x` without parent, the nodes whose root is `x` are exactly those of x's subtree. */
  lemma {:induction false} RootsOfTop(parent: seq<int>, rank: seq<nat>, bound: nat, root: seq<int>, x: nat, y: nat)
    requires Ranked(parent, rank, bound) && RootsAgree(parent, root)
    requires x < |parent| && y < |parent| && parent[x] == NIL
    ensures root[y] == x <==> Reaches(parent, rank, bound, y, x)
    decreases bound - rank[y]
  {
    if parent[y] != NIL {
      RootsOfTop(parent, rank, bound, root, x, parent[y]);
    }
  }

  // ---------------------------------------------------------------------------
  // Child lists
  // ---------------------------------------------------------------------------

  function HeadOf(ks: seq<nat>): int
  {
    if ks == [] then NIL else ks[0]
  }

  function LastOf(ks: seq<nat>): int
  {
    if ks == [] then NIL else ks[|ks| - 1]
  }

  predicate NoDup(ks: seq<nat>)
  {
    forall i, j :: 0 <= i < j < |ks| ==> ks[i] != ks[j]
  }

  /** The list `ks` with every occurrence of `x` taken out. */
  function Without(ks: seq<nat>, x: nat): (r: seq<nat>)
    ensures forall y :: y in r <==> y in ks && y != x
    ensures |r| <= |ks|
  {
    if ks == [] then []
    else if ks[0] == x then Without(ks[1..], x)
    else [ks[0]] + Without(ks[1..], x)
  }

  /** In a list without duplicates, taking out the element at `i` splices it out. */
  lemma {:induction false} WithoutAt(ks: seq<nat>, i: nat)
    requires NoDup(ks) && i < |ks|
    ensures Without(ks, ks[i]) == ks[..i] + ks[i + 1..]
  {
    if i == 0 {
      WithoutAbsent(ks[1..], ks[0]);
    } else {
      assert ks[1..][i - 1] == ks[i];
      WithoutAt(ks[1..], i - 1);
      assert ks[1..][..i - 1] == ks[1..i];
      assert ks[1..][i..] == ks[i + 1..];
      assert [ks[0]] + ks[1..i] == ks[..i];
    }
  }

  lemma {:induction false} WithoutAbsent(ks: seq<nat>, x: nat)
    requires x !in ks
    ensures Without(ks, x) == ks
  {
    if ks != [] {
      WithoutAbsent(ks[1..], x);
    }
  }

  /** Where a node ends up after being detached: out of its old parent's list. */
  ghost function Detach(kids: seq<seq<nat>>, from: int, x: nat): seq<seq<nat>>
  {
    if 0 <= from < |kids| then kids[from := Without(kids[from], x)] else kids
  }

  /** Where a node ends up after being attached: last in its new parent's list. */
  ghost function Attach(kids: seq<seq<nat>>, to: nat, x: nat): seq<seq<nat>>
    requires to < |kids|
  {
    kids[to := kids[to] + [x]]
  }


  /**
   * `ks` is threaded by `next` from its head to its last element and by
   * `prev` back again: the head's `prev` is `before`, each member's `next`
   * is the member after it and the last one's is NIL.
   */
  ghost predicate Chain(ks: seq<nat>, prev: seq<int>, next: seq<int>, before: int)
    decreases |ks|
  {
    ks == [] ||
    (&& ks[0] < |prev| && ks[0] < |next|
     && prev[ks[0]] == before && next[ks[0]] == HeadOf(ks[1..])
     && Chain(ks[1..], prev, next, ks[0]))
  }

  /** A chain only depends on the links of its own members. */
  lemma {:induction false} ChainFrame(ks: seq<nat>, prev: seq<int>, next: seq<int>, prev': seq<int>, next': seq<int>, before: int)
    requires Chain(ks, prev, next, before)
    requires forall k :: 0 <= k < |ks| ==>
               ks[k] < |prev| && ks[k] < |next| && ks[k] < |prev'| && ks[k] < |next'| &&
               prev'[ks[k]] == prev[ks[k]] && next'[ks[k]] == next[ks[k]]
    ensures Chain(ks, prev', next', before)
    decreases |ks|
  {
    if ks != [] {
      ChainFrame(ks[1..], prev, next, prev', next', ks[0]);
    }
  }

  /** The neighbours of the `i`-th member of a chain are the members before and after it. */
  lemma {:induction false} ChainNeighbours(ks: seq<nat>, prev: seq<int>, next: seq<int>, before: int, i: nat)
    requires Chain(ks, prev, next, before) && i < |ks|
    ensures ks[i] < |prev| && ks[i] < |next|
    ensures prev[ks[i]] == if i == 0 then before else ks[i - 1]
    ensures next[ks[i]] == if i == |ks| - 1 then NIL else ks[i + 1]
    decreases |ks|
  {
    if i > 0 {
      ChainNeighbours(ks[1..], prev, next, ks[0], i - 1);
    }
  }

  /** A chain is made of its first part followed by the rest, hanging from the first part's last member. */
  lemma {:induction false} ChainSplit(ks: seq<nat>, prev: seq<int>, next: seq<int>, before: int, i: nat)
    requires Chain(ks, prev, next, before) && 0 < i < |ks|
    ensures Chain(ks[i..], prev, next, ks[i - 1])
    decreases i
  {
    if i > 1 {
      ChainSplit(ks[1..], prev, next, ks[0], i - 1);
      assert ks[1..][i - 1..] == ks[i..];
    }
  }

  /** `prev` after `x` is taken out of its chain: its successor points back to its predecessor. */
  ghost function SplicedPrev(prev: seq<int>, next: seq<int>, x: nat): seq<int>
    requires x < |prev| && x < |next| && NIL <= next[x] < |prev|
  {
    var nx := next[x];
    (if nx != NIL then prev[nx := prev[x]] else prev)[x := NIL]
  }

  /** `next` after `x` is taken out of its chain: its predecessor points on to its successor. */
  ghost function SplicedNext(prev: seq<int>, next: seq<int>, x: nat): seq<int>
    requires x < |prev| && x < |next| && NIL <= prev[x] < |next|
  {
    var p := prev[x];
    (if p != NIL then next[p := next[x]] else next)[x := NIL]
  }

  /** Splicing out the head of a chain leaves the rest hanging from the old head's `before`. */
  lemma SpliceHead(ks: seq<nat>, prev: seq<int>, next: seq<int>, before: int)
    requires Chain(ks, prev, next, before) && NoDup(ks) && before !in ks && ks != []
    requires forall k :: 0 <= k < |ks| ==> ks[k] < |prev| && ks[k] < |next|
    requires NIL <= before < |next|
    ensures prev[ks[0]] == before && NIL <= next[ks[0]] < |prev|
    ensures Chain(ks[1..], SplicedPrev(prev, next, ks[0]), SplicedNext(prev, next, ks[0]), before)
  {
    var x, rest := ks[0], ks[1..];
    var prev2, next2 := SplicedPrev(prev, next, x), SplicedNext(prev, next, x);
    if rest != [] {
      var nx := rest[0];
      assert Chain(rest, prev, next, x);
      assert prev2[nx] == before && next2[nx] == next[nx];
      forall k | 0 <= k < |rest[1..]|
        ensures prev2[rest[1..][k]] == prev[rest[1..][k]] && next2[rest[1..][k]] == next[rest[1..][k]]
      {
        assert rest[1..][k] == ks[k + 2];
      }
      ChainFrame(rest[1..], prev, next, prev2, next2, nx);
    }
  }

  /** Splicing out a member after the head: the head stays in front of the spliced rest. */
  lemma SpliceCons(ks: seq<nat>, prev: seq<int>, next: seq<int>, before: int, i: nat)
    requires Chain(ks, prev, next, before) && NoDup(ks) && 0 < i < |ks|
    requires forall k :: 0 <= k < |ks| ==> ks[k] < |prev| && ks[k] < |next|
    requires prev[ks[i]] == ks[i - 1] && next[ks[i]] == (if i == |ks| - 1 then NIL else ks[i + 1])
    requires Chain(ks[1..][..i - 1] + ks[1..][i..], SplicedPrev(prev, next, ks[i]), SplicedNext(prev, next, ks[i]), ks[0])
    ensures Chain(ks[..i] + ks[i + 1..], SplicedPrev(prev, next, ks[i]), SplicedNext(prev, next, ks[i]), before)
  {
    var x, rest := ks[i], ks[1..];
    var r := rest[..i - 1] + rest[i..];
    assert ks[..i] + ks[i + 1..] == [ks[0]] + r;
    assert ([ks[0]] + r)[1..] == r;
    assert ks[0] != x && ks[0] != next[x];
    if i > 1 {
      assert r[0] == ks[1];
    }
  }

  /**
   * Splicing the `i`-th member out, by pointing its predecessor's `next` at
   * its successor and its successor's `prev` at its predecessor, leaves a
   * chain of the remaining members.
   */
  lemma {:induction false} ChainSplice(ks: seq<nat>, prev: seq<int>, next: seq<int>, before: int, i: nat)
    requires Chain(ks, prev, next, before) && NoDup(ks) && before !in ks && i < |ks|
    requires forall k :: 0 <= k < |ks| ==> ks[k] < |prev| && ks[k] < |next|
    requires NIL <= before < |next|
    ensures prev[ks[i]] == (if i == 0 then before else ks[i - 1]) && NIL <= prev[ks[i]] < |next|
    ensures next[ks[i]] == (if i == |ks| - 1 then NIL else ks[i + 1]) && NIL <= next[ks[i]] < |prev|
    ensures Chain(ks[..i] + ks[i + 1..], SplicedPrev(prev, next, ks[i]), SplicedNext(prev, next, ks[i]), before)
    decreases |ks|
  {
    ChainNeighbours(ks, prev, next, before, i);
    if i == 0 {
      SpliceHead(ks, prev, next, before);
      assert ks[..i] + ks[i + 1..] == ks[1..];
    } else {
      assert ks[1..][i - 1] == ks[i];
      ChainSplice(ks[1..], prev, next, ks[0], i - 1);
      SpliceCons(ks, prev, next, before, i);
    }
  }

  /** `prev` and `next` after `x` is linked in after `l` as the new last member of a chain. */
  ghost function AppendedPrev(prev: seq<int>, x: nat, l: int): seq<int>
    requires x < |prev|
  {
    prev[x := l]
  }

  ghost function AppendedNext(next: seq<int>, x: nat, l: int): seq<int>
    requires x < |next| && NIL <= l < |next|
  {
    if l != NIL then next[x := NIL][l := x] else next[x := NIL]
  }

  /** Linking a non-member after the last member of a chain (or after `before`, when empty) extends it. */
  lemma {:induction false} ChainAppend(ks: seq<nat>, prev: seq<int>, next: seq<int>, before: int, x: nat)
    requires Chain(ks, prev, next, before) && NoDup(ks) && x !in ks && x != before
    requires forall k :: 0 <= k < |ks| ==> ks[k] < |prev| && ks[k] < |next|
    requires NIL <= before < |next| && x < |prev| && x < |next|
    ensures var l := if ks == [] then before else ks[|ks| - 1];
      Chain(ks + [x], AppendedPrev(prev, x, l), AppendedNext(next, x, l), before)
    decreases |ks|
  {
    var l := if ks == [] then before else ks[|ks| - 1];
    var prev2, next2 := AppendedPrev(prev, x, l), AppendedNext(next, x, l);
    if ks == [] {
      assert ([x])[1..] == [];
    } else {
      var rest := ks[1..];
      ChainAppend(rest, prev, next, ks[0], x);
      assert (ks + [x])[1..] == rest + [x];
      if rest != [] {
        assert ks[0] != l;
        assert rest[|rest| - 1] == l;
      }
    }
  }

  // ---------------------------------------------------------------------------
  // Visits
  // ---------------------------------------------------------------------------

  /** One call of the `each` callback: the node and its depth below the node `each` was called on. */
  datatype Visit = Visit(node: nat, depth: nat)

  /** The nodes of a list of visits, in order. */
  function Nodes(vs: seq<Visit>): (ns: seq<nat>)
    ensures |ns| == |vs| && forall i :: 0 <= i < |vs| ==> ns[i] == vs[i].node
  {
    seq(|vs|, i requires 0 <= i < |vs| => vs[i].node)
  }

  lemma NodesAppend(a: seq<Visit>, b: seq<Visit>)
    ensures Nodes(a + b) == Nodes(a) + Nodes(b)
  {
    assert forall i :: 0 <= i < |a + b| ==> Nodes(a + b)[i] == (Nodes(a) + Nodes(b))[i];
  }

  lemma NoDupAppend(a: seq<nat>, b: seq<nat>)
    requires NoDup(a) && NoDup(b)
    requires forall y :: y in a ==> y !in b
    ensures NoDup(a + b)
  {
    forall i, j | 0 <= i < j < |a + b| ensures (a + b)[i] != (a + b)[j] {
      if j >= |a| && i < |a| {
        assert (a + b)[i] in a && (a + b)[j] in b;
      }
    }
  }

  // ---------------------------------------------------------------------------
  // The link structure of all nodes, as one value
  // ---------------------------------------------------------------------------

  /**
   * The link fields of every node, plus the ghost child lists and ranks.
   * The class below keeps these in separate fields; this value gathers them
   * so that the shape invariant and its preservation can be stated and
   * proved apart from the heap.
   */
  datatype Links = Links(parent: seq<int>, prev: seq<int>, next: seq<int>, first: seq<int>, last: seq<int>,
                         count: seq<nat>, kids: seq<seq<nat>>, rank: seq<nat>, bound: nat)
  {
    /** Every per-node table has an entry for every node. */
    ghost predicate Sized()
    {
      var n := |parent|;
      |prev| == n && |next| == n && |first| == n && |last| == n && |count| == n && |kids| == n
    }

    /**
     * The child list of `q` is a chain from `first[q]` to `last[q]` without
     * repeats, and `count[q]` is its length.
     */
    ghost predicate ListAt(q: nat)
    {
      && q < |kids| && q < |count| && q < |first| && q < |last|
      && count[q] == |kids[q]|
      && first[q] == HeadOf(kids[q])
      && last[q] == LastOf(kids[q])
      && NoDup(kids[q])
      && Chain(kids[q], prev, next, NIL)
    }

    /**
     * Every child list is well formed; its members point back to their
     * parent; every node with a parent is in that parent's list and a node
     * without one has no siblings; and the ranks make the parent chains
     * acyclic.
     */
    ghost predicate Shaped()
    {
      var n := |parent|;
      && Sized()
      && Ranked(parent, rank, bound)
      && (forall q :: 0 <= q < n ==> ListAt(q))
      && (forall q, i :: 0 <= q < n && 0 <= i < |kids[q]| ==> kids[q][i] < n && parent[kids[q][i]] == q)
      && (forall y :: 0 <= y < n && parent[y] == NIL ==> prev[y] == NIL && next[y] == NIL)
      && (forall y {:trigger kids[parent[y]]} :: 0 <= y < n && parent[y] != NIL ==> y in kids[parent[y]])
    }

    /** The links after one more detached node is created. */
    ghost function Grown(): Links
    {
      Links(parent + [NIL], prev + [NIL], next + [NIL], first + [NIL], last + [NIL], count + [0],
            kids + [[]], rank + [0], bound)
    }

    /** The links after `self.remove(x)` has spliced `x` out of self's list. */
    ghost function Unlinked(self: nat, x: nat): Links
      requires Sized() && self < |parent| && x < |parent|
      requires NIL <= prev[x] < |parent| && NIL <= next[x] < |parent|
    {
      var p, nx := prev[x], next[x];
      Links(parent[x := NIL], SplicedPrev(prev, next, x), SplicedNext(prev, next, x),
            if p != NIL then first else first[self := nx],
            if nx != NIL then last else last[self := p],
            count[self := if count[self] >= 1 then count[self] - 1 else 0],
            kids[self := Without(kids[self], x)], rank, bound)
    }

    /** The links after `self.add(x)` has appended the detached `x` to self's list, with new ranks. */
    ghost function Appended(self: nat, x: nat, rank': seq<nat>, bound': nat): Links
      requires Sized() && self < |parent| && x < |parent| && NIL <= last[self] < |parent|
    {
      var l := last[self];
      Links(parent[x := self], AppendedPrev(prev, x, l), AppendedNext(next, x, l),
            if first[self] == NIL then first[self := x] else first, last[self := x],
            count[self := count[self] + 1], kids[self := kids[self] + [x]], rank', bound')
    }

    /**
     * Ranks after `x` is hung below `self`: the subtree of `x` keeps its
     * ranks and every other node is lifted above all of them.
     */
    ghost function Reranked(x: nat): (r: seq<nat>)
      requires Shaped() && x < |parent|
      ensures |r| == |rank|
    {
      seq(|rank|, y requires 0 <= y < |rank| =>
        if Reaches(parent, rank, bound, y, x) then rank[y] else rank[y] + rank[x] + 1)
    }

    /** Number of nodes in the subtree of `x`. */
    ghost function Size(x: nat): nat
      requires Shaped() && x < |parent|
      decreases rank[x], 1, 0
    {
      1 + SizeOfKids(x, |kids[x]|)
    }

    /** Number of nodes in the subtrees of the first `j` children of `x`. */
    ghost function SizeOfKids(x: nat, j: nat): nat
      requires Shaped() && x < |parent| && j <= |kids[x]|
      decreases rank[x], 0, j
    {
      if j == 0 then 0 else SizeOfKids(x, j - 1) + Size(kids[x][j - 1])
    }

    /** Number of nodes in the subtrees of all nodes on a stack. */
    ghost function SizeOfStack(stack: seq<nat>): nat
      requires Shaped() && forall i :: 0 <= i < |stack| ==> stack[i] < |parent|
    {
      if stack == [] then 0 else SizeOfStack(stack[..|stack| - 1]) + Size(stack[|stack| - 1])
    }

    /** Pre-order of the subtree of `x`, children left to right, with `x` at depth `d`. */
    ghost function PreOrder(x: nat, d: nat): seq<Visit>
      requires Shaped() && x < |parent|
      decreases rank[x], 1, 0
    {
      [Visit(x, d)] + PreOrderFrom(x, 0, d)
    }

    /** Pre-order of the subtrees of the children of `x` from the `j`-th on, the children at depth `d + 1`. */
    ghost function PreOrderFrom(x: nat, j: nat, d: nat): seq<Visit>
      requires Shaped() && x < |parent| && j <= |kids[x]|
      decreases rank[x], 0, |kids[x]| - j
    {
      if j == |kids[x]| then [] else PreOrder(kids[x][j], d + 1) + PreOrderFrom(x, j + 1, d)
    }

    /** What a traversal stack still has to visit: the subtree of its top entry first, then the rest. */
    ghost function Pending(stack: seq<Visit>): seq<Visit>
      requires Shaped() && forall i :: 0 <= i < |stack| ==> stack[i].node < |parent|
    {
      if stack == [] then []
      else PreOrder(stack[|stack| - 1].node, stack[|stack| - 1].depth) + Pending(stack[..|stack| - 1])
    }

    /** Some node on the stack is `y` or an ancestor of `y`. */
    ghost predicate Covered(stack: seq<nat>, y: nat)
      requires Shaped() && y < |parent| && forall i :: 0 <= i < |stack| ==> stack[i] < |parent|
    {
      exists i :: 0 <= i < |stack| && Reaches(parent, rank, bound, y, stack[i])
    }

    /** The child of `x` on the way up from its proper descendant `y`. */
    ghost function ChildToward(y: nat, x: nat): (c: nat)
      requires Shaped() && y < |parent| && x < |parent|
      requires y != x && Reaches(parent, rank, bound, y, x)
      ensures c < |parent| && parent[c] == x && Reaches(parent, rank, bound, y, c)
      decreases bound - rank[y]
    {
      if parent[y] == x then y else ChildToward(parent[y], x)
    }
  }

  /** Every link of a node is NIL or a node. */
  lemma LinkRange(s: Links, y: nat)
    requires s.Shaped() && y < |s.parent|
    ensures NIL <= s.prev[y] < |s.parent| && NIL <= s.next[y] < |s.parent|
    ensures NIL <= s.first[y] < |s.parent| && NIL <= s.last[y] < |s.parent|
  {
    var p := s.parent[y];
    assert s.ListAt(y);
    if p != NIL {
      assert s.ListAt(p) && y in s.kids[p];
      var i :| 0 <= i < |s.kids[p]| && s.kids[p][i] == y;
      ChainNeighbours(s.kids[p], s.prev, s.next, NIL, i);
    }
  }

  /** Creating a node keeps the shape. */
  lemma GrownShaped(s: Links)
    requires s.Shaped()
    ensures s.Grown().Shaped()
  {
    var t, n := s.Grown(), |s.parent|;
    forall q | 0 <= q < n + 1 ensures t.ListAt(q) {
      if q < n {
        assert s.ListAt(q);
        ChainFrame(s.kids[q], s.prev, s.next, t.prev, t.next, NIL);
      }
    }
    forall q, i | 0 <= q < n + 1 && 0 <= i < |t.kids[q]|
      ensures t.kids[q][i] < n + 1 && t.parent[t.kids[q][i]] == q
    {
      assert q < n && t.kids[q][i] == s.kids[q][i];
    }
    forall y | 0 <= y < n + 1 && t.parent[y] != NIL ensures y in t.kids[t.parent[y]] {
      assert y < n && t.parent[y] == s.parent[y] && y in s.kids[s.parent[y]];
    }
  }


  /** Where a child sits in its parent's list, and who its neighbours are. */
  lemma ChildIndex(s: Links, self: nat, x: nat) returns (i: nat)
    requires s.Shaped() && self < |s.parent| && x < |s.parent| && s.parent[x] == self
    ensures i < |s.kids[self]| && s.kids[self][i] == x
    ensures s.prev[x] == if i == 0 then NIL else s.kids[self][i - 1]
    ensures s.next[x] == if i == |s.kids[self]| - 1 then NIL else s.kids[self][i + 1]
  {
    assert s.ListAt(self) && x in s.kids[s.parent[x]];
    i :| 0 <= i < |s.kids[self]| && s.kids[self][i] == x;
    ChainNeighbours(s.kids[self], s.prev, s.next, NIL, i);
  }

  /** Taking the `i`-th element out of a list without repeats: what is left, and its ends. */
  lemma SpliceList(ks: seq<nat>, i: nat)
    requires NoDup(ks) && i < |ks|
    ensures var ls := ks[..i] + ks[i + 1..];
      && NoDup(ls) && |ls| == |ks| - 1
      && HeadOf(ls) == (if i == 0 then HeadOf(ks[1..]) else ks[0])
      && LastOf(ls) == (if i < |ks| - 1 then ks[|ks| - 1] else if i == 0 then NIL else ks[i - 1])
  {
    var ls := ks[..i] + ks[i + 1..];
    assert forall k :: 0 <= k < |ls| ==> ls[k] == if k < i then ks[k] else ks[k + 1];
  }

  /** Removing the `i`-th child `x` from self's list leaves a well-formed list. */
  lemma UnlinkedOwnList(s: Links, self: nat, x: nat, i: nat)
    requires s.Sized() && self < |s.parent| && x < |s.parent| && s.ListAt(self)
    requires i < |s.kids[self]| && s.kids[self][i] == x
    requires forall k :: 0 <= k < |s.kids[self]| ==> s.kids[self][k] < |s.parent|
    ensures NIL <= s.prev[x] < |s.parent| && NIL <= s.next[x] < |s.parent|
    ensures s.Unlinked(self, x).ListAt(self)
  {
    var ks := s.kids[self];
    ChainSplice(ks, s.prev, s.next, NIL, i);
    WithoutAt(ks, i);
    SpliceList(ks, i);
  }

  /** A list stays well formed when its cached fields and its members' links stay as they were. */
  lemma ListFrame(s: Links, t: Links, q: nat)
    requires s.ListAt(q) && q < |t.kids| && q < |t.count| && q < |t.first| && q < |t.last|
    requires t.kids[q] == s.kids[q] && t.count[q] == s.count[q] && t.first[q] == s.first[q] && t.last[q] == s.last[q]
    requires forall k :: 0 <= k < |s.kids[q]| ==>
               s.kids[q][k] < |s.prev| && s.kids[q][k] < |s.next| &&
               s.kids[q][k] < |t.prev| && s.kids[q][k] < |t.next| &&
               t.prev[s.kids[q][k]] == s.prev[s.kids[q][k]] && t.next[s.kids[q][k]] == s.next[s.kids[q][k]]
    ensures t.ListAt(q)
  {
    ChainFrame(s.kids[q], s.prev, s.next, t.prev, t.next, NIL);
  }

  /** Removing `x` from self's list leaves every list that does not hold `x` or its neighbours as it was. */
  lemma UnlinkedOtherList(s: Links, self: nat, x: nat, q: nat)
    requires s.Sized() && self < |s.parent| && x < |s.parent| && q < |s.parent| && q != self
    requires NIL <= s.prev[x] < |s.parent| && NIL <= s.next[x] < |s.parent|
    requires s.ListAt(q)
    requires forall k :: 0 <= k < |s.kids[q]| ==>
               s.kids[q][k] < |s.parent| && s.kids[q][k] != x && s.kids[q][k] != s.prev[x] && s.kids[q][k] != s.next[x]
    ensures s.Unlinked(self, x).ListAt(q)
  {
    ListFrame(s, s.Unlinked(self, x), q);
  }

  /** Removing a child keeps every list member pointing back at its parent, and every child listed. */
  lemma UnlinkedMembers(s: Links, self: nat, x: nat)
    requires s.Shaped() && self < |s.parent| && x < |s.parent| && s.parent[x] == self
    ensures NIL <= s.prev[x] < |s.parent| && NIL <= s.next[x] < |s.parent|
    ensures var t := s.Unlinked(self, x);
      && (forall q, k :: 0 <= q < |s.parent| && 0 <= k < |t.kids[q]| ==> t.kids[q][k] < |s.parent| && t.parent[t.kids[q][k]] == q)
      && (forall y :: 0 <= y < |s.parent| && t.parent[y] != NIL ==> y in t.kids[t.parent[y]])
  {
    LinkRange(s, x);
    var t, n := s.Unlinked(self, x), |s.parent|;
    forall q, k | 0 <= q < n && 0 <= k < |t.kids[q]|
      ensures t.kids[q][k] < n && t.parent[t.kids[q][k]] == q
    {
      if q == self {
        assert t.kids[q][k] in s.kids[self];
      }
    }
    forall y | 0 <= y < n && t.parent[y] != NIL ensures y in t.kids[t.parent[y]] {
      assert y in s.kids[s.parent[y]];
    }
  }

  /** A child is not its own parent and is counted in its parent's list. */
  lemma ChildCounted(s: Links, self: nat, x: nat)
    requires s.Shaped() && self < |s.parent| && x < |s.parent| && s.parent[x] == self
    ensures x != self && s.count[self] >= 1 && x in s.kids[self]
  {
    assert s.ListAt(self);
    assert s.rank[x] < s.rank[self];
  }

  /** Removing a child keeps the shape. */
  lemma UnlinkedShaped(s: Links, self: nat, x: nat)
    requires s.Shaped() && self < |s.parent| && x < |s.parent| && s.parent[x] == self
    ensures NIL <= s.prev[x] < |s.parent| && NIL <= s.next[x] < |s.parent|
    ensures s.Unlinked(self, x).Shaped()
  {
    LinkRange(s, x);
    var t, n := s.Unlinked(self, x), |s.parent|;
    var i := ChildIndex(s, self, x);
    forall q | 0 <= q < n ensures t.ListAt(q) {
      if q == self {
        assert s.ListAt(self);
        UnlinkedOwnList(s, self, x, i);
      } else {
        assert s.ListAt(q);
        forall k | 0 <= k < |s.kids[q]| ensures s.kids[q][k] != x && s.kids[q][k] != s.prev[x] && s.kids[q][k] != s.next[x] {
        }
        UnlinkedOtherList(s, self, x, q);
      }
    }
    UnlinkedMembers(s, self, x);
    forall y | 0 <= y < n && t.parent[y] == NIL ensures t.prev[y] == NIL && t.next[y] == NIL {
      if y != x {
        assert s.parent[y] == NIL;
      }
    }
  }

  /** Appending the non-member `x` to self's list leaves a well-formed list ending in `x`. */
  lemma AppendedOwnList(s: Links, self: nat, x: nat, rank': seq<nat>, bound': nat)
    requires s.Sized() && self < |s.parent| && x < |s.parent| && s.ListAt(self)
    requires NIL <= s.last[self] < |s.parent| && x !in s.kids[self]
    requires forall k :: 0 <= k < |s.kids[self]| ==> s.kids[self][k] < |s.parent|
    ensures s.Appended(self, x, rank', bound').ListAt(self)
  {
    var ks := s.kids[self];
    ChainAppend(ks, s.prev, s.next, NIL, x);
    var ls := ks + [x];
    assert NoDup(ls) by {
      forall a, b | 0 <= a < b < |ls| ensures ls[a] != ls[b] {
        if b == |ks| {
          assert ls[a] in ks;
        }
      }
    }
  }

  /** Appending `x` to self's list leaves every list that holds neither `x` nor self's old last child as it was. */
  lemma AppendedOtherList(s: Links, self: nat, x: nat, q: nat, rank': seq<nat>, bound': nat)
    requires s.Sized() && self < |s.parent| && x < |s.parent| && q < |s.parent| && q != self
    requires NIL <= s.last[self] < |s.parent| && s.ListAt(q)
    requires forall k :: 0 <= k < |s.kids[q]| ==>
               s.kids[q][k] < |s.parent| && s.kids[q][k] != x && s.kids[q][k] != s.last[self]
    ensures s.Appended(self, x, rank', bound').ListAt(q)
  {
    ListFrame(s, s.Appended(self, x, rank', bound'), q);
  }

  /**
   * Appending the detached node `x` to self's list keeps the shape, given
   * ranks that grow along the new parent links.
   */
  lemma AppendedShaped(s: Links, self: nat, x: nat, rank': seq<nat>, bound': nat)
    requires s.Shaped() && self < |s.parent| && x < |s.parent| && s.parent[x] == NIL
    requires Ranked(s.parent[x := self], rank', bound')
    ensures NIL <= s.last[self] < |s.parent|
    ensures s.Appended(self, x, rank', bound').Shaped()
  {
    LinkRange(s, self);
    var t, n := s.Appended(self, x, rank', bound'), |s.parent|;
    var ks, l := s.kids[self], s.last[self];
    assert s.ListAt(self);
    assert x !in ks;
    assert l != NIL ==> s.parent[l] == self;
    forall q | 0 <= q < n ensures t.ListAt(q) {
      if q == self {
        AppendedOwnList(s, self, x, rank', bound');
      } else {
        assert s.ListAt(q);
        forall k | 0 <= k < |s.kids[q]| ensures s.kids[q][k] != x && s.kids[q][k] != l {
        }
        AppendedOtherList(s, self, x, q, rank', bound');
      }
    }
    AppendedMembers(s, self, x, rank', bound');
  }

  /** Appending the detached `x` keeps every list member pointing back at its parent, and every child listed. */
  lemma AppendedMembers(s: Links, self: nat, x: nat, rank': seq<nat>, bound': nat)
    requires s.Shaped() && self < |s.parent| && x < |s.parent| && s.parent[x] == NIL
    requires NIL <= s.last[self] < |s.parent|
    ensures var t := s.Appended(self, x, rank', bound');
      && (forall q, k :: 0 <= q < |s.parent| && 0 <= k < |t.kids[q]| ==> t.kids[q][k] < |s.parent| && t.parent[t.kids[q][k]] == q)
      && (forall y :: 0 <= y < |s.parent| && t.parent[y] != NIL ==> y in t.kids[t.parent[y]])
  {
    var t, n := s.Appended(self, x, rank', bound'), |s.parent|;
    var ks := s.kids[self];
    forall q, k | 0 <= q < n && 0 <= k < |t.kids[q]|
      ensures t.kids[q][k] < n && t.parent[t.kids[q][k]] == q
    {
      if q == self && k < |ks| {
        assert t.kids[q][k] == ks[k];
      }
    }
    forall y | 0 <= y < n && t.parent[y] != NIL ensures y in t.kids[t.parent[y]] {
      if y != x {
        assert y in s.kids[s.parent[y]];
      }
    }
  }

  /**
   * Hanging `x` below `self`, where `self` is not in x's subtree, with the
   * ranks lifted by `Reranked` keeps ranks growing along every parent link.
   */
  lemma {:induction false} RerankedRanked(s: Links, self: nat, x: nat)
    requires s.Shaped() && self < |s.parent| && x < |s.parent|
    requires !Reaches(s.parent, s.rank, s.bound, self, x)
    ensures Ranked(s.parent[x := self], s.Reranked(x), s.bound + s.rank[x] + 1)
  {
    var p', r', b' := s.parent[x := self], s.Reranked(x), s.bound + s.rank[x] + 1;
    forall y | 0 <= y < |p'| && p'[y] != NIL ensures r'[y] < r'[p'[y]] {
      if y != x {
        assert Reaches(s.parent, s.rank, s.bound, y, x) == Reaches(s.parent, s.rank, s.bound, s.parent[y], x);
      }
    }
  }

  /** A node without a parent is not the last child of anyone. */
  lemma LastNotDetached(s: Links, self: nat, x: nat)
    requires s.Shaped() && self < |s.parent| && x < |s.parent| && s.parent[x] == NIL
    ensures NIL <= s.last[self] < |s.parent| && s.last[self] != x && s.last[self] == LastOf(s.kids[self])
  {
    assert s.ListAt(self);
    if s.kids[self] != [] {
      assert s.parent[s.kids[self][|s.kids[self]| - 1]] == self;
    }
  }

  /** Ranks that allow hanging `x` below `self`, for `self` outside x's subtree. */
  lemma RanksForAttach(s: Links, self: nat, x: nat) returns (rank': seq<nat>, bound': nat)
    requires s.Shaped() && self < |s.parent| && x < |s.parent|
    requires !Reaches(s.parent, s.rank, s.bound, self, x)
    ensures Ranked(s.parent[x := self], rank', bound')
  {
    rank', bound' := s.Reranked(x), s.bound + s.rank[x] + 1;
    RerankedRanked(s, self, x);
  }

  // ---------------------------------------------------------------------------
  // Subtrees and their pre-order
  // ---------------------------------------------------------------------------

  /** Pushing an entry puts its whole subtree in front of what was pending. */
  lemma PendingPush(s: Links, stack: seq<Visit>, c: nat, d: nat)
    requires s.Shaped() && c < |s.parent|
    requires forall i :: 0 <= i < |stack| ==> stack[i].node < |s.parent|
    ensures s.Pending(stack + [Visit(c, d)]) == s.PreOrder(c, d) + s.Pending(stack)
  {
    assert (stack + [Visit(c, d)])[..|stack|] == stack;
  }

  /** Popping the top entry of a stack visits it, then leaves its children's subtrees pending. */
  lemma PendingPop(s: Links, rest: seq<Visit>, v: Visit)
    requires s.Shaped() && v.node < |s.parent|
    requires forall i :: 0 <= i < |rest| ==> rest[i].node < |s.parent|
    ensures s.Pending(rest + [v]) == [v] + (s.PreOrderFrom(v.node, 0, v.depth) + s.Pending(rest))
  {
    PendingPush(s, rest, v.node, v.depth);
    ConsAssoc(v, s.PreOrderFrom(v.node, 0, v.depth), s.Pending(rest));
  }

  lemma ConsAssoc(v: Visit, a: seq<Visit>, b: seq<Visit>)
    ensures [v] + a + b == [v] + (a + b)
  {
  }

  /**
   * One round of the traversal loop: popping `v` off `rest + [v]` and pushing
   * its children onto `rest`, giving `pushed`, moves `v` from what is still
   * to visit to what was visited, and leaves less to visit.
   */
  lemma EachStep(s: Links, visits: seq<Visit>, rest: seq<Visit>, v: Visit, pushed: seq<Visit>, all: seq<Visit>)
    requires s.Shaped() && v.node < |s.parent|
    requires forall i :: 0 <= i < |rest| ==> rest[i].node < |s.parent|
    requires forall i :: 0 <= i < |pushed| ==> pushed[i].node < |s.parent|
    requires visits + s.Pending(rest + [v]) == all
    requires s.Pending(pushed) == s.PreOrderFrom(v.node, 0, v.depth) + s.Pending(rest)
    ensures (visits + [v]) + s.Pending(pushed) == all
    ensures |s.Pending(pushed)| < |s.Pending(rest + [v])|
  {
    PendingPop(s, rest, v);
    ShiftVisit(visits, v, s.Pending(pushed), s.Pending(rest + [v]), all);
  }

  /** Moving the head of what is left to the end of what is done keeps the whole. */
  lemma ShiftVisit(done: seq<Visit>, v: Visit, left: seq<Visit>, before: seq<Visit>, all: seq<Visit>)
    requires before == [v] + left && done + before == all
    ensures (done + [v]) + left == all && |left| < |before|
  {
    assert done + ([v] + left) == (done + [v]) + left;
  }

  /**
   * Pushing the child before the `j`-th of `x` onto a stack whose pending
   * visits are the subtrees of x's children from the `j`-th on, followed by
   * those of `rest`, adds that child's subtree in front.
   */
  lemma PendingPushChild(s: Links, stack: seq<Visit>, rest: seq<Visit>, x: nat, j: nat, d: nat)
    requires s.Shaped() && x < |s.parent| && 0 < j <= |s.kids[x]|
    requires forall i :: 0 <= i < |stack| ==> stack[i].node < |s.parent|
    requires forall i :: 0 <= i < |rest| ==> rest[i].node < |s.parent|
    requires s.Pending(stack) == s.PreOrderFrom(x, j, d) + s.Pending(rest)
    ensures s.Pending(stack + [Visit(s.kids[x][j - 1], d + 1)]) == s.PreOrderFrom(x, j - 1, d) + s.Pending(rest)
  {
    PendingPush(s, stack, s.kids[x][j - 1], d + 1);
  }

  /** Stepping back along x's child list: the child before the j-th is its `prev`. */
  lemma PrevChild(s: Links, x: nat, j: nat)
    requires s.Shaped() && x < |s.parent| && 0 < j <= |s.kids[x]|
    ensures s.kids[x][j - 1] < |s.parent|
    ensures s.prev[s.kids[x][j - 1]] == if j == 1 then NIL else s.kids[x][j - 2]
  {
    assert s.ListAt(x);
    ChainNeighbours(s.kids[x], s.prev, s.next, NIL, j - 1);
  }

  /** The walk over x's children starts at the last one, with nothing left after it. */
  lemma PushChildrenStart(s: Links, x: nat, d: nat)
    requires s.Shaped() && x < |s.parent|
    ensures s.last[x] == LastOf(s.kids[x]) && s.PreOrderFrom(x, |s.kids[x]|, d) == []
  {
    assert s.ListAt(x);
  }

  /** Every proper descendant of `x` lies below one of x's listed children. */
  lemma ChildTowardListed(s: Links, y: nat, x: nat)
    requires s.Shaped() && y < |s.parent| && x < |s.parent|
    requires y != x && Reaches(s.parent, s.rank, s.bound, y, x)
    ensures s.ChildToward(y, x) in s.kids[x]
  {
    var c := s.ChildToward(y, x);
    assert c in s.kids[s.parent[c]];
  }

  /**
   * Below a child `c` of `x`, distances to `x` are one more than to `c`, and
   * `c` is the child of `x` on the way up.
   */
  lemma {:induction false} StepsVia(s: Links, y: nat, c: nat, x: nat)
    requires s.Shaped() && y < |s.parent| && c < |s.parent| && x < |s.parent|
    requires s.parent[c] == x && Reaches(s.parent, s.rank, s.bound, y, c)
    ensures Reaches(s.parent, s.rank, s.bound, y, x) && y != x
    ensures Steps(s.parent, s.rank, s.bound, y, x) == Steps(s.parent, s.rank, s.bound, y, c) + 1
    ensures s.ChildToward(y, x) == c
    decreases s.bound - s.rank[y]
  {
    if y != c {
      var py := s.parent[y];
      StepsVia(s, py, c, x);
      ReachesRank(s.parent, s.rank, s.bound, py, x);
    }
  }

  /** Every visit of the pre-order of `x` is of a node in x's subtree, at its distance below `x` plus `d`. */
  lemma {:induction false} PreOrderSound(s: Links, x: nat, d: nat)
    requires s.Shaped() && x < |s.parent|
    ensures forall k :: 0 <= k < |s.PreOrder(x, d)| ==>
              && s.PreOrder(x, d)[k].node < |s.parent|
              && Reaches(s.parent, s.rank, s.bound, s.PreOrder(x, d)[k].node, x)
              && s.PreOrder(x, d)[k].depth == d + Steps(s.parent, s.rank, s.bound, s.PreOrder(x, d)[k].node, x)
    decreases s.rank[x], 1, 0
  {
    var vs, tail := s.PreOrder(x, d), s.PreOrderFrom(x, 0, d);
    PreOrderFromSound(s, x, 0, d);
    forall k | 0 <= k < |vs|
      ensures vs[k].node < |s.parent| && Reaches(s.parent, s.rank, s.bound, vs[k].node, x)
      ensures vs[k].depth == d + Steps(s.parent, s.rank, s.bound, vs[k].node, x)
    {
      if k > 0 {
        assert vs[k] == tail[k - 1];
      }
    }
  }

  /** The visits below the children of `x` from the `j`-th on lie below exactly those children. */
  lemma {:induction false} PreOrderFromSound(s: Links, x: nat, j: nat, d: nat)
    requires s.Shaped() && x < |s.parent| && j <= |s.kids[x]|
    ensures forall k :: 0 <= k < |s.PreOrderFrom(x, j, d)| ==>
              && s.PreOrderFrom(x, j, d)[k].node < |s.parent|
              && s.PreOrderFrom(x, j, d)[k].node != x
              && Reaches(s.parent, s.rank, s.bound, s.PreOrderFrom(x, j, d)[k].node, x)
              && s.PreOrderFrom(x, j, d)[k].depth == d + Steps(s.parent, s.rank, s.bound, s.PreOrderFrom(x, j, d)[k].node, x)
              && s.ChildToward(s.PreOrderFrom(x, j, d)[k].node, x) in s.kids[x][j..]
    decreases s.rank[x], 0, |s.kids[x]| - j
  {
    if j < |s.kids[x]| {
      var c := s.kids[x][j];
      var vs, head, tail := s.PreOrderFrom(x, j, d), s.PreOrder(c, d + 1), s.PreOrderFrom(x, j + 1, d);
      PreOrderSound(s, c, d + 1);
      PreOrderFromSound(s, x, j + 1, d);
      assert s.kids[x][j..] == [c] + s.kids[x][j + 1..];
      forall k | 0 <= k < |vs|
        ensures vs[k].node < |s.parent| && vs[k].node != x && Reaches(s.parent, s.rank, s.bound, vs[k].node, x)
        ensures vs[k].depth == d + Steps(s.parent, s.rank, s.bound, vs[k].node, x)
        ensures s.ChildToward(vs[k].node, x) in s.kids[x][j..]
      {
        if k < |head| {
          assert vs[k] == head[k];
          StepsVia(s, head[k].node, c, x);
        } else {
          assert vs[k] == tail[k - |head|];
        }
      }
    }
  }

  /** Every node of x's subtree is visited by the pre-order of `x`. */
  lemma {:induction false} PreOrderComplete(s: Links, x: nat, d: nat, y: nat) returns (k: nat)
    requires s.Shaped() && x < |s.parent| && y < |s.parent|
    requires Reaches(s.parent, s.rank, s.bound, y, x)
    ensures k < |s.PreOrder(x, d)| && s.PreOrder(x, d)[k].node == y
    decreases s.rank[x], 1, 0
  {
    if y == x {
      k := 0;
    } else {
      ChildTowardListed(s, y, x);
      assert s.kids[x][0..] == s.kids[x];
      var k' := PreOrderFromComplete(s, x, 0, d, y);
      k := k' + 1;
    }
  }

  /** Every node below one of the children of `x` from the `j`-th on is visited by their pre-order. */
  lemma {:induction false} PreOrderFromComplete(s: Links, x: nat, j: nat, d: nat, y: nat) returns (k: nat)
    requires s.Shaped() && x < |s.parent| && y < |s.parent| && j <= |s.kids[x]|
    requires y != x && Reaches(s.parent, s.rank, s.bound, y, x)
    requires s.ChildToward(y, x) in s.kids[x][j..]
    ensures k < |s.PreOrderFrom(x, j, d)| && s.PreOrderFrom(x, j, d)[k].node == y
    decreases s.rank[x], 0, |s.kids[x]| - j
  {
    var c := s.kids[x][j];
    if s.ChildToward(y, x) == c {
      k := PreOrderComplete(s, c, d + 1, y);
    } else {
      assert s.kids[x][j..] == [c] + s.kids[x][j + 1..];
      var k' := PreOrderFromComplete(s, x, j + 1, d, y);
      k := |s.PreOrder(c, d + 1)| + k';
    }
  }

  /** The pre-order of `x` visits no node twice. */
  lemma {:induction false} PreOrderOnce(s: Links, x: nat, d: nat)
    requires s.Shaped() && x < |s.parent|
    ensures NoDup(Nodes(s.PreOrder(x, d)))
    decreases s.rank[x], 1, 0
  {
    var tail := s.PreOrderFrom(x, 0, d);
    PreOrderFromOnce(s, x, 0, d);
    PreOrderFromSound(s, x, 0, d);
    NodesAppend([Visit(x, d)], tail);
    assert Nodes([Visit(x, d)]) == [x];
    NoDupAppend([x], Nodes(tail));
  }

  /** The pre-order below the children of `x` from the `j`-th on visits no node twice. */
  lemma {:induction false} PreOrderFromOnce(s: Links, x: nat, j: nat, d: nat)
    requires s.Shaped() && x < |s.parent| && j <= |s.kids[x]|
    ensures NoDup(Nodes(s.PreOrderFrom(x, j, d)))
    decreases s.rank[x], 0, |s.kids[x]| - j
  {
    if j < |s.kids[x]| {
      var c := s.kids[x][j];
      var head, tail := s.PreOrder(c, d + 1), s.PreOrderFrom(x, j + 1, d);
      PreOrderOnce(s, c, d + 1);
      PreOrderFromOnce(s, x, j + 1, d);
      PreOrderSound(s, c, d + 1);
      PreOrderFromSound(s, x, j + 1, d);
      NodesAppend(head, tail);
      assert s.ListAt(x);
      forall y | y in Nodes(head) ensures y !in Nodes(tail) {
        var a :| 0 <= a < |head| && Nodes(head)[a] == y;
        StepsVia(s, y, c, x);
      }
      NoDupAppend(Nodes(head), Nodes(tail));
    }
  }

  // ---------------------------------------------------------------------------
  // Re-stamping roots
  // ---------------------------------------------------------------------------

  /** Pushing the first `j` children of `x` adds the sizes of their subtrees to the stack's size. */
  lemma {:induction false} SizeOfStackKids(s: Links, rest: seq<nat>, x: nat, j: nat)
    requires s.Shaped() && x < |s.parent| && j <= |s.kids[x]|
    requires forall i :: 0 <= i < |rest| ==> rest[i] < |s.parent|
    ensures forall i :: 0 <= i < |rest + s.kids[x][..j]| ==> (rest + s.kids[x][..j])[i] < |s.parent|
    ensures s.SizeOfStack(rest + s.kids[x][..j]) == s.SizeOfStack(rest) + s.SizeOfKids(x, j)
  {
    var st := rest + s.kids[x][..j];
    forall i | 0 <= i < |st| ensures st[i] < |s.parent| {
      if i >= |rest| {
        assert st[i] == s.kids[x][i - |rest|];
      }
    }
    if j == 0 {
      assert st == rest;
    } else {
      SizeOfStackKids(s, rest, x, j - 1);
      assert st[..|st| - 1] == rest + s.kids[x][..j - 1];
    }
  }

  /**
   * Midway through stamping `r` on the subtree of `top`, starting from the
   * roots `root0`: the stack holds nodes of the subtree; nodes outside it
   * keep their roots; each node inside it has `r` or still lies below some
   * stack entry.
   */
  ghost predicate Stamping(s: Links, top: nat, stack: seq<nat>, root0: seq<int>, root: seq<int>, r: int)
    requires s.Shaped() && top < |s.parent|
  {
    && |root0| == |s.parent| && |root| == |s.parent|
    && (forall i :: 0 <= i < |stack| ==> stack[i] < |s.parent| && Reaches(s.parent, s.rank, s.bound, stack[i], top))
    && (forall y :: 0 <= y < |s.parent| && !Reaches(s.parent, s.rank, s.bound, y, top) ==> root[y] == root0[y])
    && (forall y :: 0 <= y < |s.parent| && Reaches(s.parent, s.rank, s.bound, y, top) ==>
          root[y] == r || s.Covered(stack, y))
  }

  /** Stamping starts with the subtree's top alone on the stack. */
  lemma StampingStart(s: Links, top: nat, root0: seq<int>, r: int)
    requires s.Shaped() && top < |s.parent| && |root0| == |s.parent|
    ensures Stamping(s, top, [top], root0, root0, r)
  {
    forall y | 0 <= y < |s.parent| && Reaches(s.parent, s.rank, s.bound, y, top) ensures s.Covered([top], y) {
      assert [top][0] == top;
    }
  }

  /** Once the stack is empty, exactly the subtree carries `r`. */
  lemma StampingDone(s: Links, top: nat, root0: seq<int>, root: seq<int>, r: int)
    requires s.Shaped() && top < |s.parent| && Stamping(s, top, [], root0, root, r)
    ensures |root| == |s.parent|
    ensures forall y :: 0 <= y < |s.parent| ==>
              root[y] == if Reaches(s.parent, s.rank, s.bound, y, top) then r else root0[y]
  {
  }

  /** The children of a node of the subtree of `top` are in that subtree too. */
  lemma PushedBelow(s: Links, top: nat, rest: seq<nat>, x: nat)
    requires s.Shaped() && top < |s.parent| && x < |s.parent|
    requires forall i :: 0 <= i < |rest| ==> rest[i] < |s.parent| && Reaches(s.parent, s.rank, s.bound, rest[i], top)
    requires Reaches(s.parent, s.rank, s.bound, x, top)
    ensures forall i :: 0 <= i < |rest + s.kids[x]| ==>
              (rest + s.kids[x])[i] < |s.parent| && Reaches(s.parent, s.rank, s.bound, (rest + s.kids[x])[i], top)
  {
    var pushed := rest + s.kids[x];
    forall i | 0 <= i < |pushed|
      ensures pushed[i] < |s.parent| && Reaches(s.parent, s.rank, s.bound, pushed[i], top)
    {
      if i >= |rest| {
        var c := s.kids[x][i - |rest|];
        assert c < |s.parent| && s.parent[c] == x;
        assert Reaches(s.parent, s.rank, s.bound, c, x);
        ReachesTransitive(s.parent, s.rank, s.bound, c, x, top);
      }
    }
  }

  /** A node below the popped `x`, other than `x`, lies below one of the children pushed in its place. */
  lemma PushedCovers(s: Links, rest: seq<nat>, x: nat, y: nat)
    requires s.Shaped() && x < |s.parent| && y < |s.parent| && y != x
    requires forall i :: 0 <= i < |rest| ==> rest[i] < |s.parent|
    requires forall i :: 0 <= i < |rest + s.kids[x]| ==> (rest + s.kids[x])[i] < |s.parent|
    requires s.Covered(rest + [x], y)
    ensures s.Covered(rest + s.kids[x], y)
  {
    var pushed := rest + s.kids[x];
    var i :| 0 <= i < |rest| + 1 && Reaches(s.parent, s.rank, s.bound, y, (rest + [x])[i]);
    if i < |rest| {
      assert pushed[i] == rest[i];
    } else {
      var c := s.ChildToward(y, x);
      ChildTowardListed(s, y, x);
      var k :| 0 <= k < |s.kids[x]| && s.kids[x][k] == c;
      assert pushed[|rest| + k] == c;
    }
  }

  /**
   * One round of `setRootForSubtree`: popping `x`, stamping it and pushing
   * its children keeps the stamping invariant and shrinks the number of
   * nodes still below the stack by one.
   */
  lemma RestampStep(s: Links, top: nat, rest: seq<nat>, x: nat, root0: seq<int>, root: seq<int>, r: int)
    requires s.Shaped() && top < |s.parent| && x < |s.parent|
    requires Stamping(s, top, rest + [x], root0, root, r)
    ensures Stamping(s, top, rest + s.kids[x], root0, root[x := r], r)
    ensures s.SizeOfStack(rest + [x]) == s.SizeOfStack(rest + s.kids[x]) + 1
  {
    assert (rest + [x])[|rest|] == x;
    forall i | 0 <= i < |rest| ensures rest[i] < |s.parent| && Reaches(s.parent, s.rank, s.bound, rest[i], top) {
      assert (rest + [x])[i] == rest[i];
    }
    PushedBelow(s, top, rest, x);
    SizeOfStackKids(s, rest, x, |s.kids[x]|);
    assert s.kids[x][..|s.kids[x]|] == s.kids[x];
    assert (rest + [x])[..|rest|] == rest;
    forall y | 0 <= y < |s.parent| && y != x && s.Covered(rest + [x], y) ensures s.Covered(rest + s.kids[x], y) {
      PushedCovers(s, rest, x, y);
    }
  }

  /**
   * After x's link has changed, stamping `r` on every node of x's subtree
   * (and nothing else) makes the cached roots agree again, provided they
   * agreed everywhere else and `r` is what x's new parent (if any) has.
   */
  lemma {:induction false} Rerooted(parent: seq<int>, rank: seq<nat>, bound: nat, root: seq<int>, root': seq<int>, x: nat, r: nat)
    requires Ranked(parent, rank, bound) && x < |parent| && r < |parent|
    requires |root| == |parent| && |root'| == |parent|
    requires forall y :: 0 <= y < |parent| && y != x ==>
               0 <= root[y] < |parent| && root[y] == (if parent[y] == NIL then y else root[parent[y]])
    requires forall y :: 0 <= y < |parent| ==>
               root'[y] == if Reaches(parent, rank, bound, y, x) then r else root[y]
    requires r == if parent[x] == NIL then x else root'[parent[x]]
    ensures RootsAgree(parent, root')
  {
    forall y | 0 <= y < |parent| ensures root'[y] == (if parent[y] == NIL then y else root'[parent[y]]) {
      if y != x && parent[y] != NIL {
        assert Reaches(parent, rank, bound, y, x) == Reaches(parent, rank, bound, parent[y], x);
      }
    }
  }

  /**
   * `remove`: once `x` is spliced out of self's list and its subtree
   * restamped with `x`, the cached roots agree again, and the nodes
   * restamped are exactly those that were below `x` before.
   */
  lemma UnlinkedRoots(s: Links, self: nat, x: nat, root0: seq<int>, root1: seq<int>)
    requires s.Shaped() && self < |s.parent| && x < |s.parent| && s.parent[x] == self
    requires RootsAgree(s.parent, root0)
    requires |root1| == |s.parent|
    requires forall y :: 0 <= y < |s.parent| ==>
               root1[y] == if Reaches(s.parent[x := NIL], s.rank, s.bound, y, x) then x else root0[y]
    ensures RootsAgree(s.parent[x := NIL], root1)
    ensures forall y :: 0 <= y < |s.parent| ==>
              root1[y] == if Reaches(s.parent, s.rank, s.bound, y, x) then x else root0[y]
  {
    var p := s.parent[x := NIL];
    assert Ranked(p, s.rank, s.bound);
    forall y | 0 <= y < |p| && y != x
      ensures 0 <= root0[y] < |p| && root0[y] == (if p[y] == NIL then y else root0[p[y]])
    {
      assert p[y] == s.parent[y];
    }
    Rerooted(p, s.rank, s.bound, root0, root1, x, x);
    forall y | 0 <= y < |p| ensures Reaches(p, s.rank, s.bound, y, x) == Reaches(s.parent, s.rank, s.bound, y, x) {
      ReachesFrame(p, s.rank, s.bound, s.parent, s.rank, s.bound, y, x);
    }
  }

  /**
   * `add`: once the detached `x` hangs below `self` (outside x's subtree)
   * and its subtree is restamped with self's root, the cached roots agree
   * again, and the nodes restamped are exactly those below `x`.
   */
  lemma AppendedRoots(s: Links, self: nat, x: nat, rank': seq<nat>, bound': nat, root1: seq<int>, root2: seq<int>)
    requires s.Shaped() && self < |s.parent| && x < |s.parent| && s.parent[x] == NIL
    requires Ranked(s.parent[x := self], rank', bound')
    requires !Reaches(s.parent, s.rank, s.bound, self, x)
    requires RootsAgree(s.parent, root1)
    requires |root2| == |s.parent|
    requires forall y :: 0 <= y < |s.parent| ==>
               root2[y] == if Reaches(s.parent[x := self], rank', bound', y, x) then root1[self] else root1[y]
    ensures RootsAgree(s.parent[x := self], root2)
    ensures forall y :: 0 <= y < |s.parent| ==>
              root2[y] == if Reaches(s.parent, s.rank, s.bound, y, x) then root1[self] else root1[y]
  {
    var p := s.parent[x := self];
    forall y | 0 <= y < |p| ensures Reaches(p, rank', bound', y, x) == Reaches(s.parent, s.rank, s.bound, y, x) {
      ReachesFrame(p, rank', bound', s.parent, s.rank, s.bound, y, x);
    }
    forall y | 0 <= y < |p| && y != x
      ensures 0 <= root1[y] < |p| && root1[y] == (if p[y] == NIL then y else root1[p[y]])
    {
      assert p[y] == s.parent[y];
    }
    Rerooted(p, rank', bound', root1, root2, x, root1[self]);
  }
}
