/**
 * Model of the tree editor in src/renderer.js: the automatic names given to
 * new nodes, and the add, remove, drag-start and drop handlers, which change
 * the tree through the `TreeNode` methods and move the selection.
 */
module Renderer {
  import opened TreeShape
  import opened TreeNode

  // ---------------------------------------------------------------------------
  // Letter names: bijective base 26 (1 = "A", 26 = "Z", 27 = "AA")
  // ---------------------------------------------------------------------------

  predicate IsLetters(s: string)
  {
    forall i :: 0 <= i < |s| ==> 'A' <= s[i] <= 'Z'
  }

  /** The letter name of `n`; empty when `n` is not positive. */
  function Letters(n: int): (s: string)
    ensures IsLetters(s)
    ensures s == [] <==> n <= 0
    decreases n
  {
    if n <= 0 then "" else Letters((n - 1) / 26) + [(65 + (n - 1) % 26) as char]
  }

  /** The number a letter name stands for: each letter counts 1 to 26, most significant first. */
  function LettersValue(s: string): (v: nat)
    requires IsLetters(s)
    ensures v == 0 <==> s == []
  {
    if s == [] then 0 else 26 * LettersValue(s[..|s| - 1]) + (s[|s| - 1] as int - 64)
  }

  /** Division by 26 splits off the last letter's digit. */
  lemma DivideBy26(q: nat, k: int)
    requires 0 <= k < 26
    ensures (26 * q + k) / 26 == q && (26 * q + k) % 26 == k
  {
  }

  /** Decoding the letter name of `n` gives back `n`. */
  lemma {:induction false} LettersRoundTrip(n: nat)
    ensures LettersValue(Letters(n)) == n
    decreases n
  {
    if n > 0 {
      var m := (n - 1) / 26;
      LettersRoundTrip(m);
      var s := Letters(n);
      assert s[..|s| - 1] == Letters(m);
    }
  }

  /** Every letter string is the letter name of its value. */
  lemma {:induction false} LettersComplete(s: string)
    requires IsLetters(s)
    ensures Letters(LettersValue(s)) == s
    decreases |s|
  {
    if s != [] {
      var t := s[..|s| - 1];
      LettersComplete(t);
      var k := s[|s| - 1] as int - 65;
      DivideBy26(LettersValue(t), k);
      assert s == t + [s[|s| - 1]];
    }
  }

  /** Different counts give different letter names. */
  lemma LettersInjective(a: nat, b: nat)
    ensures Letters(a) == Letters(b) ==> a == b
  {
    LettersRoundTrip(a);
    LettersRoundTrip(b);
  }

  /** The first names of the sequence and where a second letter appears. */
  lemma LettersExamples()
    ensures Letters(0) == "" && Letters(1) == "A" && Letters(26) == "Z"
  {
    assert Letters(1) == "A";
    assert Letters(26) == Letters(0) + "Z";
  }

  /** Past "Z" the names go on "AA", "AB", …, "ZZ", "AAA". */
  lemma LettersLongerExamples()
    ensures Letters(27) == "AA" && Letters(28) == "AB" && Letters(702) == "ZZ" && Letters(703) == "AAA"
  {
    LettersExamples();
    assert Letters(27) == Letters(1) + "A";
    assert Letters(28) == Letters(1) + "B";
    assert Letters(702) == Letters(26) + "Z";
    assert Letters(703) == Letters(27) + "A";
  }

  /** `toLetters(num)`: builds the name from the last letter to the first. */
  method ToLetters(num: int) returns (result: string)
    ensures result == Letters(num)
  {
    var n := num;
    result := "";
    while n > 0
      invariant Letters(num) == Letters(n) + result
      decreases n
    {
      n := n - 1;
      var letter := (65 + n % 26) as char;
      assert Letters(n + 1) == Letters(n / 26) + [letter];
      result := [letter] + result;
      n := n / 26;
    }
  }

  // ---------------------------------------------------------------------------
  // Decimal numerals, as a number prints inside a template string
  // ---------------------------------------------------------------------------

  predicate IsDigits(s: string)
  {
    forall i :: 0 <= i < |s| ==> '0' <= s[i] <= '9'
  }

  /** The decimal numeral of `n`, without leading zeros. */
  function Decimal(n: nat): (s: string)
    ensures IsDigits(s) && s != []
    ensures s[0] == '0' <==> n == 0
  {
    if n < 10 then [(48 + n) as char] else Decimal(n / 10) + [(48 + n % 10) as char]
  }

  /** The number a string of digits stands for. */
  function DecimalValue(s: string): nat
    requires IsDigits(s)
  {
    if s == [] then 0 else 10 * DecimalValue(s[..|s| - 1]) + (s[|s| - 1] as int - 48)
  }

  /** Division by 10 splits off the last decimal digit. */
  lemma DivideBy10(q: nat, k: int)
    requires 0 <= k < 10
    ensures (10 * q + k) / 10 == q && (10 * q + k) % 10 == k
  {
  }

  /** Reading the numeral of `n` gives back `n`. */
  lemma {:induction false} DecimalRoundTrip(n: nat)
    ensures DecimalValue(Decimal(n)) == n
    decreases n
  {
    if n >= 10 {
      DecimalRoundTrip(n / 10);
      var s := Decimal(n);
      assert s[..|s| - 1] == Decimal(n / 10);
    } else {
      assert Decimal(n)[..0] == [];
    }
  }

  /** Only digits with a zero first digit are zero. */
  lemma {:induction false} DecimalValueZero(s: string)
    requires IsDigits(s) && s != [] && s[0] != '0'
    ensures DecimalValue(s) > 0
    decreases |s|
  {
    if |s| > 1 {
      DecimalValueZero(s[..|s| - 1]);
    }
  }

  /** A numeral without leading zeros is the numeral of its value. */
  lemma {:induction false} DecimalComplete(s: string)
    requires IsDigits(s) && s != [] && (s[0] == '0' ==> |s| == 1)
    ensures Decimal(DecimalValue(s)) == s
    decreases |s|
  {
    var t := s[..|s| - 1];
    var d := s[|s| - 1] as int - 48;
    assert s == t + [s[|s| - 1]];
    if t == [] {
      assert DecimalValue(s) == d;
    } else {
      DecimalComplete(t);
      DecimalValueZero(t);
      DivideBy10(DecimalValue(t), d);
    }
  }

  // ---------------------------------------------------------------------------
  // Automatic names
  // ---------------------------------------------------------------------------

  /**
   * The name `nextAutoName` gives the next child of a node with `tag` and
   * `count` children: the letter name of `count + 1` for a node without a
   * parent, otherwise the node's tag, a dot and `count + 1` in decimal.
   */
  function AutoName(tag: string, isTop: bool, count: nat): (name: string)
    ensures isTop ==> IsLetters(name) && name != [] && LettersValue(name) == count + 1
    ensures !isTop ==> |name| > |tag| + 1 && name[..|tag|] == tag && name[|tag|] == '.'
    ensures !isTop ==> IsDigits(name[|tag| + 1..]) && DecimalValue(name[|tag| + 1..]) == count + 1
  {
    if isTop then
      LettersRoundTrip(count + 1);
      Letters(count + 1)
    else
      var name := tag + "." + Decimal(count + 1);
      assert name[|tag| + 1..] == Decimal(count + 1);
      DecimalRoundTrip(count + 1);
      name
  }

  /** Two children named one after the other in the same parent get different names. */
  lemma AutoNamesDiffer(tag: string, isTop: bool, count: nat)
    ensures AutoName(tag, isTop, count) != AutoName(tag, isTop, count + 1)
  {
  }

  /** `nextAutoName(parent)`: the index is one past the parent's child count. */
  method NextAutoName(tag: string, isTop: bool, count: nat) returns (name: string)
    ensures name == AutoName(tag, isTop, count)
  {
    var index := count + 1;
    if isTop {
      name := ToLetters(index);
      return;
    }
    name := tag + "." + Decimal(index);
  }

  // ---------------------------------------------------------------------------
  // The editor's handlers
  // ---------------------------------------------------------------------------

  /** Clearing a parent link and then setting it is the same as setting it. */
  lemma Overwritten(parent: seq<int>, x: nat, v: int)
    requires x < |parent|
    ensures parent[x := NIL][x := v] == parent[x := v]
  {
  }

  /** What a drop does: nothing without a drag, a refusal, or a move. */
  datatype DropOutcome = NoDrag | Blocked | Moved

  /**
   * The state of `createCollapsibleTreeUI`: the forest holding the tree shown
   * from `top`, the selected node and the node being dragged (NIL when none).
   */
  class Editor {
    const forest: Forest
    const top: nat
    var selected: nat
    var dragging: int

    /** The forest is well formed and the selection lies in the tree shown. */
    ghost predicate Displayed()
      reads this, forest
    {
      && forest.Valid()
      && top < |forest.parent|
      && selected < |forest.parent| && forest.InSubtree(selected, top)
      && NIL <= dragging < |forest.parent|
    }

    /** The editor opens with the top selected and nothing dragged. */
    constructor Open(f: Forest, t: nat)
      requires f.Valid() && t < |f.parent|
      ensures forest == f && top == t && selected == t && dragging == NIL
      ensures Displayed()
    {
      forest, top, selected, dragging := f, t, t, NIL;
    }

    /**
     * The add button: a node named after the selected one's child count is
     * created, appended to the selected node's children and selected.
     */
    method OnAddClick() returns (name: string)
      requires Displayed()
      modifies forest, this`selected
      ensures Displayed()
      ensures name == AutoName(old(forest.labels[selected]), old(forest.parent[selected]) == NIL, old(forest.count[selected]))
      ensures forest.labels == old(forest.labels) + [name]
      ensures selected == old(|forest.parent|)
      ensures forest.parent == old(forest.parent) + [old(selected)]
      ensures forest.kids == Attach(old(forest.kids) + [[]], old(selected), selected)
      ensures forest.count[old(selected)] == old(forest.count[selected]) + 1
    {
      var s := selected;
      name := NextAutoName(forest.labels[s], forest.parent[s] == NIL, forest.count[s]);
      var x := AddLeaf(s, name);
      selected := x;
    }

    /**
     * The tree change the add button makes: a new node labelled `name` is
     * created and appended to the children of `s`. It lands in the tree
     * shown when `s` is in it.
     */
    method AddLeaf(s: nat, name: string) returns (x: nat)
      requires forest.Valid() && top < |forest.parent| && s < |forest.parent|
      modifies forest
      ensures forest.Valid() && x == old(|forest.parent|)
      ensures forest.labels == old(forest.labels) + [name]
      ensures forest.parent == old(forest.parent) + [s]
      ensures forest.kids == Attach(old(forest.kids) + [[]], s, x)
      ensures forest.count[s] == old(forest.count[s]) + 1
      ensures old(forest.InSubtree(s, top)) ==> forest.InSubtree(x, top)
    {
      ghost var p0, r0, b0 := forest.parent, forest.rank, forest.bound;
      x := forest.NewNode(name);
      GrownLeaf(p0, r0, b0, s);
      var result := forest.Add(s, x);
      if Reaches(p0, r0, b0, s, top) {
        ReachesGrown(p0, r0, b0, s, top);
        ReachesHung(p0 + [NIL], r0 + [0], b0, forest.parent, forest.rank, forest.bound, x, s, top);
      }
    }

    /**
     * The remove button: refused on the top; otherwise the selected node is
     * removed from its parent, which becomes the selection.
     */
    method OnRemoveClick() returns (removed: bool)
      requires Displayed()
      modifies forest, this`selected
      ensures Displayed()
      ensures removed <==> old(selected) != top
      ensures !removed ==> unchanged(forest) && selected == old(selected)
      ensures removed ==>
                && selected == old(forest.parent[selected])
                && forest.parent == old(forest.parent)[old(selected) := NIL]
                && forest.kids == Detach(old(forest.kids), old(forest.parent[selected]), old(selected))
                && forest.kids[selected] == Without(old(forest.kids[forest.parent[selected]]), old(selected))
                && forest.count[selected] + 1 == old(forest.count[forest.parent[selected]])
                && forest.labels == old(forest.labels)
    {
      if selected == top {
        return false;
      }
      var s := selected;
      ghost var p0, r0, b0 := forest.parent, forest.rank, forest.bound;
      var parent := forest.parent[s];
      ReachesCut(p0, r0, b0, p0[s := NIL], r0, b0, s, top);
      // Below the top every node has a parent, so the source's test of it always passes.
      forest.Remove(parent, s);
      ReachesCut(p0, r0, b0, forest.parent, forest.rank, forest.bound, s, top);
      selected := parent;
      return true;
    }

    /** A drag can start on any node shown except the top. */
    method OnDragStart(node: nat)
      requires Displayed() && node < |forest.parent| && forest.InSubtree(node, top)
      modifies this`dragging
      ensures Displayed()
      ensures dragging == if node == top then old(dragging) else node
    {
      if node == top {
        return;
      }
      dragging := node;
    }

    /** The end of a drag clears the dragged node. */
    method OnDragEnd()
      requires Displayed()
      modifies this`dragging
      ensures Displayed() && dragging == NIL
    {
      dragging := NIL;
    }

    /**
     * A drop on `target`: with a node dragged, refused when the target is
     * that node or lies below it; otherwise the node is taken from its
     * parent, appended to the target's children and selected. The drag
     * ends either way.
     */
    method OnDrop(target: nat) returns (outcome: DropOutcome)
      requires Displayed() && target < |forest.parent| && forest.InSubtree(target, top)
      modifies forest, this`selected, this`dragging
      ensures Displayed()
      ensures outcome == if old(dragging) == NIL then NoDrag
                         else if target == old(dragging) || old(forest.IsProperDescendant(target, dragging)) then Blocked
                         else Moved
      ensures outcome != Moved ==> unchanged(forest) && selected == old(selected)
      ensures dragging == NIL
      ensures outcome == Moved ==>
                && selected == old(dragging)
                && forest.parent == old(forest.parent)[selected := target]
                && forest.kids == Attach(Detach(old(forest.kids), old(forest.parent[dragging]), selected), target, selected)
                && forest.labels == old(forest.labels)
    {
      if dragging == NIL {
        return NoDrag;
      }
      var node := dragging;
      var below := forest.IsDescendantOf(target, node);
      if target == node || below {
        dragging := NIL;
        return Blocked;
      }
      Relocate(node, target);
      selected := node;
      dragging := NIL;
      return Moved;
    }

    /**
     * The move a drop makes: `node` is removed from its parent, if any, and
     * appended to the children of `target`, which is not in its subtree.
     * Whatever was above the target is now above `node` too.
     */
    method Relocate(node: nat, target: nat)
      requires forest.Valid() && top < |forest.parent| && node < |forest.parent| && target < |forest.parent|
      requires node != target && !forest.InSubtree(target, node)
      modifies forest
      ensures forest.Valid() && forest.labels == old(forest.labels)
      ensures forest.parent == old(forest.parent)[node := target]
      ensures forest.kids == Attach(Detach(old(forest.kids), old(forest.parent[node]), node), target, node)
      ensures old(forest.InSubtree(target, top)) ==> forest.InSubtree(node, top)
    {
      ghost var p0, r0, b0 := forest.parent, forest.rank, forest.bound;
      forest.Unhook(node);
      ghost var p1, r1, b1 := forest.parent, forest.rank, forest.bound;
      ReachesAvoiding(p0, r0, b0, p1, r1, b1, node, target, node);
      ReachesAvoiding(p0, r0, b0, p1, r1, b1, node, target, top);
      var result := forest.Add(target, node);
      Overwritten(p0, node, target);
      if Reaches(p0, r0, b0, target, top) {
        ReachesHung(p1, r1, b1, forest.parent, forest.rank, forest.bound, node, target, top);
      }
    }
  }
}
