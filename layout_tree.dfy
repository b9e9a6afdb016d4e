/**
 * The tmux window-layout tree (`LayoutNode` in layout.go) and the pure
 * recursive helpers over it: `containsPane`, `countPanes` and
 * `copyLayoutNode`.
 *
 * A node is a value here. Go keeps nodes behind pointers, but every tree
 * the engine rewrites is a fresh deep copy that nothing else shares, so
 * rewriting a node in place and building the rewritten value are the same.
 */
module LayoutTree {

  /** How a node's region is divided (`SplitType`). */
  datatype SplitType =
    | SplitNone        // a pane, printed with a trailing `,ID`
    | SplitHorizontal  // children side by side, printed inside `{}`
    | SplitVertical    // children stacked, printed inside `[]`

  /** `LayoutNode`: `paneId` is -1 for a node that is not a pane. */
  datatype Node = Node(
    width: int, height: int, x: int, y: int,
    paneId: int, split: SplitType, children: seq<Node>)

  /** A tree with its geometry erased: what the zoom must never change. */
  datatype Shape = Shape(paneId: int, split: SplitType, children: seq<Shape>)

  function ShapeOf(n: Node): (s: Shape)
    ensures |s.children| == |n.children|
  {
    Shape(n.paneId, n.split,
          seq(|n.children|, i requires 0 <= i < |n.children| => ShapeOf(n.children[i])))
  }

  /**
   * `containsPane`: the node itself carries the id, or some child contains
   * it. Split nodes carry -1, so every split node "contains" pane -1.
   */
  predicate ContainsPane(n: Node, id: int)
  {
    n.paneId == id || exists i :: 0 <= i < |n.children| && ContainsPane(n.children[i], id)
  }

  /** `countPanes`: 1 for a pane, otherwise the sum over the children. */
  function CountPanes(n: Node): nat
  {
    if n.split == SplitNone then 1 else CountAll(n.children)
  }

  function CountAll(cs: seq<Node>): nat
  {
    if |cs| == 0 then 0 else CountAll(cs[..|cs| - 1]) + CountPanes(cs[|cs| - 1])
  }

  /** `copyLayoutNode`: a field-by-field deep copy, equal to the original. */
  function CopyNode(n: Node): (r: Node)
    ensures r == n
  {
    var cs := seq(|n.children|, i requires 0 <= i < |n.children| => CopyNode(n.children[i]));
    assert cs == n.children;
    Node(n.width, n.height, n.x, n.y, n.paneId, n.split, cs)
  }

  /**
   * The loop in `ApplyZoomToLayout` and `applyNestedZoom` that looks for
   * the first child containing the pane: its index, or `|cs|` for none.
   */
  function FirstContaining(cs: seq<Node>, id: int): (i: nat)
    ensures i <= |cs|
    ensures i < |cs| ==> ContainsPane(cs[i], id)
    ensures forall k :: 0 <= k < i ==> !ContainsPane(cs[k], id)
  {
    if |cs| == 0 then 0
    else if ContainsPane(cs[0], id) then 0
    else 1 + FirstContaining(cs[1..], id)
  }

  /** The ids written on the panes of a tree. */
  function LeafIds(n: Node): set<int>
  {
    if n.split == SplitNone then {n.paneId}
    else set i, id | 0 <= i < |n.children| && id in LeafIds(n.children[i]) :: id
  }

  /** A tree as the parser builds it: panes have no children, splits carry -1. */
  predicate Tidy(n: Node)
  {
    (n.split == SplitNone ==> n.children == []) &&
    (n.split != SplitNone ==> n.paneId == -1) &&
    forall i :: 0 <= i < |n.children| ==> Tidy(n.children[i])
  }

  /**
   * In a tidy tree, `containsPane` with a real (non-negative) pane id is
   * exactly "some pane of the tree has that id"; -1 is the only id split
   * nodes answer to.
   */
  lemma {:induction false} ContainsPaneIsLeafId(n: Node, id: int)
    requires Tidy(n) && id >= 0
    ensures ContainsPane(n, id) <==> id in LeafIds(n)
  {
    if n.split != SplitNone {
      if ContainsPane(n, id) {
        var i :| 0 <= i < |n.children| && ContainsPane(n.children[i], id);
        ContainsPaneIsLeafId(n.children[i], id);
      }
      if id in LeafIds(n) {
        var i :| 0 <= i < |n.children| && id in LeafIds(n.children[i]);
        ContainsPaneIsLeafId(n.children[i], id);
      }
    }
  }

  /** Whether a tree contains a pane depends only on its shape. */
  lemma {:induction false} ContainsPaneByShape(a: Node, b: Node, id: int)
    requires ShapeOf(a) == ShapeOf(b)
    ensures ContainsPane(a, id) <==> ContainsPane(b, id)
  {
    assert |a.children| == |b.children|;
    forall i | 0 <= i < |a.children|
      ensures ContainsPane(a.children[i], id) <==> ContainsPane(b.children[i], id)
    {
      assert ShapeOf(a).children[i] == ShapeOf(b).children[i];
      ContainsPaneByShape(a.children[i], b.children[i], id);
    }
  }

  lemma {:induction false} FirstContainingByShape(a: seq<Node>, b: seq<Node>, id: int)
    requires |a| == |b|
    requires forall i :: 0 <= i < |a| ==> ShapeOf(a[i]) == ShapeOf(b[i])
    ensures FirstContaining(a, id) == FirstContaining(b, id)
  {
    if |a| > 0 {
      ContainsPaneByShape(a[0], b[0], id);
      FirstContainingByShape(a[1..], b[1..], id);
    }
  }

  /** The pane count depends only on the shape. */
  lemma {:induction false} CountPanesByShape(a: Node, b: Node)
    requires ShapeOf(a) == ShapeOf(b)
    ensures CountPanes(a) == CountPanes(b)
  {
    if a.split != SplitNone {
      forall i | 0 <= i < |a.children| ensures ShapeOf(a.children[i]) == ShapeOf(b.children[i]) {
        assert ShapeOf(a).children[i] == ShapeOf(b).children[i];
      }
      CountAllByShape(a.children, b.children);
    }
  }

  lemma {:induction false} CountAllByShape(a: seq<Node>, b: seq<Node>)
    requires |a| == |b|
    requires forall i :: 0 <= i < |a| ==> ShapeOf(a[i]) == ShapeOf(b[i])
    ensures CountAll(a) == CountAll(b)
  {
    if |a| > 0 {
      CountAllByShape(a[..|a| - 1], b[..|b| - 1]);
      CountPanesByShape(a[|a| - 1], b[|b| - 1]);
    }
  }

  /** Every pane of a tidy tree is counted once: the count is at least the number of distinct ids. */
  lemma {:induction false} CountPanesBoundsIds(n: Node)
    requires Tidy(n)
    ensures |LeafIds(n)| <= CountPanes(n)
  {
    if n.split != SplitNone {
      CountAllBoundsIds(n.children);
      assert LeafIds(n) == IdsOf(n.children);
    }
  }

  function IdsOf(cs: seq<Node>): set<int>
  {
    set i, id | 0 <= i < |cs| && id in LeafIds(cs[i]) :: id
  }

  lemma {:induction false} CountAllBoundsIds(cs: seq<Node>)
    requires forall i :: 0 <= i < |cs| ==> Tidy(cs[i])
    ensures |IdsOf(cs)| <= CountAll(cs)
  {
    if |cs| > 0 {
      var init := cs[..|cs| - 1];
      CountAllBoundsIds(init);
      CountPanesBoundsIds(cs[|cs| - 1]);
      assert IdsOf(cs) == IdsOf(init) + LeafIds(cs[|cs| - 1]);
    }
  }
}
