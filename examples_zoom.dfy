/**
 * Worked zooms of the window the layout tests use: 255x61 cells, a first
 * column split into two rows (panes 26 and 41), then panes 36 and 42.
 *
 *   b2d9,255x61,0,0{84x61,0,0[84x30,0,0,26,84x30,0,31,41],85x61,85,0,36,84x61,171,0,42}
 */
module ZoomExamples {
  import opened GoStd
  import opened LayoutTree
  import opened Zoom

  function Pane(w: int, h: int, x: int, y: int, id: int): Node
  {
    Node(w, h, x, y, id, SplitNone, [])
  }

  /** The four-pane window before the zoom. */
  function Window(): Node
  {
    Node(255, 61, 0, 0, -1, SplitHorizontal, [
      Node(84, 61, 0, 0, -1, SplitVertical, [Pane(84, 30, 0, 0, 26), Pane(84, 30, 0, 31, 41)]),
      Pane(85, 61, 85, 0, 36),
      Pane(84, 61, 171, 0, 42)])
  }

  /** The window has four panes; a lone pane counts one. */
  lemma WindowPaneCount()
    ensures CountPanes(Window()) == 4
    ensures CountPanes(Pane(100, 50, 0, 0, 1)) == 1
  {
    var w := Window();
    var col := w.children[0];
    var rows := col.children;
    assert rows[..1] == [rows[0]] && rows[..1][..0] == [];
    assert CountAll(rows[..1]) == 1;
    assert CountPanes(col) == 2;
    var cs := w.children;
    assert cs[..1] == [col] && cs[..1][..0] == [];
    assert CountAll(cs[..1]) == 2;
    assert cs[..2][..1] == cs[..1];
    assert CountAll(cs[..2]) == 3;
    assert cs[..3][..2] == cs[..2];
    assert cs[..3] == cs;
  }

  /**
   * The two-pane layouts of the pane-count tests, side by side or stacked:
   * a split of two panes counts two (any such split, printed behind any
   * checksum text, parses back to itself by `LayoutCodec.ParseAnyChecksum`).
   */
  lemma TwoPaneCount(t: Node)
    requires t.split != SplitNone && |t.children| == 2
    requires t.children[0].split == SplitNone && t.children[1].split == SplitNone
    ensures CountPanes(t) == 2
  {
    var cs := t.children;
    assert cs[..1] == [cs[0]] && cs[..1][..0] == [];
    assert CountAll(cs[..1]) == 1;
    assert cs[..|cs| - 1] == cs[..1];
    assert CountAll(cs) == CountAll(cs[..1]) + CountPanes(cs[1]) == 2;
  }

  lemma SumOfThree(a: int, b: int, c: int)
    ensures Sum([a]) == a && Sum([a, b]) == a + b && Sum([a, b, c]) == a + b + c
  {
    assert [a][..0] == [];
    assert Sum([a]) == a;
    assert [a, b][..1] == [a];
    assert Sum([a, b]) == a + b;
    assert [a, b, c][..2] == [a, b];
  }

  /**
   * Focusing pane 26 at 65%: the root's room is 253 cells, of which the
   * first column gets 164 and then the 1 cell the truncated shares of its
   * siblings (44 and 44) leave over.
   */
  lemma RootSharesForPane26()
    ensures Shares([84, 85, 84], 0, 253, 65) == [165, 44, 44]
  {
    QuotUnique(253 * 65, 100, 164);
    QuotUnique(85 * 89, 169, 44);
    QuotUnique(84 * 89, 169, 44);
    SumOfThree(84, 85, 84);
    var raw := RawShares([84, 85, 84], 0, 253, 65);
    assert raw[0] == 164 && raw[1] == 44 && raw[2] == 44;
    assert raw == [164, 44, 44];
    SumOfThree(164, 44, 44);
  }

  /**
   * The root zoom alone (`ApplyZoomToLayout`): the columns become 165, 44
   * and 44 wide at x 0, 166 and 211, and the first column's rows take its
   * new width while keeping their heights.
   */
  lemma RootZoomForPane26()
    ensures ZoomRoot(Window(), 26, 65) ==
      Node(255, 61, 0, 0, -1, SplitHorizontal, [
        Node(165, 61, 0, 0, -1, SplitVertical, [Pane(165, 30, 0, 0, 26), Pane(165, 30, 0, 31, 41)]),
        Pane(44, 61, 166, 0, 36),
        Pane(44, 61, 211, 0, 42)])
    ensures ZoomRoot(Window(), 26, 65) == RootZoomed26()
  {
    var w := Window();
    assert ContainsPane(w.children[0].children[0], 26);
    assert FirstContaining(w.children, 26) == 0;
    assert SizesOf(w.children, Horizontal) == [84, 85, 84];
    RootSharesForPane26();
    assert ZoomRoot(w, 26, 65) == LayOut(w, [165, 44, 44], Horizontal);
    LayOut26();
  }

  /** The columns laid out 165, 44 and 44 wide. */
  lemma LayOut26()
    ensures LayOut(Window(), [165, 44, 44], Horizontal) == RootZoomed26()
  {
    var w := Window();
    var ws := [165, 44, 44];
    PlaceThree(w, ws, Horizontal);
    SumOfThree(165, 44, 44);
    assert ws[..1] == [165] && ws[..2] == [165, 44];
    var col := w.children[0];
    assert Propagate(Move(Resize(col, Horizontal, 165), Horizontal, 0), Horizontal, 165) ==
      Node(165, 61, 0, 0, -1, SplitVertical, [Pane(165, 30, 0, 0, 26), Pane(165, 30, 0, 31, 41)]);
  }

  /** Laying out three children, one by one. */
  lemma PlaceThree(n: Node, ws: seq<int>, axis: Axis)
    requires |n.children| == 3 && |ws| == 3
    ensures LayOut(n, ws, axis).children == [
      Propagate(Move(Resize(n.children[0], axis, ws[0]), axis, Offset(n, axis) + Sum(ws[..0])), axis, ws[0]),
      Propagate(Move(Resize(n.children[1], axis, ws[1]), axis, Offset(n, axis) + Sum(ws[..1]) + 1), axis, ws[1]),
      Propagate(Move(Resize(n.children[2], axis, ws[2]), axis, Offset(n, axis) + Sum(ws[..2]) + 2), axis, ws[2])]
  {
  }

  /** The first column's rows at 65% of its 60-cell room: 39 and 21. */
  lemma ColumnSharesForPane26()
    ensures Shares([30, 30], 0, 60, 65) == [39, 21]
  {
    QuotUnique(60 * 65, 100, 39);
    QuotExact(21, 30);
    assert [30, 30][..1] == [30] && [30][..0] == [];
    var raw := RawShares([30, 30], 0, 60, 65);
    assert raw[0] == 39 && raw[1] == 21;
    assert raw == [39, 21];
    assert [39, 21][..1] == [39] && [39][..0] == [];
  }

  /** The nested zoom of the first column for pane 26: rows 39 and 21 high at y 0 and 40. */
  lemma ColumnZoomForPane26()
    ensures ZoomSplit(Node(165, 61, 0, 0, -1, SplitVertical, [Pane(165, 30, 0, 0, 26), Pane(165, 30, 0, 31, 41)]), 0, 65) ==
      Node(165, 61, 0, 0, -1, SplitVertical, [Pane(165, 39, 0, 0, 26), Pane(165, 21, 0, 40, 41)])
  {
    var col := Node(165, 61, 0, 0, -1, SplitVertical, [Pane(165, 30, 0, 0, 26), Pane(165, 30, 0, 31, 41)]);
    ColumnSharesForPane26();
    assert SizesOf(col.children, Vertical) == [30, 30];
    var hs := [39, 21];
    assert hs[..1] == [39] && hs[..0] == [];
    assert ZoomSplit(col, 0, 65) == LayOut(col, hs, Vertical);
  }

  /** The window after the root zoom for pane 26, as `ApplyZoomToLayout` leaves it. */
  function RootZoomed26(): Node
  {
    Node(255, 61, 0, 0, -1, SplitHorizontal, [
      Node(165, 61, 0, 0, -1, SplitVertical, [Pane(165, 30, 0, 0, 26), Pane(165, 30, 0, 31, 41)]),
      Pane(44, 61, 166, 0, 36),
      Pane(44, 61, 211, 0, 42)])
  }

  /** The nested zoom for pane 26 zooms the first column only. */
  lemma NestedZoomForPane26()
    ensures ZoomNested(RootZoomed26(), 26, 65) ==
      Node(255, 61, 0, 0, -1, SplitHorizontal, [
        Node(165, 61, 0, 0, -1, SplitVertical, [Pane(165, 39, 0, 0, 26), Pane(165, 21, 0, 40, 41)]),
        Pane(44, 61, 166, 0, 36),
        Pane(44, 61, 211, 0, 42)])
  {
    ColumnZoomForPane26();
    var root := RootZoomed26();
    var col := root.children[0];
    var zoomed := Node(165, 61, 0, 0, -1, SplitVertical, [Pane(165, 39, 0, 0, 26), Pane(165, 21, 0, 40, 41)]);
    assert ContainsPane(col.children[0], 26);
    assert FirstContaining(root.children, 26) == 0;
    assert FirstContaining(col.children, 26) == 0;
    assert ContainsPane(zoomed.children[0], 26);
    assert ZoomNested(zoomed, 26, 65) == zoomed;
  }

  /**
   * The whole zoom on pane 26: after the root zoom, the nested zoom gives
   * the first column's rows heights 39 and 21 at y 0 and 40.
   */
  lemma TreeZoomForPane26()
    ensures ZoomTree(Window(), 26, 65) ==
      Node(255, 61, 0, 0, -1, SplitHorizontal, [
        Node(165, 61, 0, 0, -1, SplitVertical, [Pane(165, 39, 0, 0, 26), Pane(165, 21, 0, 40, 41)]),
        Pane(44, 61, 166, 0, 36),
        Pane(44, 61, 211, 0, 42)])
  {
    RootZoomForPane26();
    NestedZoomForPane26();
  }

  /** The shares for pane 42: the same truncated 44s, and the left-over cell goes to the last column. */
  lemma RootSharesForPane42()
    ensures Shares([84, 85, 84], 2, 253, 65) == [44, 44, 165]
  {
    QuotUnique(253 * 65, 100, 164);
    QuotUnique(84 * 89, 169, 44);
    QuotUnique(85 * 89, 169, 44);
    SumOfThree(84, 85, 84);
    var raw := RawShares([84, 85, 84], 2, 253, 65);
    assert raw[0] == 44 && raw[1] == 44 && raw[2] == 164;
    assert raw == [44, 44, 164];
    SumOfThree(44, 44, 164);
  }

  /** The window after the root zoom for pane 42. */
  function RootZoomed42(): Node
  {
    Node(255, 61, 0, 0, -1, SplitHorizontal, [
      Node(44, 61, 0, 0, -1, SplitVertical, [Pane(44, 30, 0, 0, 26), Pane(44, 30, 0, 31, 41)]),
      Pane(44, 61, 45, 0, 36),
      Pane(165, 61, 90, 0, 42)])
  }

  /**
   * The root zoom for pane 42: the last column gets 165 cells at x 90, the
   * others 44 each, and the first column's rows shrink to 44 cells wide.
   */
  lemma RootZoomForPane42()
    ensures ZoomRoot(Window(), 42, 65) ==
      Node(255, 61, 0, 0, -1, SplitHorizontal, [
        Node(44, 61, 0, 0, -1, SplitVertical, [Pane(44, 30, 0, 0, 26), Pane(44, 30, 0, 31, 41)]),
        Pane(44, 61, 45, 0, 36),
        Pane(165, 61, 90, 0, 42)])
    ensures ZoomRoot(Window(), 42, 65) == RootZoomed42()
  {
    var w := Window();
    assert !ContainsPane(w.children[0].children[0], 42) && !ContainsPane(w.children[0].children[1], 42);
    assert FirstContaining(w.children, 42) == 2;
    assert SizesOf(w.children, Horizontal) == [84, 85, 84];
    RootSharesForPane42();
    assert ZoomRoot(w, 42, 65) == LayOut(w, [44, 44, 165], Horizontal);
    LayOut42();
  }

  /** The columns laid out 44, 44 and 165 wide. */
  lemma LayOut42()
    ensures LayOut(Window(), [44, 44, 165], Horizontal) == RootZoomed42()
  {
    var w := Window();
    var ws := [44, 44, 165];
    PlaceThree(w, ws, Horizontal);
    SumOfThree(44, 44, 165);
    assert ws[..1] == [44] && ws[..2] == [44, 44];
    var col := w.children[0];
    assert Propagate(Move(Resize(col, Horizontal, 44), Horizontal, 0), Horizontal, 44) ==
      Node(44, 61, 0, 0, -1, SplitVertical, [Pane(44, 30, 0, 0, 26), Pane(44, 30, 0, 31, 41)]);
  }

  /** Pane 42 is a column of its own, so the nested zoom has nothing to do. */
  lemma NestedZoomForPane42()
    ensures ZoomNested(RootZoomed42(), 42, 65) == RootZoomed42()
  {
    var root := RootZoomed42();
    assert !ContainsPane(root.children[0].children[0], 42) && !ContainsPane(root.children[0].children[1], 42);
    assert FirstContaining(root.children, 42) == 2;
    assert root.children[2 := root.children[2]] == root.children;
  }

  /** The whole zoom on pane 42 is the root zoom. */
  lemma TreeZoomForPane42()
    ensures ZoomTree(Window(), 42, 65) ==
      Node(255, 61, 0, 0, -1, SplitHorizontal, [
        Node(44, 61, 0, 0, -1, SplitVertical, [Pane(44, 30, 0, 0, 26), Pane(44, 30, 0, 31, 41)]),
        Pane(44, 61, 45, 0, 36),
        Pane(165, 61, 90, 0, 42)])
  {
    RootZoomForPane42();
    NestedZoomForPane42();
  }

  /**
   * The zoom does not always leave the focused child the largest, even with
   * a percentage of at least a third for three children: the focused pane
   * of a 100-cell row whose children are 0, 97 and 1 cells wide gets its
   * 33-cell target plus one cell of rounding, 34, while its neighbour keeps
   * 97/98 of the 65 cells left, 64.
   */
  lemma FocusNotLargest()
    ensures Shares([0, 97, 1], 0, 98, 34) == [34, 64, 0]
    ensures SizesOf(ZoomAlong(SkewedRow(), 0, 34, Horizontal).children, Horizontal) == [34, 64, 0]
  {
    SkewedShares();
    var row := SkewedRow();
    assert SizesOf(row.children, Horizontal) == [0, 97, 1];
    assert Room(row, Horizontal) == 98;
    LayOutSizes(row, Shares([0, 97, 1], 0, 98, 34), Horizontal);
  }

  lemma SkewedShares()
    ensures Shares([0, 97, 1], 0, 98, 34) == [34, 64, 0]
  {
    QuotUnique(98 * 34, 100, 33);
    QuotUnique(97 * 65, 98, 64);
    QuotUnique(1 * 65, 98, 0);
    SumOfThree(0, 97, 1);
    var raw := RawShares([0, 97, 1], 0, 98, 34);
    assert raw[0] == 33 && raw[1] == 64 && raw[2] == 0;
    assert raw == [33, 64, 0];
    SumOfThree(33, 64, 0);
  }

  /** A 100x10 row of three panes, 0, 97 and 1 cells wide. */
  function SkewedRow(): Node
  {
    Node(100, 10, 0, 0, -1, SplitHorizontal, [Pane(0, 10, 0, 0, 1), Pane(97, 10, 1, 0, 2), Pane(1, 10, 99, 0, 3)])
  }
}
