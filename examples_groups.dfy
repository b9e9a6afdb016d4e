/**
 * The grouping on the panes the layout tests use: a window 255 cells wide
 * whose first column is split into two rows.
 *
 *   %1 84x30 at (0, 0)    %3 85x61 at (85, 0)    %4 84x61 at (171, 0)
 *   %2 84x30 at (0, 31)
 */
module PaneGroupsExamples {
  import opened TmuxReplies
  import opened PaneGroups

  function P1(): PaneInfo { PaneInfo("%1", 1, 84, 30, 0, 0, false) }
  function P2(): PaneInfo { PaneInfo("%2", 2, 84, 30, 0, 31, false) }
  function P3(): PaneInfo { PaneInfo("%3", 3, 85, 61, 85, 0, false) }
  function P4(): PaneInfo { PaneInfo("%4", 4, 84, 61, 171, 0, false) }

  function TestPanes(): seq<PaneInfo> { [P1(), P2(), P3(), P4()] }

  /** Three increasing offsets are already in order. */
  lemma SortedThree(a: int, b: int, c: int)
    requires a < b < c
    ensures SortedKeys({a, b, c}) == [a, b, c]
  {
    IncreasingUnique([a, b, c], SortedKeys({a, b, c}));
  }

  lemma SortedTwo(a: int, b: int)
    requires a < b
    ensures SortedKeys({a, b}) == [a, b]
  {
    IncreasingUnique([a, b], SortedKeys({a, b}));
  }

  lemma InKeyOrderThree(m: map<int, Group>, a: int, b: int, c: int)
    requires a < b < c && m.Keys == {a, b, c}
    ensures InKeyOrder(m) == [m[a], m[b], m[c]]
  {
    SortedThree(a, b, c);
  }

  lemma InKeyOrderTwo(m: map<int, Group>, a: int, b: int)
    requires a < b && m.Keys == {a, b}
    ensures InKeyOrder(m) == [m[a], m[b]]
  {
    SortedTwo(a, b);
  }

  /** One pane going into the map, where its prefix's map is known. */
  lemma MapStep(ps: seq<PaneInfo>, p: PaneInfo, d: Dim, before: map<int, Group>)
    requires GroupMap(ps, d) == before
    ensures GroupMap(ps + [p], d) == AddPane(before, p, d)
  {
    assert (ps + [p])[..|ps|] == ps;
  }

  /** The map `findColumns` builds: offsets 0, 85 and 171. */
  lemma ColumnMap()
    ensures GroupMap(TestPanes(), Columns) ==
      map[0 := Group(0, 84, [P1(), P2()]), 85 := Group(85, 85, [P3()]), 171 := Group(171, 84, [P4()])]
  {
    assert GroupMap([], Columns) == map[];
    MapStep([], P1(), Columns, map[]);
    var m1 := map[0 := Group(0, 84, [P1()])];
    assert [] + [P1()] == [P1()];
    MapStep([P1()], P2(), Columns, m1);
    var m2 := map[0 := Group(0, 84, [P1(), P2()])];
    assert [P1()] + [P2()] == [P1(), P2()];
    MapStep([P1(), P2()], P3(), Columns, m2);
    var m3 := m2[85 := Group(85, 85, [P3()])];
    assert [P1(), P2()] + [P3()] == [P1(), P2(), P3()];
    MapStep([P1(), P2(), P3()], P4(), Columns, m3);
    assert [P1(), P2(), P3()] + [P4()] == TestPanes();
  }

  /**
   * Three columns by increasing left offset: the first holds %1 and %2 and
   * is 84 wide, the other two hold one pane each.
   */
  lemma ColumnsOfTestPanes()
    ensures Groups(TestPanes(), Columns) ==
      [Group(0, 84, [P1(), P2()]), Group(85, 85, [P3()]), Group(171, 84, [P4()])]
  {
    ColumnMap();
    var m := GroupMap(TestPanes(), Columns);
    assert m.Keys == {0, 85, 171};
    InKeyOrderThree(m, 0, 85, 171);
  }

  /** The first column's rows: tops 0 and 31, each 30 high. */
  lemma RowsOfFirstColumn()
    ensures Groups([P1(), P2()], Rows) == [Group(0, 30, [P1()]), Group(31, 30, [P2()])]
  {
    assert GroupMap([], Rows) == map[];
    MapStep([], P1(), Rows, map[]);
    assert [] + [P1()] == [P1()];
    MapStep([P1()], P2(), Rows, map[0 := Group(0, 30, [P1()])]);
    assert [P1()] + [P2()] == [P1(), P2()];
    var m := GroupMap([P1(), P2()], Rows);
    assert m.Keys == {0, 31};
    InKeyOrderTwo(m, 0, 31);
  }

  /** A column of one full-height pane has one row. */
  lemma RowsOfSinglePaneColumn(p: PaneInfo)
    ensures Groups([p], Rows) == [Group(p.top, p.height, [p])]
  {
    assert [p][..0] == [];
    assert GroupMap([p][..0], Rows) == map[];
    var m := GroupMap([p], Rows);
    assert m == map[p.top := Group(p.top, p.height, [p])];
    assert m.Keys == {p.top};
    IncreasingUnique([p.top], SortedKeys({p.top}));
  }
}
