/**
 * The grouping behind the fallback zoom (`findColumns` and
 * `findRowsInColumn` in layout.go): panes that share a left offset form a
 * column, panes that share a top offset form a row. Each group records
 * the shared offset, the largest extent among its panes and the panes in
 * input order; the groups come out sorted by offset.
 *
 * The two functions are one algorithm on (left, width) or (top, height);
 * here they are one method with a `Dim`.
 */
module PaneGroups {
  import opened TmuxReplies

  /** What groups the panes: the left offset (columns) or the top offset (rows). */
  datatype Dim = Columns | Rows

  function Key(p: PaneInfo, d: Dim): int
  {
    if d == Columns then p.left else p.top
  }

  function Extent(p: PaneInfo, d: Dim): int
  {
    if d == Columns then p.width else p.height
  }

  /** `column` / `row`: the shared offset, the largest extent, and the panes. */
  datatype Group = Group(key: int, extent: int, panes: seq<PaneInfo>)

  // ---------------------------------------------------------------------
  // What a group is, independently of the map that collects it

  /** The distinct offsets of the panes. */
  function KeysOf(ps: seq<PaneInfo>, d: Dim): set<int>
  {
    if |ps| == 0 then {} else KeysOf(ps[..|ps| - 1], d) + {Key(ps[|ps| - 1], d)}
  }

  /** Every pane's offset is one of the keys. */
  lemma {:induction false} KeysOfHas(ps: seq<PaneInfo>, d: Dim, j: nat)
    requires j < |ps|
    ensures Key(ps[j], d) in KeysOf(ps, d)
  {
    if j < |ps| - 1 {
      KeysOfHas(ps[..|ps| - 1], d, j);
    }
  }

  /** Every key is some pane's offset. */
  lemma {:induction false} KeysOfOnly(ps: seq<PaneInfo>, d: Dim, k: int) returns (j: nat)
    requires k in KeysOf(ps, d)
    ensures j < |ps| && Key(ps[j], d) == k
  {
    if Key(ps[|ps| - 1], d) == k {
      j := |ps| - 1;
    } else {
      j := KeysOfOnly(ps[..|ps| - 1], d, k);
    }
  }

  /** The panes at offset `k`, in input order. */
  function Members(ps: seq<PaneInfo>, d: Dim, k: int): (ms: seq<PaneInfo>)
    ensures |ms| <= |ps|
  {
    if |ps| == 0 then []
    else Members(ps[..|ps| - 1], d, k) + (if Key(ps[|ps| - 1], d) == k then [ps[|ps| - 1]] else [])
  }

  /** The extent a group ends with: the first member's, raised by every larger one. */
  function MaxExtent(ms: seq<PaneInfo>, d: Dim): int
    requires |ms| > 0
  {
    if |ms| == 1 then Extent(ms[0], d)
    else
      var m := MaxExtent(ms[..|ms| - 1], d);
      var e := Extent(ms[|ms| - 1], d);
      if e > m then e else m
  }

  /** Exactly the panes with offset `k` are members. */
  lemma {:induction false} MembersExact(ps: seq<PaneInfo>, d: Dim, k: int)
    ensures forall p :: p in Members(ps, d, k) <==> p in ps && Key(p, d) == k
  {
    if |ps| > 0 {
      var init := ps[..|ps| - 1];
      var last := ps[|ps| - 1];
      MembersExact(init, d, k);
      assert ps == init + [last];
    }
  }

  /** An offset has members exactly when some pane sits at it. */
  lemma {:induction false} MembersNonEmpty(ps: seq<PaneInfo>, d: Dim, k: int)
    ensures k in KeysOf(ps, d) <==> |Members(ps, d, k)| > 0
  {
    if |ps| > 0 {
      MembersNonEmpty(ps[..|ps| - 1], d, k);
    }
  }

  /** The largest extent is the extent of some member and no member's is larger. */
  lemma {:induction false} MaxExtentIsMax(ms: seq<PaneInfo>, d: Dim)
    requires |ms| > 0
    ensures forall p :: p in ms ==> Extent(p, d) <= MaxExtent(ms, d)
    ensures exists p :: p in ms && Extent(p, d) == MaxExtent(ms, d)
  {
    if |ms| > 1 {
      var init := ms[..|ms| - 1];
      MaxExtentIsMax(init, d);
      assert ms == init + [ms[|ms| - 1]];
      var m := MaxExtent(init, d);
      if Extent(ms[|ms| - 1], d) <= m {
        var q :| q in init && Extent(q, d) == m;
        assert q in ms;
      }
    } else {
      assert ms[0] in ms;
    }
  }

  /** The group of the panes at offset `k`. */
  function GroupOf(ps: seq<PaneInfo>, d: Dim, k: int): (g: Group)
    requires k in KeysOf(ps, d)
    ensures g.key == k && |g.panes| > 0
  {
    MembersNonEmpty(ps, d, k);
    Group(k, MaxExtent(Members(ps, d, k), d), Members(ps, d, k))
  }

  // ---------------------------------------------------------------------
  // Collecting the groups in a map

  /** A group after one more pane joins it. */
  function Extend(g: Group, p: PaneInfo, d: Dim): Group
  {
    Group(g.key, if Extent(p, d) > g.extent then Extent(p, d) else g.extent, g.panes + [p])
  }

  /** One step of the grouping loop: join the group at the pane's offset, or open one. */
  function AddPane(groups: map<int, Group>, p: PaneInfo, d: Dim): map<int, Group>
  {
    var k := Key(p, d);
    if k in groups then groups[k := Extend(groups[k], p, d)]
    else groups[k := Group(k, Extent(p, d), [p])]
  }

  /** `colMap` / `rowMap` after the panes have gone in one by one. */
  function GroupMap(ps: seq<PaneInfo>, d: Dim): map<int, Group>
  {
    if |ps| == 0 then map[] else AddPane(GroupMap(ps[..|ps| - 1], d), ps[|ps| - 1], d)
  }

  /** One more pane changes only the group at its offset. */
  lemma GroupAppend(ps: seq<PaneInfo>, p: PaneInfo, d: Dim, k: int)
    requires k in KeysOf(ps + [p], d)
    ensures k in KeysOf(ps, d) && k != Key(p, d) ==> GroupOf(ps + [p], d, k) == GroupOf(ps, d, k)
    ensures k in KeysOf(ps, d) && k == Key(p, d) ==> GroupOf(ps + [p], d, k) == Extend(GroupOf(ps, d, k), p, d)
    ensures k !in KeysOf(ps, d) ==> GroupOf(ps + [p], d, k) == Group(k, Extent(p, d), [p])
  {
    var qs := ps + [p];
    assert qs[..|qs| - 1] == ps;
    assert qs[|qs| - 1] == p;
    MembersNonEmpty(ps, d, k);
    var ms := Members(ps, d, k);
    if k !in KeysOf(ps, d) {
      assert ms == [];
      assert Members(qs, d, k) == [p];
    } else if k == Key(p, d) {
      assert Members(qs, d, k) == ms + [p];
      assert (ms + [p])[..|ms|] == ms;
    } else {
      assert Members(qs, d, k) == ms;
    }
  }

  /**
   * The map holds one entry per offset, and the entry at an offset is the
   * group of the panes there: all of them in input order, with the
   * largest extent.
   */
  lemma {:induction false} GroupMapExact(ps: seq<PaneInfo>, d: Dim, k: int)
    ensures k in GroupMap(ps, d) <==> k in KeysOf(ps, d)
    ensures k in GroupMap(ps, d) ==> GroupMap(ps, d)[k] == GroupOf(ps, d, k)
  {
    if |ps| > 0 {
      var init := ps[..|ps| - 1];
      var last := ps[|ps| - 1];
      GroupMapExact(init, d, k);
      assert ps == init + [last];
      if k in KeysOf(ps, d) {
        GroupAppend(init, last, d, k);
      }
    }
  }

  /** The first loop of `findColumns` / `findRowsInColumn`: build the map pane by pane. */
  method GroupByKey(ps: seq<PaneInfo>, d: Dim) returns (groups: map<int, Group>)
    ensures groups == GroupMap(ps, d)
    ensures groups.Keys == KeysOf(ps, d)
    ensures forall k :: k in groups ==> groups[k] == GroupOf(ps, d, k)
  {
    groups := map[];
    for i := 0 to |ps|
      invariant groups == GroupMap(ps[..i], d)
    {
      var p := ps[i];
      var k := Key(p, d);
      assert ps[..i + 1][..i] == ps[..i];
      if k in groups {
        var g := groups[k];
        g := g.(panes := g.panes + [p]);
        if Extent(p, d) > g.extent {
          g := g.(extent := Extent(p, d));
        }
        groups := groups[k := g];
      } else {
        groups := groups[k := Group(k, Extent(p, d), [p])];
      }
    }
    assert ps[..|ps|] == ps;
    forall k ensures k in groups <==> k in KeysOf(ps, d) {
      GroupMapExact(ps, d, k);
    }
    forall k | k in groups ensures groups[k] == GroupOf(ps, d, k) {
      GroupMapExact(ps, d, k);
    }
  }

  // ---------------------------------------------------------------------
  // Sorting by offset

  /** A non-empty set has an element. */
  lemma NonEmpty(s: set<int>)
    requires s != {}
    ensures exists x :: x in s
  {
    if forall x :: x !in s { assert false; }
  }

  /** A non-empty finite set of offsets has a smallest one. */
  lemma {:induction false} MinOf(s: set<int>) returns (k: int)
    requires s != {}
    ensures k in s && forall j :: j in s ==> k <= j
    decreases |s|
  {
    NonEmpty(s);
    var x :| x in s;
    if s == {x} {
      k := x;
    } else {
      var m := MinOf(s - {x});
      k := if x < m then x else m;
      forall j | j in s ensures k <= j {
        if j != x { assert j in s - {x}; }
      }
    }
  }

  lemma MinExists(s: set<int>)
    requires s != {}
    ensures exists k :: k in s && forall j :: j in s ==> k <= j
  {
    var k := MinOf(s);
  }

  /** The smallest offset of a non-empty set. */
  ghost function MinKey(s: set<int>): (k: int)
    requires s != {}
    ensures k in s && forall j :: j in s ==> k <= j
  {
    MinExists(s);
    var k :| k in s && forall j :: j in s ==> k <= j;
    k
  }

  /** The offsets in increasing order. */
  ghost function SortedKeys(s: set<int>): (ks: seq<int>)
    ensures |ks| == |s|
    ensures forall x :: x in s <==> x in ks
    ensures forall i, j :: 0 <= i < j < |ks| ==> ks[i] < ks[j]
    decreases |s|
  {
    if s == {} then []
    else
      var k := MinKey(s);
      var rest := SortedKeys(s - {k});
      assert forall i :: 0 <= i < |rest| ==> k < rest[i];
      ConsIncreasing(k, rest);
      [k] + rest
  }

  lemma ConsIncreasing(k: int, rest: seq<int>)
    requires forall i :: 0 <= i < |rest| ==> k < rest[i]
    requires forall i, j :: 0 <= i < j < |rest| ==> rest[i] < rest[j]
    ensures forall i, j :: 0 <= i < j < |[k] + rest| ==> ([k] + rest)[i] < ([k] + rest)[j]
  {
    var ks := [k] + rest;
    forall i, j | 0 <= i < j < |ks| ensures ks[i] < ks[j] {
      assert ks[j] == rest[j - 1];
      if i > 0 { assert ks[i] == rest[i - 1]; }
    }
  }

  /** The groups of a map by increasing key: what `sort.Slice` by offset leaves, the offsets being distinct. */
  ghost function InKeyOrder(groups: map<int, Group>): (gs: seq<Group>)
    ensures |gs| == |groups.Keys|
  {
    var ks := SortedKeys(groups.Keys);
    seq(|ks|, a requires 0 <= a < |ks| => groups[ks[a]])
  }

  /** An index at which a member of a sequence sits. */
  lemma IndexOfMember(xs: seq<int>, x: int) returns (i: int)
    requires x in xs
    ensures 0 <= i < |xs| && xs[i] == x
  {
    i :| 0 <= i < |xs| && xs[i] == x;
  }

  /** Two strictly increasing sequences with the same elements are the same sequence. */
  lemma {:induction false} IncreasingUnique(xs: seq<int>, ys: seq<int>)
    requires forall a, b :: 0 <= a < b < |xs| ==> xs[a] < xs[b]
    requires forall a, b :: 0 <= a < b < |ys| ==> ys[a] < ys[b]
    requires forall x :: x in xs <==> x in ys
    ensures xs == ys
  {
    if |xs| > 0 { assert xs[0] in xs; }
    if |ys| > 0 { assert ys[0] in ys; }
    if |xs| > 0 && |ys| > 0 {
      var i := IndexOfMember(xs, ys[0]);
      var j := IndexOfMember(ys, xs[0]);
      assert xs[0] == ys[0] by {
        assert i == 0 || j == 0;
      }
      forall x | x in xs[1..] ensures x in ys[1..] {
        TailMember(xs, ys, x);
      }
      forall x | x in ys[1..] ensures x in xs[1..] {
        TailMember(ys, xs, x);
      }
      IncreasingUnique(xs[1..], ys[1..]);
      assert xs == [xs[0]] + xs[1..] && ys == [ys[0]] + ys[1..];
    }
  }

  lemma TailMember(xs: seq<int>, ys: seq<int>, x: int)
    requires forall a, b :: 0 <= a < b < |ys| ==> ys[a] < ys[b]
    requires forall x :: x in xs <==> x in ys
    requires |xs| > 0 && |ys| > 0 && xs[0] == ys[0] && x in xs[1..]
    requires forall a :: 0 < a < |xs| ==> xs[0] < xs[a]
    ensures x in ys[1..]
  {
    var i := IndexOfMember(xs[1..], x);
    assert xs[i + 1] == x;
    var j := IndexOfMember(ys, x);
    assert j != 0;
    assert ys[1..][j - 1] == x;
  }

  /**
   * Part way through the read-out: the offsets `done` taken so far, in
   * increasing order and all below the offsets still in `rest`, and
   * together with `rest` exactly the offsets of the map.
   */
  ghost predicate Drained(keys: set<int>, rest: set<int>, done: seq<int>)
  {
    && rest <= keys
    && (forall a :: 0 <= a < |done| ==> done[a] in keys && done[a] !in rest)
    && (forall x :: x in keys ==> x in rest || x in done)
    && (forall a, b :: 0 <= a < b < |done| ==> done[a] < done[b])
    && (forall a, x :: 0 <= a < |done| && x in rest ==> done[a] < x)
  }

  /** Taking the smallest remaining offset keeps the read-out in order. */
  lemma TakeMin(keys: set<int>, rest: set<int>, done: seq<int>, k: int)
    requires Drained(keys, rest, done)
    requires k in rest && forall j :: j in rest ==> k <= j
    ensures Drained(keys, rest - {k}, done + [k])
  {
    var done' := done + [k];
    assert forall a :: 0 <= a < |done| ==> done'[a] == done[a];
    assert done'[|done|] == k;
    forall x | x in keys ensures x in rest - {k} || x in done' {
      if x == k { assert done'[|done|] == x; }
      else if x !in rest { var a := IndexOfMember(done, x); assert done'[a] == x; }
    }
  }

  /**
   * The second half of `findColumns` / `findRowsInColumn`: the groups are
   * taken out of the map by increasing offset.
   */
  method SortByKey(groups: map<int, Group>) returns (gs: seq<Group>)
    ensures gs == InKeyOrder(groups)
  {
    gs := [];
    var rest := groups.Keys;
    ghost var done: seq<int> := [];
    while rest != {}
      invariant Drained(groups.Keys, rest, done)
      invariant |gs| == |done|
      invariant forall a :: 0 <= a < |done| ==> done[a] in groups && gs[a] == groups[done[a]]
      decreases |rest|
    {
      MinExists(rest);
      var k :| k in rest && forall j :: j in rest ==> k <= j;
      TakeMin(groups.Keys, rest, done, k);
      gs := gs + [groups[k]];
      done := done + [k];
      rest := rest - {k};
    }
    ReadOut(groups, done, gs);
  }

  /** Reading the map out by increasing key gives the groups in key order. */
  lemma ReadOut(groups: map<int, Group>, done: seq<int>, gs: seq<Group>)
    requires forall x :: x in groups <==> x in done
    requires forall a, b :: 0 <= a < b < |done| ==> done[a] < done[b]
    requires |gs| == |done|
    requires forall a :: 0 <= a < |done| ==> done[a] in groups && gs[a] == groups[done[a]]
    ensures gs == InKeyOrder(groups)
  {
    IncreasingUnique(done, SortedKeys(groups.Keys));
  }

  /** What `findColumns` / `findRowsInColumn` return: one group per offset, by increasing offset. */
  ghost function Groups(ps: seq<PaneInfo>, d: Dim): seq<Group>
  {
    InKeyOrder(GroupMap(ps, d))
  }

  /** `findColumns` (`Columns`) and `findRowsInColumn` (`Rows`). */
  method FindGroups(ps: seq<PaneInfo>, d: Dim) returns (gs: seq<Group>)
    ensures gs == Groups(ps, d)
  {
    var groups := GroupByKey(ps, d);
    gs := SortByKey(groups);
  }

  // ---------------------------------------------------------------------
  // What the grouping promises

  /** The keys of the map are the panes' offsets. */
  lemma GroupMapKeys(ps: seq<PaneInfo>, d: Dim)
    ensures GroupMap(ps, d).Keys == KeysOf(ps, d)
  {
    forall k ensures k in GroupMap(ps, d) <==> k in KeysOf(ps, d) {
      GroupMapExact(ps, d, k);
    }
  }

  /** The `a`-th group is the group of the `a`-th smallest offset. */
  lemma GroupAt(ps: seq<PaneInfo>, d: Dim, a: nat)
    requires a < |Groups(ps, d)|
    ensures |Groups(ps, d)| == |KeysOf(ps, d)|
    ensures SortedKeys(KeysOf(ps, d))[a] in KeysOf(ps, d)
    ensures Groups(ps, d)[a] == GroupOf(ps, d, SortedKeys(KeysOf(ps, d))[a])
  {
    GroupMapKeys(ps, d);
    var ks := SortedKeys(KeysOf(ps, d));
    GroupMapExact(ps, d, ks[a]);
  }

  /** The groups come by strictly increasing offset. */
  lemma GroupKeysIncreasing(ps: seq<PaneInfo>, d: Dim)
    ensures forall a, b :: 0 <= a < b < |Groups(ps, d)| ==> Groups(ps, d)[a].key < Groups(ps, d)[b].key
  {
    var gs := Groups(ps, d);
    forall a, b | 0 <= a < b < |gs| ensures gs[a].key < gs[b].key {
      GroupAt(ps, d, a);
      GroupAt(ps, d, b);
    }
  }

  /** There are as many groups as distinct offsets, by strictly increasing offset, and every offset has one. */
  lemma GroupsSorted(ps: seq<PaneInfo>, d: Dim)
    ensures |Groups(ps, d)| == |KeysOf(ps, d)|
    ensures forall a, b :: 0 <= a < b < |Groups(ps, d)| ==> Groups(ps, d)[a].key < Groups(ps, d)[b].key
    ensures forall k :: k in KeysOf(ps, d) <==> exists a :: 0 <= a < |Groups(ps, d)| && Groups(ps, d)[a].key == k
  {
    GroupMapKeys(ps, d);
    GroupKeysIncreasing(ps, d);
    var ks := SortedKeys(KeysOf(ps, d));
    var gs := Groups(ps, d);
    forall a | 0 <= a < |gs| ensures gs[a].key == ks[a] {
      GroupAt(ps, d, a);
    }
    forall k | k in KeysOf(ps, d) ensures exists a :: 0 <= a < |gs| && gs[a].key == k {
      var a := IndexOfMember(ks, k);
      assert gs[a].key == k;
    }
  }

  /**
   * Each group holds exactly the panes at its offset, in input order, and
   * its extent is the largest of theirs.
   */
  lemma GroupsMembers(ps: seq<PaneInfo>, d: Dim, a: nat)
    requires a < |Groups(ps, d)|
    ensures Groups(ps, d)[a].panes == Members(ps, d, Groups(ps, d)[a].key)
    ensures forall p :: p in Groups(ps, d)[a].panes <==> p in ps && Key(p, d) == Groups(ps, d)[a].key
    ensures forall p :: p in Groups(ps, d)[a].panes ==> Extent(p, d) <= Groups(ps, d)[a].extent
    ensures exists p :: p in Groups(ps, d)[a].panes && Extent(p, d) == Groups(ps, d)[a].extent
  {
    GroupAt(ps, d, a);
    var g := Groups(ps, d)[a];
    MembersExact(ps, d, g.key);
    MaxExtentIsMax(g.panes, d);
  }

  lemma InGroupKey(ps: seq<PaneInfo>, d: Dim, a: nat, p: PaneInfo)
    requires a < |Groups(ps, d)| && p in Groups(ps, d)[a].panes
    ensures Key(p, d) == Groups(ps, d)[a].key
  {
    GroupsMembers(ps, d, a);
  }

  /** Every pane lands in exactly one group: the one at its offset. */
  lemma GroupsPartition(ps: seq<PaneInfo>, d: Dim, j: nat)
    requires j < |ps|
    ensures exists a :: 0 <= a < |Groups(ps, d)| && ps[j] in Groups(ps, d)[a].panes
    ensures forall a, b ::
      (0 <= a < |Groups(ps, d)| && 0 <= b < |Groups(ps, d)| &&
       ps[j] in Groups(ps, d)[a].panes && ps[j] in Groups(ps, d)[b].panes) ==> a == b
  {
    var gs := Groups(ps, d);
    var ks := SortedKeys(KeysOf(ps, d));
    KeysOfHas(ps, d, j);
    var a := IndexOfMember(ks, Key(ps[j], d));
    GroupMapKeys(ps, d);
    GroupAt(ps, d, a);
    GroupsMembers(ps, d, a);
    assert ps[j] in gs[a].panes;
    GroupKeysIncreasing(ps, d);
    forall a1, b1 | 0 <= a1 < |gs| && 0 <= b1 < |gs| && ps[j] in gs[a1].panes && ps[j] in gs[b1].panes
      ensures a1 == b1
    {
      InGroupKey(ps, d, a1, ps[j]);
      InGroupKey(ps, d, b1, ps[j]);
    }
  }
}
