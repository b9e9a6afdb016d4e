/**
 * The zoom itself (layout.go): the active child of a split gets a fixed
 * percentage of the space between the borders, its siblings share the rest
 * in proportion to their old sizes, and the new sizes are pushed down into
 * the descendants.
 *
 * `applyHorizontalZoom` and `applyVerticalZoom` are the same algorithm on
 * widths and x offsets or on heights and y offsets; here they are one
 * method with an `Axis`, as are `updateChildWidths` and
 * `updateChildHeights`.
 */
module Zoom {
  import opened GoStd
  import opened LayoutTree
  import LayoutCodec

  /** The share of the space a focused pane gets unless configured otherwise. */
  const DefaultZoomPercent: int := 65

  /** The dimension a zoom resizes: widths and x offsets, or heights and y offsets. */
  datatype Axis = Horizontal | Vertical

  function Size(n: Node, axis: Axis): int
  {
    if axis == Horizontal then n.width else n.height
  }

  function Offset(n: Node, axis: Axis): int
  {
    if axis == Horizontal then n.x else n.y
  }

  /** The extent and offset across the axis, which a zoom along it leaves alone. */
  function Across(n: Node, axis: Axis): (int, int)
  {
    if axis == Horizontal then (n.height, n.y) else (n.width, n.x)
  }

  function Resize(n: Node, axis: Axis, size: int): Node
  {
    if axis == Horizontal then n.(width := size) else n.(height := size)
  }

  function Move(n: Node, axis: Axis, offset: int): Node
  {
    if axis == Horizontal then n.(x := offset) else n.(y := offset)
  }

  /**
   * The split whose children all span their parent along the axis: a
   * column of rows (`[]`) for widths, a row of columns (`{}`) for heights.
   */
  function Stacked(axis: Axis): SplitType
  {
    if axis == Horizontal then SplitVertical else SplitHorizontal
  }

  /**
   * `updateChildWidths` / `updateChildHeights`: the node takes the new
   * extent, and so, recursively, does every child of a stacked split; the
   * children of any other split keep their own extents.
   */
  function Propagate(n: Node, axis: Axis, size: int): (r: Node)
    ensures Size(r, axis) == size
    ensures Offset(r, axis) == Offset(n, axis) && Across(r, axis) == Across(n, axis)
    ensures ShapeOf(r) == ShapeOf(n)
    ensures n.split != Stacked(axis) ==> r.children == n.children
    ensures n.split == Stacked(axis) ==>
      forall i :: 0 <= i < |r.children| ==> Size(r.children[i], axis) == size
  {
    var cs := if n.split == Stacked(axis)
      then seq(|n.children|, i requires 0 <= i < |n.children| => Propagate(n.children[i], axis, size))
      else n.children;
    assert forall i :: 0 <= i < |cs| ==> ShapeOf(cs[i]) == ShapeOf(n.children[i]);
    assert ShapeOf(n.(children := cs)).children == ShapeOf(n).children;
    Resize(n.(children := cs), axis, size)
  }

  // ---------------------------------------------------------------------
  // Sharing out the space of one split

  function Sum(s: seq<int>): int
  {
    if |s| == 0 then 0 else Sum(s[..|s| - 1]) + s[|s| - 1]
  }

  /** The children's extents along the axis, in order. */
  function SizesOf(cs: seq<Node>, axis: Axis): (s: seq<int>)
    ensures |s| == |cs|
  {
    seq(|cs|, i requires 0 <= i < |cs| => Size(cs[i], axis))
  }

  /** `targetWidth`: the active child's percentage of the available space, truncated. */
  function Target(avail: int, percent: int): int
  {
    Quot(avail * percent, 100)
  }

  /**
   * A sibling's share before the rounding fix: its old size scaled from the
   * siblings' old total `other` to the `remaining` space the target leaves,
   * or an equal part of that among the `siblings` when their old total is
   * not positive.
   */
  function SiblingShare(size: int, remaining: int, other: int, siblings: nat): int
    requires siblings > 0
  {
    if other > 0 then Quot(size * remaining, other) else Quot(remaining, siblings)
  }

  /** The children's shares before the rounding fix: the target for the active child. */
  function RawShares(sizes: seq<int>, active: nat, avail: int, percent: int): (raw: seq<int>)
    requires |sizes| >= 2 && active < |sizes|
    ensures |raw| == |sizes|
  {
    var target := Target(avail, percent);
    var other := Sum(sizes) - sizes[active];
    seq(|sizes|, i requires 0 <= i < |sizes| =>
      if i == active then target else SiblingShare(sizes[i], avail - target, other, |sizes| - 1))
  }

  /**
   * `newWidths` after the rounding fix: what the raw shares miss or
   * overspend of the available space goes to the active child (adding the
   * difference only when it is not 0 is adding it always).
   */
  function Shares(sizes: seq<int>, active: nat, avail: int, percent: int): (ws: seq<int>)
    requires |sizes| >= 2 && active < |sizes|
    ensures |ws| == |sizes|
  {
    var raw := RawShares(sizes, active, avail, percent);
    var used := Sum(raw);
    seq(|sizes|, i requires 0 <= i < |sizes| => if i == active then raw[active] + (avail - used) else raw[i])
  }

  /** The loops of `applyHorizontalZoom` that compute `otherWidth` and `newWidths`. */
  method DistributeSizes(sizes: seq<int>, active: nat, avail: int, percent: int) returns (shares: seq<int>)
    requires |sizes| >= 2 && active < |sizes|
    ensures shares == Shares(sizes, active, avail, percent)
  {
    ghost var raw := RawShares(sizes, active, avail, percent);
    var target := Quot(avail * percent, 100);
    var other := 0;
    for i := 0 to |sizes|
      invariant other == Sum(sizes[..i]) - (if active < i then sizes[active] else 0)
    {
      SumPrefix(sizes, i);
      if i != active {
        other := other + sizes[i];
      }
    }
    assert sizes[..|sizes|] == sizes;
    var remaining := avail - target;
    var ws := new int[|sizes|];
    var used := 0;
    for i := 0 to |sizes|
      invariant forall k :: 0 <= k < i ==> ws[k] == raw[k]
      invariant used == Sum(raw[..i])
    {
      RawEntry(sizes, active, avail, percent, i);
      SumPrefix(raw, i);
      if i == active {
        ws[i] := target;
      } else if other > 0 {
        ws[i] := Quot(sizes[i] * remaining, other);
      } else {
        ws[i] := Quot(remaining, |sizes| - 1);
      }
      used := used + ws[i];
    }
    assert raw[..|sizes|] == raw;
    assert ws[..] == raw;
    if used != avail {
      ws[active] := ws[active] + (avail - used);
    }
    shares := ws[..];
    FixedShares(sizes, active, avail, percent);
  }

  lemma SumPrefix(s: seq<int>, i: nat)
    requires i < |s|
    ensures Sum(s[..i + 1]) == Sum(s[..i]) + s[i]
  {
    assert s[..i + 1][..i] == s[..i];
  }

  /** One raw share, as the loop computes it. */
  lemma RawEntry(sizes: seq<int>, active: nat, avail: int, percent: int, i: nat)
    requires |sizes| >= 2 && active < |sizes| && i < |sizes|
    ensures RawShares(sizes, active, avail, percent)[i] ==
      if i == active then Quot(avail * percent, 100)
      else SiblingShare(sizes[i], avail - Quot(avail * percent, 100), Sum(sizes) - sizes[active], |sizes| - 1)
  {
  }

  /** The rounding fix applied to the raw shares gives the shares. */
  lemma FixedShares(sizes: seq<int>, active: nat, avail: int, percent: int)
    requires |sizes| >= 2 && active < |sizes|
    ensures var raw := RawShares(sizes, active, avail, percent);
      raw[active := raw[active] + (avail - Sum(raw))] == Shares(sizes, active, avail, percent)
  {
  }

  lemma {:induction false} SumUpdate(s: seq<int>, k: nat, v: int)
    requires k < |s|
    ensures Sum(s[k := v]) == Sum(s) - s[k] + v
  {
    var t := s[k := v];
    if k < |s| - 1 {
      assert t[..|t| - 1] == s[..|s| - 1][k := v];
      SumUpdate(s[..|s| - 1], k, v);
    } else {
      assert t[..|t| - 1] == s[..|s| - 1];
    }
  }

  /**
   * The rounding fix in terms of the raw shares: the siblings keep theirs,
   * and the active child gets whatever they leave of the available space.
   */
  lemma SharesEntries(sizes: seq<int>, active: nat, avail: int, percent: int)
    requires |sizes| >= 2 && active < |sizes|
    ensures Shares(sizes, active, avail, percent)[active] ==
      avail - Sum(RawShares(sizes, active, avail, percent)[active := 0])
    ensures forall i :: 0 <= i < |sizes| && i != active ==>
      Shares(sizes, active, avail, percent)[i] == RawShares(sizes, active, avail, percent)[i]
  {
    var raw := RawShares(sizes, active, avail, percent);
    SumUpdate(raw, active, 0);
  }

  /** The shares fill the available space exactly. */
  lemma SharesFill(sizes: seq<int>, active: nat, avail: int, percent: int)
    requires |sizes| >= 2 && active < |sizes|
    ensures Sum(Shares(sizes, active, avail, percent)) == avail
  {
    var raw := RawShares(sizes, active, avail, percent);
    SumUpdate(raw, active, raw[active] + (avail - Sum(raw)));
    assert Shares(sizes, active, avail, percent) == raw[active := raw[active] + (avail - Sum(raw))];
  }

  /** A sum of products bounded term by term is bounded. */
  lemma {:induction false} SumScaled(a: seq<int>, b: seq<int>, p: int, q: int)
    requires |a| == |b|
    requires forall i :: 0 <= i < |a| ==> a[i] * p <= b[i] * q
    ensures Sum(a) * p <= Sum(b) * q
  {
    if |a| > 0 {
      var m := |a| - 1;
      SumScaled(a[..m], b[..m], p, q);
      assert Sum(a) * p == Sum(a[..m]) * p + a[m] * p;
      assert Sum(b) * q == Sum(b[..m]) * q + b[m] * q;
    }
  }

  /** Bounded term by term against `b` scaled to `q`, where `b` sums to `p`, `a` sums to at most `q`. */
  lemma SumScaledBound(a: seq<int>, b: seq<int>, p: int, q: int)
    requires |a| == |b| && p > 0 && Sum(b) == p
    requires forall i :: 0 <= i < |a| ==> a[i] * p <= b[i] * q
    ensures Sum(a) <= q
  {
    SumScaled(a, b, p, q);
    CancelFactor(Sum(a), q, p);
  }

  lemma {:induction false} SumOnes(n: nat)
    ensures Sum(seq(n, i => 1)) == n
  {
    if n > 0 {
      assert seq(n, i => 1)[..n - 1] == seq(n - 1, i => 1);
      SumOnes(n - 1);
    }
  }

  lemma {:induction false} NonNegativeSum(s: seq<int>)
    requires forall i :: 0 <= i < |s| ==> s[i] >= 0
    ensures Sum(s) >= 0
  {
    if |s| > 0 {
      NonNegativeSum(s[..|s| - 1]);
    }
  }

  /** A term of a sum of non-negative numbers is at most the sum. */
  lemma {:induction false} NonNegativeTerm(s: seq<int>, k: nat)
    requires k < |s|
    requires forall i :: 0 <= i < |s| ==> s[i] >= 0
    ensures s[k] <= Sum(s)
  {
    if k < |s| - 1 {
      NonNegativeTerm(s[..|s| - 1], k);
    } else {
      NonNegativeSum(s[..|s| - 1]);
    }
  }

  /** With room that is not negative and a percentage from 0 to 100, the target fits in the room. */
  lemma TargetBounds(avail: int, percent: int)
    requires avail >= 0 && 0 <= percent <= 100
    ensures 0 <= Target(avail, percent) <= avail
  {
    MulMonotone(percent, 100, avail);
    MulMonotone(0, percent, avail);
    assert 0 <= avail * percent <= avail * 100;
    QuotMonotone(avail * percent, avail * 100, 100);
    QuotRemainder(avail * percent, 100);
    QuotExact(avail, 100);
  }

  /**
   * A sibling's share lies between nothing and the remaining space, and is
   * rounded down: scaled back up it never exceeds what it was scaled from.
   */
  lemma SiblingShareBounds(size: int, remaining: int, other: int, siblings: nat)
    requires siblings > 0 && remaining >= 0 && size >= 0
    requires other > 0 ==> size <= other
    ensures 0 <= SiblingShare(size, remaining, other, siblings) <= remaining
    ensures other > 0 ==> SiblingShare(size, remaining, other, siblings) * other <= size * remaining
    ensures other <= 0 ==> SiblingShare(size, remaining, other, siblings) * siblings <= remaining
  {
    if other > 0 {
      MulMonotone(0, size, remaining);
      MulMonotone(size, other, remaining);
      QuotMonotone(size * remaining, remaining * other, other);
      QuotExact(remaining, other);
      QuotRemainder(size * remaining, other);
    } else {
      QuotRemainder(remaining, siblings);
    }
  }

  /** A sibling that was no larger gets no larger a share. */
  lemma SiblingShareMonotone(x: int, y: int, remaining: int, other: int, siblings: nat)
    requires siblings > 0 && 0 <= x <= y && remaining >= 0
    ensures SiblingShare(x, remaining, other, siblings) <= SiblingShare(y, remaining, other, siblings)
  {
    if other > 0 {
      MulMonotone(x, y, remaining);
      MulMonotone(0, x, remaining);
      QuotMonotone(x * remaining, y * remaining, other);
    }
  }

  /**
   * The siblings' old total: the sum of the sizes other than the active
   * child's, and so not negative when no size is.
   */
  lemma SiblingTotal(sizes: seq<int>, active: nat)
    requires active < |sizes|
    requires forall i :: 0 <= i < |sizes| ==> sizes[i] >= 0
    ensures Sum(sizes[active := 0]) == Sum(sizes) - sizes[active] >= 0
    ensures forall i :: 0 <= i < |sizes| && i != active ==> sizes[i] <= Sum(sizes) - sizes[active]
  {
    SumUpdate(sizes, active, 0);
    NonNegativeSum(sizes[active := 0]);
    forall i | 0 <= i < |sizes| && i != active ensures sizes[i] <= Sum(sizes) - sizes[active] {
      NonNegativeTerm(sizes[active := 0], i);
    }
  }

  /** Each sibling's raw share lies between nothing and what the target leaves. */
  lemma RawShareBounds(sizes: seq<int>, active: nat, avail: int, percent: int, i: nat)
    requires |sizes| >= 2 && active < |sizes| && i < |sizes| && i != active
    requires forall k :: 0 <= k < |sizes| ==> sizes[k] >= 0
    requires avail >= 0 && 0 <= percent <= 100
    ensures 0 <= RawShares(sizes, active, avail, percent)[i] <= avail - Target(avail, percent)
  {
    TargetBounds(avail, percent);
    SiblingTotal(sizes, active);
    SiblingShareBounds(sizes[i], avail - Target(avail, percent), Sum(sizes) - sizes[active], |sizes| - 1);
  }

  /** The siblings' raw shares never add up to more than the target leaves. */
  lemma SiblingsWithinRemaining(sizes: seq<int>, active: nat, avail: int, percent: int)
    requires |sizes| >= 2 && active < |sizes|
    requires forall i :: 0 <= i < |sizes| ==> sizes[i] >= 0
    requires avail >= 0 && 0 <= percent <= 100
    ensures Sum(RawShares(sizes, active, avail, percent)[active := 0]) <= avail - Target(avail, percent)
  {
    var raw := RawShares(sizes, active, avail, percent);
    var a := raw[active := 0];
    var remaining := avail - Target(avail, percent);
    var other := Sum(sizes) - sizes[active];
    var m := |sizes| - 1;
    SiblingTotal(sizes, active);
    TargetBounds(avail, percent);
    if other > 0 {
      var b := sizes[active := 0];
      forall i | 0 <= i < |a| ensures 0 <= b[i] <= other && a[i] == SiblingShare(b[i], remaining, other, m) {
        if i == active {
          assert Quot(0, other) == 0;
        } else {
          assert a[i] == raw[i];
        }
      }
      ProportionalTerms(a, b, remaining, other, m);
      SumScaledBound(a, b, other, remaining);
    } else {
      var ones := seq(|sizes|, i => 1);
      var b := ones[active := 0];
      SumOnes(|sizes|);
      SumUpdate(ones, active, 0);
      forall i | 0 <= i < |a| ensures (b[i] == 0 && a[i] == 0) || (b[i] == 1 && a[i] == Quot(remaining, m)) {
        if i != active {
          assert a[i] == raw[i];
        }
      }
      EqualTerms(a, b, remaining, m);
      SumScaledBound(a, b, m, remaining);
    }
  }

  /**
   * Term by term, where the siblings' old total is positive: a raw share
   * times that total is at most the old size times what the target leaves.
   */
  lemma ProportionalTerms(a: seq<int>, b: seq<int>, remaining: int, other: int, m: nat)
    requires |a| == |b| && other > 0 && m > 0 && remaining >= 0
    requires forall i :: 0 <= i < |a| ==> 0 <= b[i] <= other && a[i] == SiblingShare(b[i], remaining, other, m)
    ensures forall i :: 0 <= i < |a| ==> a[i] * other <= b[i] * remaining
  {
    forall i | 0 <= i < |a| ensures a[i] * other <= b[i] * remaining {
      SiblingShareBounds(b[i], remaining, other, m);
    }
  }

  /**
   * Term by term, where the siblings' old total is not positive: each
   * sibling's equal part times their number is at most what the target leaves.
   */
  lemma EqualTerms(a: seq<int>, b: seq<int>, remaining: int, m: nat)
    requires |a| == |b| && m > 0 && remaining >= 0
    requires forall i :: 0 <= i < |a| ==> (b[i] == 0 && a[i] == 0) || (b[i] == 1 && a[i] == Quot(remaining, m))
    ensures forall i :: 0 <= i < |a| ==> a[i] * m <= b[i] * remaining
  {
    QuotRemainder(remaining, m);
  }

  /**
   * With sizes that are not negative, room that is not negative and a
   * percentage from 0 to 100, the active child gets at least its target
   * and at most all the room, and each sibling gets between nothing and
   * what the target leaves.
   */
  lemma SharesBounds(sizes: seq<int>, active: nat, avail: int, percent: int)
    requires |sizes| >= 2 && active < |sizes|
    requires forall i :: 0 <= i < |sizes| ==> sizes[i] >= 0
    requires avail >= 0 && 0 <= percent <= 100
    ensures Target(avail, percent) <= Shares(sizes, active, avail, percent)[active] <= avail
    ensures forall i :: 0 <= i < |sizes| && i != active ==>
      0 <= Shares(sizes, active, avail, percent)[i] <= avail - Target(avail, percent)
  {
    var a := RawShares(sizes, active, avail, percent)[active := 0];
    SharesEntries(sizes, active, avail, percent);
    SiblingsWithinRemaining(sizes, active, avail, percent);
    forall i | 0 <= i < |sizes| && i != active
      ensures 0 <= RawShares(sizes, active, avail, percent)[i] <= avail - Target(avail, percent)
    {
      RawShareBounds(sizes, active, avail, percent, i);
    }
    NonNegativeSum(a);
  }

  /** "Others shrink proportionally": a sibling that was no larger gets no larger a share. */
  lemma SharesMonotone(sizes: seq<int>, active: nat, avail: int, percent: int, i: nat, j: nat)
    requires |sizes| >= 2 && active < |sizes|
    requires i < |sizes| && j < |sizes| && i != active && j != active
    requires 0 <= sizes[i] <= sizes[j]
    requires avail - Target(avail, percent) >= 0
    ensures Shares(sizes, active, avail, percent)[i] <= Shares(sizes, active, avail, percent)[j]
  {
    SharesEntries(sizes, active, avail, percent);
    SiblingShareMonotone(sizes[i], sizes[j], avail - Target(avail, percent), Sum(sizes) - sizes[active], |sizes| - 1);
  }

  // ---------------------------------------------------------------------
  // One split

  /**
   * The loop that applies `newWidths`: each child gets its share, starts
   * where the previous one ended plus one border cell, and passes its new
   * extent down to its descendants.
   */
  function Placed(cs: seq<Node>, ws: seq<int>, start: int, axis: Axis): (r: seq<Node>)
    requires |ws| == |cs|
    ensures |r| == |cs|
  {
    seq(|cs|, i requires 0 <= i < |cs| =>
      Propagate(Move(Resize(cs[i], axis, ws[i]), axis, start + Sum(ws[..i]) + i), axis, ws[i]))
  }

  method PlaceChildren(cs: seq<Node>, ws: seq<int>, start: int, axis: Axis) returns (placed: seq<Node>)
    requires |ws| == |cs|
    ensures placed == Placed(cs, ws, start, axis)
  {
    ghost var target := Placed(cs, ws, start, axis);
    placed := cs;
    var current := start;
    for i := 0 to |cs|
      invariant |placed| == |cs|
      invariant current == start + Sum(ws[..i]) + i
      invariant forall k :: 0 <= k < i ==> placed[k] == target[k]
      invariant forall k :: i <= k < |cs| ==> placed[k] == cs[k]
    {
      var child := Resize(placed[i], axis, ws[i]);
      child := Move(child, axis, current);
      child := Propagate(child, axis, ws[i]);
      assert child == target[i];
      placed := placed[i := child];
      SumPrefix(ws, i);
      current := current + ws[i] + 1;
    }
  }

  /** The split `n` with its children laid out from its own offset with the extents `ws`. */
  function LayOut(n: Node, ws: seq<int>, axis: Axis): Node
    requires |ws| == |n.children|
  {
    n.(children := Placed(n.children, ws, Offset(n, axis), axis))
  }

  /** A node's shape ignores its own size and offset. */
  lemma ShapeIgnoresGeometry(a: Node, b: Node)
    requires a.paneId == b.paneId && a.split == b.split && a.children == b.children
    ensures ShapeOf(a) == ShapeOf(b)
  {
    assert forall i :: 0 <= i < |a.children| ==> ShapeOf(a).children[i] == ShapeOf(b).children[i];
  }

  /** Two nodes with the same id and split whose children have the same shapes have the same shape. */
  lemma SameShapes(a: Node, b: Node)
    requires a.paneId == b.paneId && a.split == b.split && |a.children| == |b.children|
    requires forall i :: 0 <= i < |a.children| ==> ShapeOf(a.children[i]) == ShapeOf(b.children[i])
    ensures ShapeOf(a) == ShapeOf(b)
  {
    assert forall i :: 0 <= i < |a.children| ==> ShapeOf(a).children[i] == ShapeOf(b).children[i];
  }

  /** Laying out changes sizes and offsets only: the node itself and the tree's shape stay. */
  lemma LayOutShape(n: Node, ws: seq<int>, axis: Axis)
    requires |ws| == |n.children|
    ensures LayOut(n, ws, axis).(children := n.children) == n
    ensures ShapeOf(LayOut(n, ws, axis)) == ShapeOf(n)
  {
    var cs := n.children;
    var placed := Placed(cs, ws, Offset(n, axis), axis);
    forall i | 0 <= i < |cs| ensures ShapeOf(placed[i]) == ShapeOf(cs[i]) {
      ShapeIgnoresGeometry(Move(Resize(cs[i], axis, ws[i]), axis, Offset(n, axis) + Sum(ws[..i]) + i), cs[i]);
    }
    SameShapes(LayOut(n, ws, axis), n);
  }

  /** The children's new extents are `ws`. */
  lemma LayOutSizes(n: Node, ws: seq<int>, axis: Axis)
    requires |ws| == |n.children|
    ensures SizesOf(LayOut(n, ws, axis).children, axis) == ws
  {
  }

  /** Each child starts one border cell after the end of the previous one. */
  predicate Abutting(cs: seq<Node>, axis: Axis)
  {
    forall k :: 0 <= k < |cs| - 1 ==> Offset(cs[k + 1], axis) == Offset(cs[k], axis) + Size(cs[k], axis) + 1
  }

  predicate NonNegativeSizes(cs: seq<Node>, axis: Axis)
  {
    forall k :: 0 <= k < |cs| ==> Size(cs[k], axis) >= 0
  }

  /**
   * The children are laid out in order from the split's own offset, each
   * one border cell after the end of the previous one.
   */
  lemma LayOutOffsets(n: Node, ws: seq<int>, axis: Axis)
    requires |ws| == |n.children| > 0
    ensures Offset(LayOut(n, ws, axis).children[0], axis) == Offset(n, axis)
    ensures forall i :: 0 <= i < |n.children| - 1 ==>
      Offset(LayOut(n, ws, axis).children[i + 1], axis) ==
      Offset(LayOut(n, ws, axis).children[i], axis) + Size(LayOut(n, ws, axis).children[i], axis) + 1
  {
    var r := LayOut(n, ws, axis).children;
    assert ws[..0] == [];
    PlacedAt(n.children, ws, Offset(n, axis), axis, 0);
    forall i | 0 <= i < |n.children| - 1
      ensures Offset(r[i + 1], axis) == Offset(r[i], axis) + Size(r[i], axis) + 1
    {
      PlacedAt(n.children, ws, Offset(n, axis), axis, i);
      PlacedAt(n.children, ws, Offset(n, axis), axis, i + 1);
      SumPrefix(ws, i);
    }
  }

  /** Where one placed child starts along the axis, and its extent there. */
  lemma PlacedAt(cs: seq<Node>, ws: seq<int>, start: int, axis: Axis, i: nat)
    requires |ws| == |cs| && i < |cs|
    ensures Offset(Placed(cs, ws, start, axis)[i], axis) == start + Sum(ws[..i]) + i
    ensures Size(Placed(cs, ws, start, axis)[i], axis) == ws[i]
  {
  }

  /** Across the axis, every child keeps its extent and offset. */
  lemma LayOutAcross(n: Node, ws: seq<int>, axis: Axis)
    requires |ws| == |n.children|
    ensures forall i :: 0 <= i < |n.children| ==>
      Across(LayOut(n, ws, axis).children[i], axis) == Across(n.children[i], axis)
  {
  }

  /** The space between the borders of a split along the axis (`availableWidth`). */
  function Room(n: Node, axis: Axis): int
  {
    Size(n, axis) - (|n.children| - 1)
  }

  /** `applyHorizontalZoom` / `applyVerticalZoom` on the split `n`, whose child `active` has the focus. */
  function ZoomAlong(n: Node, active: nat, percent: int, axis: Axis): (r: Node)
    requires active < |n.children|
  {
    if |n.children| <= 1 then n
    else LayOut(n, Shares(SizesOf(n.children, axis), active, Room(n, axis), percent), axis)
  }

  method ApplyAxisZoom(n: Node, active: nat, percent: int, axis: Axis) returns (r: Node)
    requires active < |n.children|
    ensures r == ZoomAlong(n, active, percent, axis)
  {
    if |n.children| <= 1 {
      return n;
    }
    var ws := DistributeSizes(SizesOf(n.children, axis), active, Room(n, axis), percent);
    var placed := PlaceChildren(n.children, ws, Offset(n, axis), axis);
    r := n.(children := placed);
  }

  /** The zoom changes sizes and offsets only: the node itself and the tree's shape stay. */
  lemma ZoomAlongShape(n: Node, active: nat, percent: int, axis: Axis)
    requires active < |n.children|
    ensures ZoomAlong(n, active, percent, axis).(children := n.children) == n
    ensures ShapeOf(ZoomAlong(n, active, percent, axis)) == ShapeOf(n)
  {
    if |n.children| > 1 {
      LayOutShape(n, Shares(SizesOf(n.children, axis), active, Room(n, axis), percent), axis);
    }
  }

  /**
   * After the zoom of a split with two or more children, the children and
   * the borders between them fill the split exactly along the axis.
   */
  lemma ZoomAlongFills(n: Node, active: nat, percent: int, axis: Axis)
    requires 2 <= |n.children| && active < |n.children|
    ensures Sum(SizesOf(ZoomAlong(n, active, percent, axis).children, axis)) + |n.children| - 1 == Size(n, axis)
  {
    var ws := Shares(SizesOf(n.children, axis), active, Room(n, axis), percent);
    LayOutSizes(n, ws, axis);
    SharesFill(SizesOf(n.children, axis), active, Room(n, axis), percent);
  }

  /**
   * The children are laid out in order from the split's own offset, each
   * one border cell after the end of the previous one.
   */
  lemma ZoomAlongOffsets(n: Node, active: nat, percent: int, axis: Axis)
    requires 2 <= |n.children| && active < |n.children|
    ensures Offset(ZoomAlong(n, active, percent, axis).children[0], axis) == Offset(n, axis)
    ensures forall i :: 0 <= i < |n.children| - 1 ==>
      Offset(ZoomAlong(n, active, percent, axis).children[i + 1], axis) ==
      Offset(ZoomAlong(n, active, percent, axis).children[i], axis) +
      Size(ZoomAlong(n, active, percent, axis).children[i], axis) + 1
  {
    LayOutOffsets(n, Shares(SizesOf(n.children, axis), active, Room(n, axis), percent), axis);
  }

  /** Across the axis, every child keeps its extent and offset. */
  lemma ZoomAlongAcross(n: Node, active: nat, percent: int, axis: Axis)
    requires active < |n.children|
    ensures forall i :: 0 <= i < |n.children| ==>
      Across(ZoomAlong(n, active, percent, axis).children[i], axis) == Across(n.children[i], axis)
  {
    if |n.children| > 1 {
      LayOutAcross(n, Shares(SizesOf(n.children, axis), active, Room(n, axis), percent), axis);
    }
  }

  /**
   * With sizes that are not negative, room for the borders and a
   * percentage from 0 to 100, the active child ends up at least at its
   * target, and no sibling gets more than the target leaves.
   */
  lemma ZoomAlongActive(n: Node, active: nat, percent: int, axis: Axis)
    requires 2 <= |n.children| && active < |n.children|
    requires forall i :: 0 <= i < |n.children| ==> Size(n.children[i], axis) >= 0
    requires Room(n, axis) >= 0 && 0 <= percent <= 100
    ensures Target(Room(n, axis), percent) <= Size(ZoomAlong(n, active, percent, axis).children[active], axis) <= Room(n, axis)
    ensures forall i :: 0 <= i < |n.children| && i != active ==>
      0 <= Size(ZoomAlong(n, active, percent, axis).children[i], axis) <= Room(n, axis) - Target(Room(n, axis), percent)
  {
    var sizes := SizesOf(n.children, axis);
    LayOutSizes(n, Shares(sizes, active, Room(n, axis), percent), axis);
    SharesBounds(sizes, active, Room(n, axis), percent);
  }

  // ---------------------------------------------------------------------
  // The whole tree

  /**
   * `ApplyZoomToLayout`: on a copy of the tree, the root's split zooms the
   * first child that contains the pane; the tree comes back unchanged when
   * no child contains it or the root is not a split.
   */
  function ZoomRoot(n: Node, id: int, percent: int): Node
  {
    var t := CopyNode(n);
    var i := FirstContaining(t.children, id);
    if i == |t.children| then t else ZoomSplit(t, i, percent)
  }

  /** The zoom of a split along its own axis; a pane is left alone. */
  function ZoomSplit(n: Node, active: nat, percent: int): Node
    requires active < |n.children|
  {
    if n.split == SplitHorizontal then ZoomAlong(n, active, percent, Horizontal)
    else if n.split == SplitVertical then ZoomAlong(n, active, percent, Vertical)
    else n
  }

  /** Zooming a split keeps the node itself and the tree's shape. */
  lemma ZoomSplitShape(n: Node, active: nat, percent: int)
    requires active < |n.children|
    ensures ZoomSplit(n, active, percent).(children := n.children) == n
    ensures ShapeOf(ZoomSplit(n, active, percent)) == ShapeOf(n)
  {
    if n.split != SplitNone {
      ZoomAlongShape(n, active, percent, if n.split == SplitHorizontal then Horizontal else Vertical);
    }
  }

  /**
   * `applyNestedZoom`: below the root, the child holding the pane zooms its
   * own child holding the pane, and so on down the path to the pane.
   */
  function ZoomNested(n: Node, id: int, percent: int): (r: Node)
    ensures |r.children| == |n.children|
    decreases ShapeOf(n)
  {
    var i := FirstContaining(n.children, id);
    if i == |n.children| then n
    else
      var child := n.children[i];
      assert ShapeOf(child) == ShapeOf(n).children[i];
      if |child.children| > 1 && FirstContaining(child.children, id) < |child.children| then
        var j := FirstContaining(child.children, id);
        var zoomed := ZoomSplit(child, j, percent);
        ZoomSplitShape(child, j, percent);
        n.(children := n.children[i := ZoomNested(zoomed, id, percent)])
      else
        n.(children := n.children[i := child])
  }

  /** The tree `ApplyZoom` prints: the root zoom, then the nested zooms. */
  function ZoomTree(n: Node, id: int, percent: int): Node
  {
    ZoomNested(ZoomRoot(n, id, percent), id, percent)
  }

  /** The loop that looks for the first child containing the pane, or -1. */
  method FindActive(cs: seq<Node>, id: int) returns (idx: int)
    ensures -1 <= idx < |cs|
    ensures 0 <= idx ==> ContainsPane(cs[idx], id)
    ensures forall k :: 0 <= k < |cs| && (idx < 0 || k < idx) ==> !ContainsPane(cs[k], id)
    ensures idx == (if FirstContaining(cs, id) < |cs| then FirstContaining(cs, id) else -1)
  {
    for i := 0 to |cs|
      invariant forall k :: 0 <= k < i ==> !ContainsPane(cs[k], id)
    {
      if ContainsPane(cs[i], id) {
        FirstContainingIsFirst(cs, id, i);
        return i;
      }
    }
    FirstContainingIsFirst(cs, id, |cs|);
    return -1;
  }

  /** The first match is unique: any index before which nothing matches and at which something does is it. */
  lemma FirstContainingIsFirst(cs: seq<Node>, id: int, i: nat)
    requires i <= |cs|
    requires forall k :: 0 <= k < i ==> !ContainsPane(cs[k], id)
    requires i < |cs| ==> ContainsPane(cs[i], id)
    ensures FirstContaining(cs, id) == i
  {
  }

  method ApplyZoomToLayout(n: Node, id: int, percent: int) returns (r: Node)
    ensures r == ZoomRoot(n, id, percent)
  {
    r := CopyNode(n);
    var i := FindActive(r.children, id);
    if i == -1 {
      return r;
    }
    if r.split == SplitHorizontal {
      r := ApplyAxisZoom(r, i, percent, Horizontal);
    } else if r.split == SplitVertical {
      r := ApplyAxisZoom(r, i, percent, Vertical);
    }
  }

  method ApplyNestedZoom(n: Node, id: int, percent: int) returns (r: Node)
    ensures r == ZoomNested(n, id, percent)
    decreases ShapeOf(n)
  {
    var i := FindActive(n.children, id);
    if i == -1 {
      return n;
    }
    var child := n.children[i];
    assert ShapeOf(child) == ShapeOf(n).children[i];
    if |child.children| > 1 {
      var j := FindActive(child.children, id);
      if j >= 0 {
        ZoomAlongShape(child, j, percent, Horizontal);
        ZoomAlongShape(child, j, percent, Vertical);
        if child.split == SplitHorizontal {
          child := ApplyAxisZoom(child, j, percent, Horizontal);
        } else if child.split == SplitVertical {
          child := ApplyAxisZoom(child, j, percent, Vertical);
        }
        child := ApplyNestedZoom(child, id, percent);
      }
    }
    r := n.(children := n.children[i := child]);
  }

  /** The tree part of `ApplyZoom`: zoom at the root, then down the path, then print. */
  method ApplyZoom(n: Node, id: int, percent: int) returns (layout: string)
    ensures layout == LayoutCodec.BuildLayout(ZoomTree(n, id, percent))
  {
    var zoomed := ApplyZoomToLayout(n, id, percent);
    zoomed := ApplyNestedZoom(zoomed, id, percent);
    layout := LayoutCodec.BuildLayout(zoomed);
  }

  // ---------------------------------------------------------------------
  // What the whole zoom keeps

  /** The root zoom keeps the root node itself and the tree's shape. */
  lemma ZoomRootShape(n: Node, id: int, percent: int)
    ensures ZoomRoot(n, id, percent).(children := n.children) == n
    ensures ShapeOf(ZoomRoot(n, id, percent)) == ShapeOf(n)
  {
    var i := FirstContaining(n.children, id);
    if i < |n.children| {
      ZoomSplitShape(n, i, percent);
    }
  }

  /** On a split that contains the pane, the root zoom is the zoom along the split's axis. */
  lemma ZoomRootAlong(n: Node, id: int, percent: int, axis: Axis)
    requires axis == Horizontal ==> n.split == SplitHorizontal
    requires axis == Vertical ==> n.split == SplitVertical
    requires FirstContaining(n.children, id) < |n.children|
    ensures ZoomRoot(n, id, percent) == ZoomAlong(n, FirstContaining(n.children, id), percent, axis)
  {
    assert CopyNode(n) == n;
  }

  /**
   * The nested zoom keeps the node itself and its tree's shape, and every
   * child keeps its own size and offset: only what lies below the
   * children moves, so the nested zooms never undo the root zoom.
   */
  lemma {:induction false} ZoomNestedKeeps(n: Node, id: int, percent: int)
    ensures ZoomNested(n, id, percent).(children := n.children) == n
    ensures |ZoomNested(n, id, percent).children| == |n.children|
    ensures forall k :: 0 <= k < |n.children| ==>
      ZoomNested(n, id, percent).children[k].(children := n.children[k].children) == n.children[k]
    ensures ShapeOf(ZoomNested(n, id, percent)) == ShapeOf(n)
    decreases ShapeOf(n)
  {
    var i := FirstContaining(n.children, id);
    if i < |n.children| {
      var child := n.children[i];
      assert ShapeOf(child) == ShapeOf(n).children[i];
      if |child.children| > 1 && FirstContaining(child.children, id) < |child.children| {
        var j := FirstContaining(child.children, id);
        var zoomed := ZoomSplit(child, j, percent);
        ZoomSplitShape(child, j, percent);
        ZoomNestedKeeps(zoomed, id, percent);
        var r := ZoomNested(n, id, percent);
        assert r.children == n.children[i := ZoomNested(zoomed, id, percent)];
        SameShapes(r, n);
      }
    }
  }

  /**
   * The zoom rewrites sizes and offsets only: the zoomed tree has the
   * original's shape, so the same panes, the same pane count and the same
   * splits in the same order.
   */
  lemma ZoomTreeShape(n: Node, id: int, percent: int)
    ensures ShapeOf(ZoomTree(n, id, percent)) == ShapeOf(n)
    ensures CountPanes(ZoomTree(n, id, percent)) == CountPanes(n)
    ensures forall p :: ContainsPane(ZoomTree(n, id, percent), p) <==> ContainsPane(n, p)
  {
    ZoomRootShape(n, id, percent);
    ZoomNestedKeeps(ZoomRoot(n, id, percent), id, percent);
    CountPanesByShape(ZoomTree(n, id, percent), n);
    forall p ensures ContainsPane(ZoomTree(n, id, percent), p) <==> ContainsPane(n, p) {
      ContainsPaneByShape(ZoomTree(n, id, percent), n, p);
    }
  }

  /**
   * When no child of the root holds the pane (a tree without the pane, or
   * a root that is itself a pane), the tree comes back as it was.
   */
  lemma ZoomTreeAbsent(n: Node, id: int, percent: int)
    requires FirstContaining(n.children, id) == |n.children|
    ensures ZoomTree(n, id, percent) == n
  {
    assert ZoomRoot(n, id, percent) == n;
  }

  /**
   * After the whole zoom, the root keeps its own size and offset, and its
   * children have the sizes the root zoom gave them: the shares of the
   * root's room, which fill the root with one border cell between
   * neighbours.
   */
  lemma ZoomTreeRootSizes(n: Node, id: int, percent: int, axis: Axis)
    requires axis == Horizontal ==> n.split == SplitHorizontal
    requires axis == Vertical ==> n.split == SplitVertical
    requires 2 <= |n.children| && FirstContaining(n.children, id) < |n.children|
    ensures ZoomTree(n, id, percent).(children := n.children) == n
    ensures SizesOf(ZoomTree(n, id, percent).children, axis) ==
      Shares(SizesOf(n.children, axis), FirstContaining(n.children, id), Room(n, axis), percent)
    ensures Sum(SizesOf(ZoomTree(n, id, percent).children, axis)) + |n.children| - 1 == Size(n, axis)
  {
    var active := FirstContaining(n.children, id);
    var root := ZoomRoot(n, id, percent);
    ZoomRootAlong(n, id, percent, axis);
    ZoomAlongShape(n, active, percent, axis);
    ZoomAlongFills(n, active, percent, axis);
    LayOutSizes(n, Shares(SizesOf(n.children, axis), active, Room(n, axis), percent), axis);
    NestedKeepsGeometry(root, id, percent, axis);
  }

  /**
   * After the whole zoom, the root's children still sit in order from the
   * root's offset, each one border cell after the end of the previous one.
   */
  lemma ZoomTreeRootOffsets(n: Node, id: int, percent: int, axis: Axis)
    requires axis == Horizontal ==> n.split == SplitHorizontal
    requires axis == Vertical ==> n.split == SplitVertical
    requires 2 <= |n.children| && FirstContaining(n.children, id) < |n.children|
    ensures |ZoomTree(n, id, percent).children| == |n.children|
    ensures Offset(ZoomTree(n, id, percent).children[0], axis) == Offset(n, axis)
    ensures forall i :: 0 <= i < |n.children| - 1 ==>
      Offset(ZoomTree(n, id, percent).children[i + 1], axis) ==
      Offset(ZoomTree(n, id, percent).children[i], axis) + Size(ZoomTree(n, id, percent).children[i], axis) + 1
  {
    var active := FirstContaining(n.children, id);
    var root := ZoomRoot(n, id, percent);
    ZoomRootAlong(n, id, percent, axis);
    ZoomAlongShape(n, active, percent, axis);
    ZoomAlongOffsets(n, active, percent, axis);
    NestedKeepsGeometry(root, id, percent, axis);
    var t := ZoomTree(n, id, percent);
    assert t == ZoomNested(root, id, percent);
    forall i | 0 <= i < |n.children| - 1
      ensures Offset(t.children[i + 1], axis) == Offset(t.children[i], axis) + Size(t.children[i], axis) + 1
    {
      assert Offset(root.children[i + 1], axis) == Offset(root.children[i], axis) + Size(root.children[i], axis) + 1;
    }
  }

  /** The nested zoom leaves the node and its children's sizes and offsets as they were. */
  lemma NestedKeepsGeometry(m: Node, id: int, percent: int, axis: Axis)
    ensures ZoomNested(m, id, percent).(children := m.children) == m
    ensures SizesOf(ZoomNested(m, id, percent).children, axis) == SizesOf(m.children, axis)
    ensures forall k :: 0 <= k < |m.children| ==>
      Offset(ZoomNested(m, id, percent).children[k], axis) == Offset(m.children[k], axis) &&
      Size(ZoomNested(m, id, percent).children[k], axis) == Size(m.children[k], axis)
  {
    ZoomNestedKeeps(m, id, percent);
    var t := ZoomNested(m, id, percent);
    forall k | 0 <= k < |m.children|
      ensures Size(t.children[k], axis) == Size(m.children[k], axis)
      ensures Offset(t.children[k], axis) == Offset(m.children[k], axis)
    {
      assert t.children[k].(children := m.children[k].children) == m.children[k];
    }
  }

  /**
   * Below a node `m` the nested zoom runs on, the child `i` holding the
   * pane is a split whose own child `j` holds the pane: that split gets the
   * one-level zoom along its axis. It keeps its own size and offset, its
   * children get the shares of its room, sit in order from its offset one
   * border cell apart and fill it, and the focused child gets at least its
   * target. The nested zoom then goes on below the zoomed split, which is
   * how the zoom runs down the whole path to the pane.
   */
  lemma NestedZoomsSplit(m: Node, id: int, percent: int, i: nat, j: nat, axis: Axis)
    requires i == FirstContaining(m.children, id) && i < |m.children|
    requires j == FirstContaining(m.children[i].children, id) && 2 <= |m.children[i].children|
    requires j < |m.children[i].children|
    requires axis == Horizontal ==> m.children[i].split == SplitHorizontal
    requires axis == Vertical ==> m.children[i].split == SplitVertical
    ensures |ZoomNested(m, id, percent).children| == |m.children|
    ensures ZoomNested(m, id, percent).children[i] ==
      ZoomNested(ZoomSplit(m.children[i], j, percent), id, percent)
    ensures ZoomNested(m, id, percent).children[i].(children := m.children[i].children) == m.children[i]
    ensures SizesOf(ZoomNested(m, id, percent).children[i].children, axis) ==
      Shares(SizesOf(m.children[i].children, axis), j, Room(m.children[i], axis), percent)
    ensures Sum(SizesOf(ZoomNested(m, id, percent).children[i].children, axis)) + |m.children[i].children| - 1 ==
      Size(m.children[i], axis)
    ensures Offset(ZoomNested(m, id, percent).children[i].children[0], axis) == Offset(m.children[i], axis)
    ensures Abutting(ZoomNested(m, id, percent).children[i].children, axis)
    ensures (NonNegativeSizes(m.children[i].children, axis) && Room(m.children[i], axis) >= 0 && 0 <= percent <= 100) ==>
      Target(Room(m.children[i], axis), percent) <=
        Size(ZoomNested(m, id, percent).children[i].children[j], axis) <= Room(m.children[i], axis)
  {
    NestedStep(m, id, percent, i, j, axis);
    NestedAfterAlong(m.children[i], id, percent, j, axis, ZoomNested(m, id, percent).children[i]);
  }

  /** The nested zoom at `m` replaces child `i` by the nested zoom of its one-level zoom. */
  lemma NestedStep(m: Node, id: int, percent: int, i: nat, j: nat, axis: Axis)
    requires i == FirstContaining(m.children, id) && i < |m.children|
    requires j == FirstContaining(m.children[i].children, id) && 2 <= |m.children[i].children|
    requires j < |m.children[i].children|
    requires axis == Horizontal ==> m.children[i].split == SplitHorizontal
    requires axis == Vertical ==> m.children[i].split == SplitVertical
    ensures |ZoomNested(m, id, percent).children| == |m.children|
    ensures ZoomSplit(m.children[i], j, percent) == ZoomAlong(m.children[i], j, percent, axis)
    ensures ZoomNested(m, id, percent).children[i] ==
      ZoomNested(ZoomSplit(m.children[i], j, percent), id, percent)
  {
  }

  /** What the nested zoom leaves of a split the one-level zoom has just laid out. */
  lemma NestedAfterAlong(c: Node, id: int, percent: int, j: nat, axis: Axis, z: Node)
    requires 2 <= |c.children| && j < |c.children|
    requires axis == Horizontal ==> c.split == SplitHorizontal
    requires axis == Vertical ==> c.split == SplitVertical
    requires z == ZoomNested(ZoomSplit(c, j, percent), id, percent)
    ensures z.(children := c.children) == c
    ensures SizesOf(z.children, axis) == Shares(SizesOf(c.children, axis), j, Room(c, axis), percent)
    ensures Sum(SizesOf(z.children, axis)) + |c.children| - 1 == Size(c, axis)
    ensures Offset(z.children[0], axis) == Offset(c, axis)
    ensures Abutting(z.children, axis)
    ensures (NonNegativeSizes(c.children, axis) && Room(c, axis) >= 0 && 0 <= percent <= 100) ==>
      Target(Room(c, axis), percent) <= Size(z.children[j], axis) <= Room(c, axis)
  {
    var zoomed := ZoomAlong(c, j, percent, axis);
    assert ZoomSplit(c, j, percent) == zoomed;
    ZoomAlongShape(c, j, percent, axis);
    NestedKeepsGeometry(zoomed, id, percent, axis);
    ZoomAlongFills(c, j, percent, axis);
    ZoomAlongOffsets(c, j, percent, axis);
    LayOutSizes(c, Shares(SizesOf(c.children, axis), j, Room(c, axis), percent), axis);
    if NonNegativeSizes(c.children, axis) && Room(c, axis) >= 0 && 0 <= percent <= 100 {
      ZoomAlongActive(c, j, percent, axis);
    }
    forall k | 0 <= k < |c.children| - 1
      ensures Offset(z.children[k + 1], axis) == Offset(z.children[k], axis) + Size(z.children[k], axis) + 1
    {
      assert Offset(zoomed.children[k + 1], axis) ==
        Offset(zoomed.children[k], axis) + Size(zoomed.children[k], axis) + 1;
    }
  }
}
