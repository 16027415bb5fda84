/**
 * Cells and walls of an N-dimensional torus. A shape lists the size of each
 * axis; a cell is one coordinate per axis; a wall is named by a cell and an
 * axis and separates that cell from the next cell along the axis (the wall
 * after the last cell of an axis is the wall before cell 0).
 */
module Torus {

  /** Every axis has at least one cell (`shape[axis] - 1` would underflow otherwise). */
  predicate ValidShape(shape: seq<nat>)
  {
    forall axis :: 0 <= axis < |shape| ==> 1 <= shape[axis]
  }

  /** One coordinate per axis, each below the size of its axis. */
  predicate ValidCell(shape: seq<nat>, p: seq<nat>)
  {
    |p| == |shape| && forall axis :: 0 <= axis < |p| ==> p[axis] < shape[axis]
  }

  /** The wall between `position` and its successor along `axis`. */
  datatype Wall = Wall(position: seq<nat>, axis: nat)

  predicate ValidWall(shape: seq<nat>, w: Wall)
  {
    ValidCell(shape, w.position) && w.axis < |shape|
  }

  /** The number of cells: the product of the axis sizes. */
  function CellCount(shape: seq<nat>): (n: nat)
    ensures ValidShape(shape) ==> 1 <= n
  {
    if shape == [] then 1 else shape[0] * CellCount(shape[1..])
  }

  /** The number of walls: one per cell and axis. */
  function WallCount(shape: seq<nat>): (n: nat)
  {
    MulNonnegative(CellCount(shape), |shape|);
    CellCount(shape) * |shape|
  }

  /** There is at least one wall per axis and, unless there is no axis, at least one per cell. */
  lemma WallCountBounds(shape: seq<nat>)
    requires ValidShape(shape)
    ensures |shape| <= WallCount(shape)
    ensures shape != [] ==> CellCount(shape) <= WallCount(shape)
  {
    var c, d := CellCount(shape), |shape|;
    assert WallCount(shape) == c * d;
    MulAtLeast(c, d);
    if shape != [] {
      MulAtLeast(d, c);
      assert d * c == c * d;
    }
  }

  /** A product with a positive factor is at least the other factor. */
  lemma MulAtLeast(a: nat, b: nat)
    requires 1 <= a
    ensures b <= a * b
  {
    MulDistributes(b, a - 1, 1);
    MulNonnegative(b, a - 1);
  }

  /**
   * Mixed-radix number of a cell: the first coordinate is the least
   * significant digit, and each axis size is the radix of its digit.
   */
  function Flatten(shape: seq<nat>, p: seq<nat>): (n: nat)
    requires |p| == |shape|
  {
    if shape == [] then 0 else p[0] + shape[0] * Flatten(shape[1..], p[1..])
  }

  /** The first coordinate is the least significant digit of a cell's number. */
  lemma FlattenLowDigit(shape: seq<nat>, p: seq<nat>)
    requires |p| == |shape| && shape != [] && p[0] < shape[0]
    ensures Flatten(shape, p) % shape[0] == p[0]
  {
    DivModOfDigit(p[0], shape[0], Flatten(shape[1..], p[1..]));
  }

  /**
   * The slot of a wall in the flat wall vector: its cell's mixed-radix
   * number, plus the cell count times its axis. Every valid wall lands below
   * the wall count.
   */
  function WallIndex(shape: seq<nat>, w: Wall): (index: nat)
    requires |w.position| == |shape|
    ensures ValidShape(shape) && ValidWall(shape, w) ==> index < WallCount(shape)
  {
    MulNonnegative(CellCount(shape), w.axis);
    if ValidShape(shape) && ValidWall(shape, w) then
      FlattenBelowCellCount(shape, w.position);
      BelowProduct(Flatten(shape, w.position), CellCount(shape), w.axis, |shape|);
      Flatten(shape, w.position) + CellCount(shape) * w.axis
    else
      Flatten(shape, w.position) + CellCount(shape) * w.axis
  }

  /** The cell whose mixed-radix number is `n` (taken modulo the cell count). */
  function Unflatten(shape: seq<nat>, n: nat): (p: seq<nat>)
    requires ValidShape(shape)
    ensures ValidCell(shape, p)
  {
    if shape == [] then [] else [n % shape[0]] + Unflatten(shape[1..], n / shape[0])
  }

  /** The wall stored in slot `index` of the flat wall vector. */
  function DecodeWall(shape: seq<nat>, index: nat): (w: Wall)
    requires ValidShape(shape)
    ensures ValidCell(shape, w.position)
  {
    Wall(Unflatten(shape, index % CellCount(shape)), index / CellCount(shape))
  }

  /** `a + b * q` with `a < b` has quotient `q` and remainder `a` when divided by `b`. */
  lemma DivModOfDigit(a: nat, b: nat, q: nat)
    requires a < b
    ensures (a + b * q) / b == q && (a + b * q) % b == a
  {
    var n := a + b * q;
    var q', a' := n / b, n % b;
    assert n == b * q' + a';
    if q' < q {
      MultipleGap(b, q', q);
    } else if q < q' {
      MultipleGap(b, q, q');
    }
  }

  /** Two different multiples of `b` are at least `b` apart. */
  lemma {:induction false} MultipleGap(b: nat, x: nat, y: nat)
    requires x < y
    ensures b * x + b <= b * y
    decreases y - x
  {
    assert b * (y - 1) + b == b * y;
    if x + 1 < y {
      MultipleGap(b, x, y - 1);
    }
  }

  /** A number below `b * c` has a quotient by `b` below `c`. */
  lemma QuotientBelow(n: nat, b: nat, c: nat)
    requires 0 < b && n < b * c
    ensures n / b < c
  {
    var q := n / b;
    assert b * q <= n;
    if c < q {
      MultipleGap(b, c, q);
    }
  }

  /** `a < c` and `k < d` give `a + c * k < c * d`. */
  lemma BelowProduct(a: nat, c: nat, k: nat, d: nat)
    requires a < c && k < d
    ensures a + c * k < c * d
  {
    assert c * k + c <= c * d by {
      assert c * (k + 1) <= c * d;
    }
  }

  /** A valid cell's mixed-radix number is below the cell count. */
  lemma {:induction false} FlattenBelowCellCount(shape: seq<nat>, p: seq<nat>)
    requires ValidShape(shape) && ValidCell(shape, p)
    ensures Flatten(shape, p) < CellCount(shape)
  {
    if shape != [] {
      assert ValidCell(shape[1..], p[1..]);
      FlattenBelowCellCount(shape[1..], p[1..]);
      BelowProduct(p[0], shape[0], Flatten(shape[1..], p[1..]), CellCount(shape[1..]));
    }
  }

  /** Decoding the number of a valid cell gives back the cell. */
  lemma {:induction false} UnflattenFlatten(shape: seq<nat>, p: seq<nat>)
    requires ValidShape(shape) && ValidCell(shape, p)
    ensures Unflatten(shape, Flatten(shape, p)) == p
  {
    if shape != [] {
      assert ValidCell(shape[1..], p[1..]);
      UnflattenFlatten(shape[1..], p[1..]);
      DivModOfDigit(p[0], shape[0], Flatten(shape[1..], p[1..]));
      assert p == [p[0]] + p[1..];
    }
  }

  /** Every number below the cell count is the number of the cell it decodes to. */
  lemma {:induction false} FlattenUnflatten(shape: seq<nat>, n: nat)
    requires ValidShape(shape) && n < CellCount(shape)
    ensures Flatten(shape, Unflatten(shape, n)) == n
  {
    if shape != [] {
      var q := n / shape[0];
      assert n == n % shape[0] + shape[0] * q;
      QuotientBelow(n, shape[0], CellCount(shape[1..]));
      FlattenUnflatten(shape[1..], q);
      var p := Unflatten(shape, n);
      assert p[1..] == Unflatten(shape[1..], q);
    }
  }

  /** Decoding the slot of a valid wall gives back the wall. */
  lemma WallIndexRoundTrip(shape: seq<nat>, w: Wall)
    requires ValidShape(shape) && ValidWall(shape, w)
    ensures DecodeWall(shape, WallIndex(shape, w)) == w
  {
    FlattenBelowCellCount(shape, w.position);
    DivModOfDigit(Flatten(shape, w.position), CellCount(shape), w.axis);
    UnflattenFlatten(shape, w.position);
  }

  /** Every slot below the wall count holds exactly one valid wall. */
  lemma DecodeWallRoundTrip(shape: seq<nat>, index: nat)
    requires ValidShape(shape) && index < WallCount(shape)
    ensures ValidWall(shape, DecodeWall(shape, index))
    ensures WallIndex(shape, DecodeWall(shape, index)) == index
  {
    var c := CellCount(shape);
    var w := DecodeWall(shape, index);
    assert index == index % c + c * (index / c);
    QuotientBelow(index, c, |shape|);
    FlattenUnflatten(shape, index % c);
  }

  /** Distinct valid walls have distinct slots. */
  lemma WallIndexInjective(shape: seq<nat>, w1: Wall, w2: Wall)
    requires ValidShape(shape) && ValidWall(shape, w1) && ValidWall(shape, w2)
    requires WallIndex(shape, w1) == WallIndex(shape, w2)
    ensures w1 == w2
  {
    WallIndexRoundTrip(shape, w1);
    WallIndexRoundTrip(shape, w2);
  }

  lemma MulNonnegative(a: nat, b: nat)
    ensures 0 <= a * b
  {
  }

  lemma MulDistributes(a: nat, b: nat, c: nat)
    ensures a * (b + c) == a * b + a * c
  {
  }

  lemma MulAssociates(a: nat, b: nat, c: nat)
    ensures a * (b * c) == (a * b) * c
  {
  }

  /** Appending an axis adds its coordinate as the new most significant digit. */
  lemma {:induction false} FlattenSnoc(shape: seq<nat>, p: seq<nat>, d: nat, x: nat)
    requires |p| == |shape|
    ensures Flatten(shape + [d], p + [x]) == Flatten(shape, p) + CellCount(shape) * x
  {
    if shape != [] {
      assert (shape + [d])[1..] == shape[1..] + [d];
      assert (p + [x])[1..] == p[1..] + [x];
      FlattenSnoc(shape[1..], p[1..], d, x);
      var rest := Flatten(shape[1..], p[1..]);
      var count := CellCount(shape[1..]);
      MulDistributes(shape[0], rest, count * x);
      MulAssociates(shape[0], count, x);
    }
  }

  /** Appending an axis of size `d` multiplies the cell count by `d`. */
  lemma {:induction false} CellCountSnoc(shape: seq<nat>, d: nat)
    ensures CellCount(shape + [d]) == CellCount(shape) * d
  {
    if shape != [] {
      assert (shape + [d])[1..] == shape[1..] + [d];
      CellCountSnoc(shape[1..], d);
      MulAssociates(shape[0], CellCount(shape[1..]), d);
    }
  }

  /**
   * The cell one step from `p` along `axis`, forward when `sign` holds and
   * backward otherwise, wrapping around at either end of the axis.
   */
  function Traverse(shape: seq<nat>, p: seq<nat>, axis: nat, sign: bool): (r: seq<nat>)
    requires ValidShape(shape) && ValidCell(shape, p) && axis < |shape|
    ensures ValidCell(shape, r)
    ensures forall i :: 0 <= i < |p| && i != axis ==> r[i] == p[i]
    ensures sign ==> r[axis] == (p[axis] + 1) % shape[axis]
    ensures !sign ==> r[axis] == (p[axis] + shape[axis] - 1) % shape[axis]
  {
    if sign then
      if p[axis] != shape[axis] - 1 then p[axis := p[axis] + 1] else p[axis := 0]
    else
      if p[axis] != 0 then p[axis := p[axis] - 1] else p[axis := shape[axis] - 1]
  }

  /** A step forward undoes a step backward along the same axis, and the other way round. */
  lemma TraverseInverse(shape: seq<nat>, p: seq<nat>, axis: nat, sign: bool)
    requires ValidShape(shape) && ValidCell(shape, p) && axis < |shape|
    ensures Traverse(shape, Traverse(shape, p, axis, sign), axis, !sign) == p
  {
    var q := Traverse(shape, p, axis, sign);
    var r := Traverse(shape, q, axis, !sign);
    assert r[axis] == p[axis];
    assert forall i :: 0 <= i < |p| ==> r[i] == p[i];
  }

  /** The wall crossed when stepping from `p` along `axis` in direction `sign`. */
  function Crossing(shape: seq<nat>, p: seq<nat>, axis: nat, sign: bool): (w: Wall)
    requires ValidShape(shape) && ValidCell(shape, p) && axis < |shape|
    ensures ValidWall(shape, w)
  {
    if sign then Wall(p, axis) else Wall(Traverse(shape, p, axis, false), axis)
  }

  /** The two cells a wall separates: its own cell and the next cell along its axis. */
  function NeighbourCells(shape: seq<nat>, w: Wall): (r: seq<seq<nat>>)
    requires ValidShape(shape) && ValidWall(shape, w)
    ensures |r| == 2 && r[0] == w.position && r[1] == Traverse(shape, w.position, w.axis, true)
  {
    var p := w.position;
    [p, if p[w.axis] != shape[w.axis] - 1 then p[w.axis := p[w.axis] + 1] else p[w.axis := 0]]
  }

  /** The wall crossed by a step is valid and separates exactly the two cells of that step. */
  lemma CrossingSeparates(shape: seq<nat>, p: seq<nat>, axis: nat, sign: bool)
    requires ValidShape(shape) && ValidCell(shape, p) && axis < |shape|
    ensures ValidWall(shape, Crossing(shape, p, axis, sign))
    ensures multiset(NeighbourCells(shape, Crossing(shape, p, axis, sign)))
         == multiset{p, Traverse(shape, p, axis, sign)}
  {
    if !sign {
      TraverseInverse(shape, p, axis, false);
      var cells := NeighbourCells(shape, Crossing(shape, p, axis, sign));
      assert cells == [Traverse(shape, p, axis, false), p];
    }
  }

  /**
   * The `2 * D` walls of cell `p`: for each axis, the wall crossed by a step
   * forward, then the wall crossed by a step backward.
   */
  function WallsOfCell(shape: seq<nat>, p: seq<nat>): (r: seq<Wall>)
    requires ValidShape(shape) && ValidCell(shape, p)
    ensures |r| == 2 * |shape|
  {
    seq(2 * |shape|, i requires 0 <= i < 2 * |shape| => Crossing(shape, p, i / 2, i % 2 == 0))
  }

  /**
   * Builds the walls of cell `position` axis by axis: the wall at the cell
   * itself, then the wall at the cell before it (wrapping to the last cell).
   */
  method FromCell(shape: seq<nat>, position: seq<nat>) returns (walls: seq<Wall>)
    requires ValidShape(shape) && ValidCell(shape, position)
    ensures walls == WallsOfCell(shape, position)
  {
    walls := [];
    for axis := 0 to |shape|
      invariant |walls| == 2 * axis
      invariant forall i :: 0 <= i < |walls| ==> walls[i] == WallsOfCell(shape, position)[i]
    {
      walls := walls + [Wall(position, axis)];
      var before := position;
      if before[axis] != 0 {
        before := before[axis := before[axis] - 1];
      } else {
        before := before[axis := shape[axis] - 1];
      }
      walls := walls + [Wall(before, axis)];
    }
  }

  /** Every wall of a cell is valid and has that cell among its two neighbour cells. */
  lemma WallsOfCellTouch(shape: seq<nat>, p: seq<nat>, i: nat)
    requires ValidShape(shape) && ValidCell(shape, p) && i < 2 * |shape|
    ensures ValidWall(shape, WallsOfCell(shape, p)[i])
    ensures p in NeighbourCells(shape, WallsOfCell(shape, p)[i])
  {
    CrossingSeparates(shape, p, i / 2, i % 2 == 0);
    assert p in multiset(NeighbourCells(shape, WallsOfCell(shape, p)[i]));
  }

  /** Every wall of a cell is valid and is crossed by a step from that cell. */
  lemma WallsOfCellAllTouch(shape: seq<nat>, p: seq<nat>)
    requires ValidShape(shape) && ValidCell(shape, p)
    ensures forall w :: w in WallsOfCell(shape, p) ==>
      ValidWall(shape, w) && (w.position == p || Traverse(shape, w.position, w.axis, true) == p)
  {
    forall w | w in WallsOfCell(shape, p)
      ensures ValidWall(shape, w) && (w.position == p || Traverse(shape, w.position, w.axis, true) == p)
    {
      var i :| 0 <= i < |WallsOfCell(shape, p)| && WallsOfCell(shape, p)[i] == w;
      WallsOfCellTouch(shape, p, i);
    }
  }

  /**
   * Every wall of cell `p` paired with the cell on its other side: for each
   * axis, first the step backward, then the step forward.
   */
  function Neighbours(shape: seq<nat>, p: seq<nat>): (r: seq<(Wall, seq<nat>)>)
    requires ValidShape(shape) && ValidCell(shape, p)
    ensures |r| == 2 * |shape|
  {
    seq(2 * |shape|, i requires 0 <= i < 2 * |shape| =>
      (Crossing(shape, p, i / 2, i % 2 == 1), Traverse(shape, p, i / 2, i % 2 == 1)))
  }

  /** Each pair of `Neighbours(p)` is a valid wall whose two cells are exactly `p` and the paired cell. */
  lemma NeighboursSeparate(shape: seq<nat>, p: seq<nat>, i: nat)
    requires ValidShape(shape) && ValidCell(shape, p) && i < 2 * |shape|
    ensures ValidWall(shape, Neighbours(shape, p)[i].0)
    ensures ValidCell(shape, Neighbours(shape, p)[i].1)
    ensures multiset(NeighbourCells(shape, Neighbours(shape, p)[i].0)) == multiset{p, Neighbours(shape, p)[i].1}
  {
    CrossingSeparates(shape, p, i / 2, i % 2 == 1);
  }

  /** The cells `[x] + q` for every `q` in `cells`. */
  ghost function Prepend(x: nat, cells: set<seq<nat>>): (r: set<seq<nat>>)
    ensures forall c :: c in r ==> 1 <= |c| && c[0] == x
  {
    set q | q in cells :: [x] + q
  }

  /** The cells `[x] + q` for every `x < n` and every `q` in `cells`. */
  ghost function PrependAll(n: nat, cells: set<seq<nat>>): (r: set<seq<nat>>)
    ensures forall c :: c in r ==> 1 <= |c| && c[0] < n
  {
    if n == 0 then {} else PrependAll(n - 1, cells) + Prepend(n - 1, cells)
  }

  /** Every cell of a shape, built one axis at a time. */
  ghost function AllCells(shape: seq<nat>): set<seq<nat>>
  {
    if shape == [] then {[]} else PrependAll(shape[0], AllCells(shape[1..]))
  }

  lemma {:induction false} PrependAllMembers(n: nat, cells: set<seq<nat>>, c: seq<nat>)
    ensures c in PrependAll(n, cells) <==> 1 <= |c| && c[0] < n && c[1..] in cells
  {
    if n != 0 {
      PrependAllMembers(n - 1, cells, c);
      if 1 <= |c| && c[0] == n - 1 && c[1..] in cells {
        assert c == [n - 1] + c[1..];
      }
    }
  }

  /** `AllCells(shape)` holds exactly the valid cells of `shape`. */
  lemma {:induction false} AllCellsExactly(shape: seq<nat>, c: seq<nat>)
    ensures c in AllCells(shape) <==> ValidCell(shape, c)
  {
    if shape != [] {
      PrependAllMembers(shape[0], AllCells(shape[1..]), c);
      if 1 <= |c| {
        AllCellsExactly(shape[1..], c[1..]);
        if ValidCell(shape, c) {
          assert ValidCell(shape[1..], c[1..]);
        }
        if c[0] < shape[0] && ValidCell(shape[1..], c[1..]) {
          assert forall axis :: 0 < axis < |c| ==> c[axis] == c[1..][axis - 1];
        }
      }
    }
  }

  lemma {:induction false} PrependCard(x: nat, cells: set<seq<nat>>)
    ensures |Prepend(x, cells)| == |cells|
    decreases |cells|
  {
    if cells != {} {
      var q :| q in cells;
      var rest := cells - {q};
      PrependCard(x, rest);
      assert Prepend(x, cells) == Prepend(x, rest) + {[x] + q};
      assert [x] + q !in Prepend(x, rest) by {
        forall q' | q' in rest
          ensures [x] + q' != [x] + q
        {
          assert ([x] + q')[1..] == q';
          assert ([x] + q)[1..] == q;
        }
      }
    }
  }

  lemma {:induction false} PrependAllCard(n: nat, cells: set<seq<nat>>)
    ensures |PrependAll(n, cells)| == n * |cells|
  {
    if n != 0 {
      var earlier, last := PrependAll(n - 1, cells), Prepend(n - 1, cells);
      PrependAllCard(n - 1, cells);
      PrependCard(n - 1, cells);
      assert forall c :: c in earlier ==> c !in last;
      assert earlier * last == {};
      assert |earlier + last| == |earlier| + |last|;
      assert (n - 1) * |cells| + |cells| == n * |cells|;
    }
  }

  /** A shape has `CellCount(shape)` cells. */
  lemma {:induction false} AllCellsCard(shape: seq<nat>)
    ensures |AllCells(shape)| == CellCount(shape)
  {
    if shape != [] {
      AllCellsCard(shape[1..]);
      PrependAllCard(shape[0], AllCells(shape[1..]));
    }
  }

  /** Every step forward from a cell of `cells`, along any axis, stays in `cells`. */
  ghost predicate ClosedUnderSteps(shape: seq<nat>, cells: set<seq<nat>>)
    requires ValidShape(shape)
  {
    forall c: seq<nat>, axis: nat :: ValidCell(shape, c) && c in cells && axis < |shape| ==> Traverse(shape, c, axis, true) in cells
  }

  lemma {:induction false} StepUpTo(shape: seq<nat>, cells: set<seq<nat>>, c: seq<nat>, axis: nat, v: nat)
    requires ValidShape(shape) && ClosedUnderSteps(shape, cells)
    requires ValidCell(shape, c) && c in cells && axis < |shape| && c[axis] <= v < shape[axis]
    ensures c[axis := v] in cells
    decreases v - c[axis]
  {
    if v == c[axis] {
      assert c[axis := v] == c;
    } else {
      StepUpTo(shape, cells, c, axis, v - 1);
      var before := c[axis := v - 1];
      assert ValidCell(shape, before);
      assert Traverse(shape, before, axis, true) == c[axis := v];
    }
  }

  lemma SetCoordinate(shape: seq<nat>, cells: set<seq<nat>>, c: seq<nat>, axis: nat, v: nat)
    requires ValidShape(shape) && ClosedUnderSteps(shape, cells)
    requires ValidCell(shape, c) && c in cells && axis < |shape| && v < shape[axis]
    ensures c[axis := v] in cells
  {
    var top := c[axis := shape[axis] - 1];
    StepUpTo(shape, cells, c, axis, shape[axis] - 1);
    assert ValidCell(shape, top);
    var bottom := Traverse(shape, top, axis, true);
    assert bottom == c[axis := 0];
    StepUpTo(shape, cells, bottom, axis, v);
    assert bottom[axis := v] == c[axis := v];
  }

  lemma {:induction false} ReachPrefix(shape: seq<nat>, cells: set<seq<nat>>, from: seq<nat>, q: seq<nat>, k: nat)
    requires ValidShape(shape) && ClosedUnderSteps(shape, cells)
    requires ValidCell(shape, from) && from in cells && ValidCell(shape, q) && k <= |shape|
    ensures q[..k] + from[k..] in cells
  {
    if k != 0 {
      ReachPrefix(shape, cells, from, q, k - 1);
      var c := q[..k - 1] + from[k - 1..];
      assert ValidCell(shape, c);
      SetCoordinate(shape, cells, c, k - 1, q[k - 1]);
      assert c[k - 1 := q[k - 1]] == q[..k] + from[k..];
    } else {
      assert q[..0] + from[0..] == from;
    }
  }

  /**
   * A set of cells that holds one cell and is closed under single steps
   * forward along every axis holds every cell of the torus.
   */
  lemma EveryCellReached(shape: seq<nat>, cells: set<seq<nat>>, from: seq<nat>)
    requires ValidShape(shape) && ClosedUnderSteps(shape, cells)
    requires ValidCell(shape, from) && from in cells
    ensures forall q :: ValidCell(shape, q) ==> q in cells
  {
    forall q | ValidCell(shape, q)
      ensures q in cells
    {
      ReachPrefix(shape, cells, from, q, |shape|);
      assert q[..|shape|] + from[|shape|..] == q;
    }
  }
}
