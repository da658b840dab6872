/** Cells and grids shared by the worker, the broker and the client.
    A grid is a slice of rows of bytes; a cell is alive when its byte is 255
    and dead otherwise (the kernel only ever writes 0 or 255). */
module Grid {

  newtype byte = x: int | 0 <= x < 256

  const ALIVE: byte := 255
  const DEAD: byte := 0

  type Grid = seq<seq<byte>>

  /** A cell position, x the column and y the row (util.Cell). */
  datatype Cell = Cell(x: int, y: int)

  /** Every index a loop over `[0, h) x [0, w)` reads is inside `world`. */
  predicate Covers(world: Grid, h: int, w: int)
  {
    h <= |world| && forall y :: 0 <= y < h ==> w <= |world[y]|
  }

  /** `world` is exactly `h` rows of `w` cells. */
  predicate IsShape(world: Grid, h: int, w: int)
  {
    |world| == h && forall y :: 0 <= y < h ==> |world[y]| == w
  }

  /** Row-major order on cells: by row, then by column. */
  predicate Before(a: Cell, b: Cell)
  {
    a.y < b.y || (a.y == b.y && a.x < b.x)
  }

  /** The live cells of columns `[0, w)` of row `y`, left to right. */
  function AliveInRow(world: Grid, y: int, w: int): seq<Cell>
    requires 0 <= y < |world| && w <= |world[y]|
    decreases w
  {
    if w <= 0 then []
    else AliveInRow(world, y, w - 1) + (if world[y][w - 1] == ALIVE then [Cell(w - 1, y)] else [])
  }

  /** The live cells of `[0, h) x [0, w)` in the order a row-major scan finds them. */
  function AliveCells(world: Grid, h: int, w: int): seq<Cell>
    requires Covers(world, h, w)
    decreases h
  {
    if h <= 0 then []
    else AliveCells(world, h - 1, w) + AliveInRow(world, h - 1, w)
  }

  /** The set of live positions of `[0, h) x [0, w)`, independent of any scan order. */
  function AliveSet(world: Grid, h: int, w: int): set<Cell>
    requires Covers(world, h, w)
  {
    set y, x | 0 <= y < h && 0 <= x < w && world[y][x] == ALIVE :: Cell(x, y)
  }

  lemma {:induction false} AliveInRowMembers(world: Grid, y: int, w: int, c: Cell)
    requires 0 <= y < |world| && w <= |world[y]|
    ensures c in AliveInRow(world, y, w) <==> c.y == y && 0 <= c.x < w && world[y][c.x] == ALIVE
    decreases w
  {
    if w > 0 {
      AliveInRowMembers(world, y, w - 1, c);
    }
  }

  /** A cell is listed exactly when it is in bounds and alive. */
  lemma {:induction false} AliveCellsMembers(world: Grid, h: int, w: int, c: Cell)
    requires Covers(world, h, w)
    ensures c in AliveCells(world, h, w) <==> 0 <= c.y < h && 0 <= c.x < w && world[c.y][c.x] == ALIVE
    decreases h
  {
    if h > 0 {
      AliveCellsMembers(world, h - 1, w, c);
      AliveInRowMembers(world, h - 1, w, c);
    }
  }

  predicate RowMajor(s: seq<Cell>)
  {
    forall i, j :: 0 <= i < j < |s| ==> Before(s[i], s[j])
  }

  lemma {:induction false} AliveInRowOrdered(world: Grid, y: int, w: int)
    requires 0 <= y < |world| && w <= |world[y]|
    ensures RowMajor(AliveInRow(world, y, w))
    ensures forall i :: 0 <= i < |AliveInRow(world, y, w)| ==>
              AliveInRow(world, y, w)[i].y == y && 0 <= AliveInRow(world, y, w)[i].x < w
    ensures |AliveInRow(world, y, w)| <= if w < 0 then 0 else w
    decreases w
  {
    if w > 0 {
      AliveInRowOrdered(world, y, w - 1);
    }
  }

  /** A row-major run of earlier rows followed by a row-major run of row `y` is
      row-major. */
  lemma RowMajorAppend(a: seq<Cell>, b: seq<Cell>, y: int)
    requires RowMajor(a) && RowMajor(b)
    requires forall i :: 0 <= i < |a| ==> a[i].y < y
    requires forall i :: 0 <= i < |b| ==> b[i].y == y
    ensures RowMajor(a + b)
  {
    forall i, j | 0 <= i < j < |a + b|
      ensures Before((a + b)[i], (a + b)[j])
    {
      if j < |a| {
        assert (a + b)[i] == a[i] && (a + b)[j] == a[j];
      } else if i < |a| {
        assert (a + b)[i] == a[i] && (a + b)[j] == b[j - |a|];
      } else {
        assert (a + b)[i] == b[i - |a|] && (a + b)[j] == b[j - |a|];
      }
    }
  }

  /** The scan lists cells strictly in row-major order, hence without duplicates,
      and all inside the bounds. */
  lemma {:induction false} AliveCellsOrdered(world: Grid, h: int, w: int)
    requires Covers(world, h, w)
    ensures RowMajor(AliveCells(world, h, w))
    ensures forall i :: 0 <= i < |AliveCells(world, h, w)| ==>
              0 <= AliveCells(world, h, w)[i].y < h && 0 <= AliveCells(world, h, w)[i].x < w
    decreases h
  {
    if h > 0 {
      AliveCellsOrdered(world, h - 1, w);
      AliveInRowOrdered(world, h - 1, w);
      var a, b := AliveCells(world, h - 1, w), AliveInRow(world, h - 1, w);
      RowMajorAppend(a, b, h - 1);
      forall i | 0 <= i < |a + b|
        ensures 0 <= (a + b)[i].y < h && 0 <= (a + b)[i].x < w
      {
        if i < |a| {
          assert (a + b)[i] == a[i];
        } else {
          assert (a + b)[i] == b[i - |a|];
        }
      }
    }
  }

  /** The scan lists at most one cell per position of the `h x w` rectangle. */
  lemma {:induction false} AliveCellsBound(world: Grid, h: int, w: int)
    requires Covers(world, h, w)
    ensures |AliveCells(world, h, w)| <= (if h < 0 then 0 else h) * (if w < 0 then 0 else w)
    decreases h
  {
    if h > 0 {
      AliveCellsBound(world, h - 1, w);
      AliveInRowOrdered(world, h - 1, w);
      MulSucc(h - 1, if w < 0 then 0 else w);
    }
  }

  lemma MulSucc(a: int, b: int)
    ensures a * b + b == (a + 1) * b
  {
  }

  lemma {:induction false} DistinctCardinality(s: seq<Cell>)
    requires RowMajor(s)
    ensures |set c | c in s| == |s|
  {
    if s != [] {
      var t := s[..|s| - 1];
      DistinctCardinality(t);
      assert (set c | c in s) == (set c | c in t) + {s[|s| - 1]};
      assert s[|s| - 1] !in (set c | c in t);
    }
  }

  /** The length of the scan is the number of live positions in the bounds. */
  lemma AliveCountIsCardinality(world: Grid, h: int, w: int)
    requires Covers(world, h, w)
    ensures |AliveCells(world, h, w)| == |AliveSet(world, h, w)|
  {
    var s := AliveCells(world, h, w);
    AliveCellsOrdered(world, h, w);
    DistinctCardinality(s);
    forall c
      ensures c in s <==> c in AliveSet(world, h, w)
    {
      AliveCellsMembers(world, h, w, c);
    }
    assert (set c | c in s) == AliveSet(world, h, w);
  }

  /** At most one live position per cell of the `h x w` rectangle. */
  lemma AliveSetBound(world: Grid, h: int, w: int)
    requires Covers(world, h, w)
    ensures |AliveSet(world, h, w)| <= (if h < 0 then 0 else h) * (if w < 0 then 0 else w)
  {
    AliveCountIsCardinality(world, h, w);
    AliveCellsBound(world, h, w);
  }
}
