/** The worker's compute kernel (distributed/worker/worker.go): the toroidal
    neighbour count and the next generation of one half-open band of rows. */
module Worker {
  import opened Grid
  import opened Stubs

  /** 1 when the neighbour of (x, y) at offset (dx, dy) is alive, the offset taken
      modulo the grid on both axes (the grid is a torus). */
  function LiveAt(world: Grid, H: int, W: int, x: int, y: int, dx: int, dy: int): (n: nat)
    requires 0 < H && 0 < W && Covers(world, H, W)
    ensures n <= 1
  {
    if world[(y + dy) % H][(x + dx) % W] == ALIVE then 1 else 0
  }

  /** Number of live cells among the eight offsets around (x, y) on the torus. */
  function NeighbourCount(world: Grid, H: int, W: int, x: int, y: int): (n: nat)
    requires 0 < H && 0 < W && Covers(world, H, W)
    ensures n <= 8
  {
    LiveAt(world, H, W, x, y, -1, -1) + LiveAt(world, H, W, x, y, 0, -1) + LiveAt(world, H, W, x, y, 1, -1) +
    LiveAt(world, H, W, x, y, -1, 0)                                      + LiveAt(world, H, W, x, y, 1, 0) +
    LiveAt(world, H, W, x, y, -1, 1)  + LiveAt(world, H, W, x, y, 0, 1)  + LiveAt(world, H, W, x, y, 1, 1)
  }

  /** The B3/S23 rule: a live cell survives with 2 or 3 live neighbours, a dead cell
      is born with exactly 3; every other cell is dead in the next generation. */
  function NextCell(world: Grid, H: int, W: int, x: int, y: int): (c: byte)
    requires 0 <= x < W && 0 <= y < H && Covers(world, H, W)
    ensures c == ALIVE || c == DEAD
  {
    var n := NeighbourCount(world, H, W, x, y);
    if world[y][x] == ALIVE then
      (if n == 2 || n == 3 then ALIVE else DEAD)
    else
      (if n == 3 then ALIVE else DEAD)
  }

  /** The next generation of rows `[startY, endY)`; row `i` of the result is row
      `startY + i` of the grid. */
  function NextBand(world: Grid, H: int, W: int, startY: int, endY: int): (band: Grid)
    requires 0 <= startY <= endY <= H && 0 <= W && Covers(world, H, W)
    ensures IsShape(band, endY - startY, W)
  {
    seq(endY - startY, i requires 0 <= i < endY - startY =>
      seq(W, x requires 0 <= x < W => NextCell(world, H, W, x, startY + i)))
  }

  /** One whole-grid generation. */
  function NextGen(world: Grid, H: int, W: int): (next: Grid)
    requires 0 <= H && 0 <= W && Covers(world, H, W)
    ensures IsShape(next, H, W)
  {
    NextBand(world, H, W, 0, H)
  }

  /** The grid after `k` generations. */
  function Generations(world: Grid, H: int, W: int, k: nat): (g: Grid)
    requires 0 <= H && 0 <= W && Covers(world, H, W)
    ensures Covers(g, H, W)
    ensures k > 0 ==> IsShape(g, H, W)
  {
    if k == 0 then world else NextGen(Generations(world, H, W, k - 1), H, W)
  }

  // Partial sums of the neighbour count, in the order the kernel's loops visit the offsets.

  ghost function Term(world: Grid, H: int, W: int, x: int, y: int, dx: int, dy: int): nat
    requires 0 < H && 0 < W && Covers(world, H, W)
  {
    if dx == 0 && dy == 0 then 0 else LiveAt(world, H, W, x, y, dx, dy)
  }

  /** Offsets `(dx, dy)` with `-1 <= dx < upto` of row offset `dy`. */
  ghost function RowPart(world: Grid, H: int, W: int, x: int, y: int, dy: int, upto: int): nat
    requires 0 < H && 0 < W && Covers(world, H, W)
  {
    (if -1 < upto then Term(world, H, W, x, y, -1, dy) else 0) +
    (if 0 < upto then Term(world, H, W, x, y, 0, dy) else 0) +
    (if 1 < upto then Term(world, H, W, x, y, 1, dy) else 0)
  }

  /** All offsets of row offsets `-1 <= dy < upto`. */
  ghost function RowsBefore(world: Grid, H: int, W: int, x: int, y: int, upto: int): nat
    requires 0 < H && 0 < W && Covers(world, H, W)
  {
    (if -1 < upto then RowPart(world, H, W, x, y, -1, 2) else 0) +
    (if 0 < upto then RowPart(world, H, W, x, y, 0, 2) else 0) +
    (if 1 < upto then RowPart(world, H, W, x, y, 1, 2) else 0)
  }

  /** The kernel's edge rewrite (-1 becomes the last index, n becomes 0) is
      reduction modulo n for coordinates one step outside the grid. */
  lemma WrapIsMod(c: int, n: int)
    requires 0 < n && -1 <= c <= n
    ensures (if c < 0 then n - 1 else if c >= n then 0 else c) == c % n
  {
    if c < 0 {
      assert c == -1;
      assert -1 == (-1) * n + (n - 1);
    } else if c == n {
      assert n == 1 * n + 0;
    }
  }

  /** Makes a zero (all dead) grid of `height` rows and `width` columns. */
  method CreateNewWorld(height: int, width: int) returns (newWorld: array2<byte>)
    requires 0 <= height && 0 <= width
    ensures fresh(newWorld)
    ensures newWorld.Length0 == height && newWorld.Length1 == width
    ensures forall i, j :: 0 <= i < height && 0 <= j < width ==> newWorld[i, j] == DEAD
  {
    newWorld := new byte[height, width]((i, j) => DEAD);
  }

  /** Counts the live neighbours of (x, y), wrapping at all four edges. */
  method CalculateAliveNeighbours(ImageHeight: int, ImageWidth: int, x: int, y: int, world: Grid) returns (sum: int)
    requires 0 <= x < ImageWidth && 0 <= y < ImageHeight && Covers(world, ImageHeight, ImageWidth)
    ensures sum == NeighbourCount(world, ImageHeight, ImageWidth, x, y)
    ensures 0 <= sum <= 8
  {
    sum := 0;
    for j := -1 to 2
      invariant sum == RowsBefore(world, ImageHeight, ImageWidth, x, y, j)
    {
      for l := -1 to 2
        invariant sum == RowsBefore(world, ImageHeight, ImageWidth, x, y, j) + RowPart(world, ImageHeight, ImageWidth, x, y, j, l)
      {
        var ny := y + j;
        var nx := x + l;
        if j == 0 && l == 0 {
          continue;
        }
        if nx < 0 {
          nx := ImageWidth - 1;
        }
        if nx >= ImageWidth {
          nx := 0;
        }
        if ny < 0 {
          ny := ImageHeight - 1;
        }
        if ny >= ImageHeight {
          ny := 0;
        }
        WrapIsMod(x + l, ImageWidth);
        WrapIsMod(y + j, ImageHeight);
        if world[ny][nx] == ALIVE {
          sum := sum + 1;
        }
      }
    }
  }

  /** The inner loop of CompleteTurn: fills row `row` of `newWorld`, dead so
      far, with the next generation of row `y`, writing only the cells that live. */
  method CompleteRow(newWorld: array2<byte>, ImageHeight: int, ImageWidth: int, row: int, y: int, world: Grid)
    requires 0 <= y < ImageHeight && 0 <= ImageWidth && Covers(world, ImageHeight, ImageWidth)
    requires 0 <= row < newWorld.Length0 && newWorld.Length1 == ImageWidth
    requires forall x :: 0 <= x < ImageWidth ==> newWorld[row, x] == DEAD
    modifies newWorld
    ensures forall x :: 0 <= x < ImageWidth ==> newWorld[row, x] == NextCell(world, ImageHeight, ImageWidth, x, y)
    ensures forall i, x :: 0 <= i < newWorld.Length0 && i != row && 0 <= x < ImageWidth ==>
              newWorld[i, x] == old(newWorld[i, x])
  {
    for x := 0 to ImageWidth
      invariant forall x' :: 0 <= x' < x ==> newWorld[row, x'] == NextCell(world, ImageHeight, ImageWidth, x', y)
      invariant forall x' :: x <= x' < ImageWidth ==> newWorld[row, x'] == DEAD
      invariant forall i, x' :: 0 <= i < newWorld.Length0 && i != row && 0 <= x' < ImageWidth ==>
                  newWorld[i, x'] == old(newWorld[i, x'])
    {
      var aliveNeighbours := CalculateAliveNeighbours(ImageHeight, ImageWidth, x, y, world);
      if world[y][x] == ALIVE {
        if aliveNeighbours == 2 || aliveNeighbours == 3 {
          newWorld[row, x] := ALIVE;
        }
      } else {
        if aliveNeighbours == 3 {
          newWorld[row, x] := ALIVE;
        }
      }
    }
  }

  /** Computes the next generation of rows `[startY, endY)` of the whole grid `world`,
      which is only read. */
  method CompleteTurn(ImageHeight: int, ImageWidth: int, startY: int, endY: int, world: Grid) returns (band: Grid)
    requires 0 <= startY <= endY <= ImageHeight && 0 <= ImageWidth && Covers(world, ImageHeight, ImageWidth)
    ensures IsShape(band, endY - startY, ImageWidth)
    ensures forall i, x :: 0 <= i < endY - startY && 0 <= x < ImageWidth ==>
              band[i][x] == NextCell(world, ImageHeight, ImageWidth, x, startY + i)
    ensures band == NextBand(world, ImageHeight, ImageWidth, startY, endY)
  {
    var height := endY - startY;
    var newWorld := CreateNewWorld(height, ImageWidth);
    for y := startY to endY
      invariant forall i, x :: 0 <= i < y - startY && 0 <= x < ImageWidth ==>
                  newWorld[i, x] == NextCell(world, ImageHeight, ImageWidth, x, startY + i)
      invariant forall i, x :: y - startY <= i < height && 0 <= x < ImageWidth ==> newWorld[i, x] == DEAD
    {
      CompleteRow(newWorld, ImageHeight, ImageWidth, y - startY, y, world);
    }
    // The band leaves the worker as a value: the RPC response.
    band := Rows(newWorld);
    CellwiseEqual(band, NextBand(world, ImageHeight, ImageWidth, startY, endY), height, ImageWidth);
  }

  /** The rows of a two-dimensional array, as a value. */
  function Rows(a: array2<byte>): (g: Grid)
    reads a
    ensures IsShape(g, a.Length0, a.Length1)
    ensures forall i, j :: 0 <= i < a.Length0 && 0 <= j < a.Length1 ==> g[i][j] == a[i, j]
  {
    seq(a.Length0, i requires 0 <= i < a.Length0 reads a =>
      seq(a.Length1, j requires 0 <= j < a.Length1 reads a => a[i, j]))
  }

  /** Two grids of the same shape that agree on every cell are equal. */
  lemma CellwiseEqual(g: Grid, g': Grid, h: int, w: int)
    requires IsShape(g, h, w) && IsShape(g', h, w)
    requires forall i, j :: 0 <= i < h && 0 <= j < w ==> g[i][j] == g'[i][j]
    ensures g == g'
  {
    forall i | 0 <= i < h
      ensures g[i] == g'[i]
    {
      assert forall j :: 0 <= j < w ==> g[i][j] == g'[i][j];
    }
  }

  /** The RPC handler: a thin call of CompleteTurn on the request's fields. */
  method Work(request: WorkerRequest) returns (response: WorkerResponse)
    requires 0 <= request.StartY <= request.EndY <= request.ImageHeight && 0 <= request.ImageWidth
    requires Covers(request.World, request.ImageHeight, request.ImageWidth)
    ensures response.NewWorld == NextBand(request.World, request.ImageHeight, request.ImageWidth, request.StartY, request.EndY)
  {
    var newWorld := CompleteTurn(request.ImageHeight, request.ImageWidth, request.StartY, request.EndY, request.World);
    response := WorkerResponse(newWorld);
  }

  /** Concatenating the results for `[a, b)` and `[b, c)` gives the result for `[a, c)`. */
  lemma NextBandSplit(world: Grid, H: int, W: int, a: int, b: int, c: int)
    requires 0 <= a <= b <= c <= H && 0 <= W && Covers(world, H, W)
    ensures NextBand(world, H, W, a, b) + NextBand(world, H, W, b, c) == NextBand(world, H, W, a, c)
  {
    var left, right, whole := NextBand(world, H, W, a, b), NextBand(world, H, W, b, c), NextBand(world, H, W, a, c);
    forall i | 0 <= i < c - a
      ensures (left + right)[i] == whole[i]
    {
      if i < b - a {
        assert (left + right)[i] == left[i];
      } else {
        assert (left + right)[i] == right[i - (b - a)];
      }
    }
  }

  /** On a grid whose every cell is alive, every cell has 8 live neighbours,
      corners and edges included, because the grid wraps on both axes. */
  lemma AllAliveHasEightNeighbours(world: Grid, H: int, W: int, x: int, y: int)
    requires 0 < H && 0 < W && Covers(world, H, W)
    requires forall r, c :: 0 <= r < H && 0 <= c < W ==> world[r][c] == ALIVE
    ensures NeighbourCount(world, H, W, x, y) == 8
  {
  }

  /** No cell of `[0, H) x [0, W)` is alive. */
  predicate NoneAlive(world: Grid, H: int, W: int)
    requires Covers(world, H, W)
  {
    forall r, c :: 0 <= r < H && 0 <= c < W ==> world[r][c] != ALIVE
  }

  /** Generation `k` of `world` is generation `k - 1` of its successor. */
  lemma {:induction false} GenerationsShift(world: Grid, H: int, W: int, k: nat)
    requires 0 <= H && 0 <= W && Covers(world, H, W) && 0 < k
    ensures Generations(world, H, W, k) == Generations(NextGen(world, H, W), H, W, k - 1)
    decreases k
  {
    if k > 1 {
      GenerationsShift(world, H, W, k - 1);
    }
  }

  /** A grid with no live cell stays without one: no cell ever has a live
      neighbour, so nothing is born. */
  lemma {:induction false} EmptyStaysEmpty(world: Grid, H: int, W: int, k: nat)
    requires 0 < H && 0 < W && Covers(world, H, W) && NoneAlive(world, H, W)
    ensures NoneAlive(Generations(world, H, W, k), H, W)
    decreases k
  {
    if k > 0 {
      EmptyStaysEmpty(world, H, W, k - 1);
      EmptyNext(Generations(world, H, W, k - 1), H, W);
    }
  }

  lemma EmptyNext(world: Grid, H: int, W: int)
    requires 0 < H && 0 < W && Covers(world, H, W) && NoneAlive(world, H, W)
    ensures NoneAlive(NextGen(world, H, W), H, W)
  {
    var next := NextGen(world, H, W);
    forall r, c | 0 <= r < H && 0 <= c < W
      ensures next[r][c] != ALIVE
    {
      NoLiveNeighbour(world, H, W, c, r);
    }
  }

  lemma NoLiveNeighbour(world: Grid, H: int, W: int, x: int, y: int)
    requires 0 < H && 0 < W && Covers(world, H, W) && NoneAlive(world, H, W)
    ensures NeighbourCount(world, H, W, x, y) == 0
  {
  }

  /** A grid whose every cell is alive dies of overcrowding in one generation and
      stays dead from then on. */
  lemma FullGridDies(world: Grid, H: int, W: int, k: nat)
    requires 0 < H && 0 < W && Covers(world, H, W) && 0 < k
    requires forall r, c :: 0 <= r < H && 0 <= c < W ==> world[r][c] == ALIVE
    ensures NoneAlive(Generations(world, H, W, k), H, W)
  {
    var next := NextGen(world, H, W);
    forall r, c | 0 <= r < H && 0 <= c < W
      ensures next[r][c] != ALIVE
    {
      AllAliveHasEightNeighbours(world, H, W, c, r);
    }
    EmptyStaysEmpty(next, H, W, k - 1);
    GenerationsShift(world, H, W, k);
  }

  /** On every grid, however small, the top-left neighbour of cell (0, 0) is cell
      (W - 1, H - 1): the offset (-1, -1) wraps on both axes. */
  lemma CornerSeesOppositeCorner(world: Grid, H: int, W: int)
    requires 0 < H && 0 < W && Covers(world, H, W)
    ensures LiveAt(world, H, W, 0, 0, -1, -1) == if world[H - 1][W - 1] == ALIVE then 1 else 0
  {
    WrapIsMod(-1, H);
    WrapIsMod(-1, W);
  }

  /** Cell (0, 0) sees cell (W - 1, H - 1) across both edges: when that is the only
      live cell of a grid of at least 3 x 3, (0, 0) has exactly one live neighbour. */
  lemma CornerWrapsOnBothAxes(world: Grid, H: int, W: int)
    requires 3 <= H && 3 <= W && Covers(world, H, W)
    requires forall r, c :: 0 <= r < H && 0 <= c < W ==> (world[r][c] == ALIVE <==> r == H - 1 && c == W - 1)
    ensures NeighbourCount(world, H, W, 0, 0) == 1
  {
    WrapIsMod(-1, H);
    WrapIsMod(-1, W);
    assert LiveAt(world, H, W, 0, 0, -1, -1) == 1;
    assert 1 % H == 1 && 1 % W == 1 && 0 % H == 0 && 0 % W == 0;
  }

  /** The rule, cell by cell: a live cell stays alive exactly with 2 or 3 live
      neighbours, any other cell becomes alive exactly with 3. */
  lemma NextCellRule(world: Grid, H: int, W: int, x: int, y: int)
    requires 0 <= x < W && 0 <= y < H && Covers(world, H, W)
    ensures world[y][x] == ALIVE ==>
              (NextCell(world, H, W, x, y) == ALIVE <==> NeighbourCount(world, H, W, x, y) in {2, 3})
    ensures world[y][x] != ALIVE ==>
              (NextCell(world, H, W, x, y) == ALIVE <==> NeighbourCount(world, H, W, x, y) == 3)
  {
  }
}
