/** The broker (distributed/distributive/broker.go): it owns the grid and the
    turn counter, splits every generation into one band of rows per worker,
    joins the bands in band order, and serves the control requests.
    The per-band RPCs, which the broker runs as goroutines, are made here one
    after the other, in band order, as direct calls of the worker's handler. */
module Broker {
  import opened Grid
  import opened Stubs
  import opened Worker

  /** First row of band `i` when `H` rows are split among `n` workers. */
  function BandStart(H: int, n: int, i: int): int
    requires 0 <= H && 1 <= n
  {
    i * (H / n)
  }

  /** End (exclusive) of band `i`; the last band takes the remainder. */
  function BandEnd(H: int, n: int, i: int): int
    requires 0 <= H && 1 <= n
  {
    if i == n - 1 then H else (i + 1) * (H / n)
  }

  lemma MulMono(a: int, b: int, d: int)
    requires a <= b && 0 <= d
    ensures a * d <= b * d
  {
    assert b * d - a * d == (b - a) * d;
  }

  /** The `n` bands are in range, start at 0, end at `H`, and each starts where the
      previous one ends, so they are disjoint and cover `[0, H)`. */
  lemma BandsPartition(H: int, n: int)
    requires 0 <= H && 1 <= n
    ensures BandStart(H, n, 0) == 0 && BandEnd(H, n, n - 1) == H
    ensures forall i :: 0 <= i < n ==> 0 <= BandStart(H, n, i) <= BandEnd(H, n, i) <= H
    ensures forall i :: 0 <= i < n - 1 ==> BandEnd(H, n, i) == BandStart(H, n, i + 1)
    ensures forall i, k :: 0 <= i < k < n ==> BandEnd(H, n, i) <= BandStart(H, n, k)
  {
    var d := H / n;
    assert 0 <= d;
    assert n * d <= H;
    forall i | 0 <= i < n
      ensures 0 <= BandStart(H, n, i) <= BandEnd(H, n, i) <= H
    {
      MulMono(0, i, d);
      MulMono(i, i + 1, d);
      MulMono(i + 1, n, d);
      assert n * d == d * n;
      MulMono(i, n, d);
    }
    forall i, k | 0 <= i < k < n
      ensures BandEnd(H, n, i) <= BandStart(H, n, k)
    {
      MulMono(i + 1, k, d);
    }
  }

  lemma DivBounds(y: int, d: int)
    requires 0 <= y && 0 < d
    ensures (y / d) * d <= y < (y / d + 1) * d
  {
    var q, r := y / d, y % d;
    assert y == q * d + r && 0 <= r < d;
    assert (q + 1) * d == q * d + d;
  }

  /** Row `y` lies in band `i` when `i` is its quotient by the band height,
      capped at the last band. */
  lemma BandOfRow(H: int, n: int, y: int, i: int)
    requires 0 <= y < H && 1 <= n
    requires i == if H / n == 0 || y / (H / n) >= n - 1 then n - 1 else y / (H / n)
    ensures 0 <= i < n && BandStart(H, n, i) <= y < BandEnd(H, n, i)
  {
    var d := H / n;
    BandsPartition(H, n);
    if d != 0 {
      var q := y / d;
      DivBounds(y, d);
      if q >= n - 1 {
        MulMono(n - 1, q, d);
      }
    }
  }

  /** The band that holds row `y`. */
  function BandOf(H: int, n: int, y: int): (i: int)
    requires 0 <= y < H && 1 <= n
    ensures 0 <= i < n && BandStart(H, n, i) <= y < BandEnd(H, n, i)
  {
    var d := H / n;
    var i := if d == 0 || y / d >= n - 1 then n - 1 else y / d;
    BandOfRow(H, n, y, i);
    i
  }

  /** A row lies in exactly one band. */
  lemma BandIsUnique(H: int, n: int, y: int, i: int)
    requires 0 <= y < H && 1 <= n && 0 <= i < n
    requires BandStart(H, n, i) <= y < BandEnd(H, n, i)
    ensures i == BandOf(H, n, y)
  {
    BandsPartition(H, n);
  }

  /** The results of bands `0 .. i-1`, concatenated in band order. */
  function JoinBands(world: Grid, H: int, W: int, n: int, i: int): Grid
    requires 0 <= H && 0 <= W && 1 <= n && 0 <= i <= n && Covers(world, H, W)
  {
    if i == 0 then []
    else
      BandsPartition(H, n);
      JoinBands(world, H, W, n, i - 1) + NextBand(world, H, W, BandStart(H, n, i - 1), BandEnd(H, n, i - 1))
  }

  /** The first `i` bands, joined, are the next generation of rows `[0, end of band i - 1)`. */
  lemma {:induction false} JoinedPrefix(world: Grid, H: int, W: int, n: int, i: int)
    requires 0 <= H && 0 <= W && 1 <= n && 1 <= i <= n && Covers(world, H, W)
    ensures 0 <= BandEnd(H, n, i - 1) <= H
    ensures JoinBands(world, H, W, n, i) == NextBand(world, H, W, 0, BandEnd(H, n, i - 1))
  {
    BandsPartition(H, n);
    if i == 1 {
      assert JoinBands(world, H, W, n, 0) == [];
    } else {
      JoinedPrefix(world, H, W, n, i - 1);
      NextBandSplit(world, H, W, 0, BandEnd(H, n, i - 2), BandEnd(H, n, i - 1));
    }
  }

  /** Sharding determinism: whatever the number of workers, joining the bands in
      band order gives the whole-grid next generation. */
  lemma ShardingDeterminism(world: Grid, H: int, W: int, n: int)
    requires 0 <= H && 0 <= W && 1 <= n && Covers(world, H, W)
    ensures JoinBands(world, H, W, n, n) == NextGen(world, H, W)
  {
    JoinedPrefix(world, H, W, n, n);
  }

  /** One generation as the broker computes it inside its turn loop: one worker
      request per band, the bands' results appended in worker order. */
  method FanOut(world: Grid, imageHeight: int, imageWidth: int, noOfWorkers: int) returns (newWorld: Grid)
    requires 1 <= noOfWorkers && 0 <= imageHeight && 0 <= imageWidth && Covers(world, imageHeight, imageWidth)
    ensures newWorld == JoinBands(world, imageHeight, imageWidth, noOfWorkers, noOfWorkers)
    ensures newWorld == NextGen(world, imageHeight, imageWidth)
  {
    // Go's division truncates toward zero; on a height that is never negative it
    // agrees with Dafny's.
    var divider := imageHeight / noOfWorkers;
    BandsPartition(imageHeight, noOfWorkers);
    newWorld := [];
    for i := 0 to noOfWorkers
      invariant newWorld == JoinBands(world, imageHeight, imageWidth, noOfWorkers, i)
    {
      var startY := i * divider;
      var endY := (i + 1) * divider;
      if i == noOfWorkers - 1 {
        endY := imageHeight;
      }
      assert startY == BandStart(imageHeight, noOfWorkers, i) && endY == BandEnd(imageHeight, noOfWorkers, i);
      var response2 := Work(WorkerRequest(world, imageHeight, imageWidth, startY, endY));
      newWorld := newWorld + response2.NewWorld;
    }
    ShardingDeterminism(world, imageHeight, imageWidth, noOfWorkers);
  }

  /** A reset request is seen at the checkpoint of iteration `t` when the flag was
      already set on entry (`t == 0`) or a Reset call arrived before that checkpoint. */
  predicate ResetSeenAt(initialReset: bool, resetArrivals: set<int>, t: int)
  {
    (t == 0 && initialReset) || t in resetArrivals
  }

  /** The broker's package state. */
  class BrokerState {
    var world: Grid
    var CompletedTurns: int
    var reset: bool
    var noOfWorkers: int

    constructor (noOfWorkers: int)
      ensures world == [] && CompletedTurns == 0 && !reset && this.noOfWorkers == noOfWorkers
    {
      world := [];
      CompletedTurns := 0;
      reset := false;
      this.noOfWorkers := noOfWorkers;
    }

    /** Requests a reset and reports the turn reached so far. */
    method Reset() returns (res: ResetResponse)
      modifies this`reset
      ensures reset && res.Turn == CompletedTurns
    {
      reset := true;
      res := ResetResponse(CompletedTurns);
    }

    /** A snapshot of the turn counter and the grid; changes nothing. */
    method KeyPressInfo() returns (res: KeyResponse)
      ensures res.Turn == CompletedTurns && res.World == world
    {
      res := KeyResponse(CompletedTurns, world);
    }

    /** The number of live cells of `[0, ImageHeight) x [0, ImageWidth)`, with the turn. */
    method CalculateAliveCells(req: TickerRequest) returns (res: TickerResponse)
      requires Covers(world, req.ImageHeight, req.ImageWidth)
      ensures res.AliveCells == |AliveSet(world, req.ImageHeight, req.ImageWidth)|
      ensures res.Turn == CompletedTurns
    {
      var alive: seq<Cell> := [];
      var ImageHeight := req.ImageHeight;
      var ImageWidth := req.ImageWidth;
      var y := 0;
      while y < ImageHeight
        invariant 0 <= y <= if ImageHeight < 0 then 0 else ImageHeight
        invariant alive == AliveCells(world, y, ImageWidth)
      {
        var x := 0;
        while x < ImageWidth
          invariant 0 <= x <= if ImageWidth < 0 then 0 else ImageWidth
          invariant alive == AliveCells(world, y, ImageWidth) + AliveInRow(world, y, x)
        {
          if world[y][x] == ALIVE {
            alive := alive + [Cell(x, y)];
          }
          x := x + 1;
        }
        y := y + 1;
      }
      AliveCountIsCardinality(world, ImageHeight, ImageWidth);
      res := TickerResponse(|alive|, CompletedTurns);
    }

    /** Runs up to `req.Turns` generations from `req.World`. `resetArrivals` are the
        iterations before whose checkpoint a concurrent Reset request was handled. */
    method Turn(req: BrokerRequest, resetArrivals: set<int>) returns (res: BrokerResponse)
      requires 1 <= noOfWorkers
      requires 0 < req.Turns ==>
                 0 <= req.ImageHeight && 0 <= req.ImageWidth && Covers(req.World, req.ImageHeight, req.ImageWidth)
      modifies this`world, this`CompletedTurns, this`reset
      ensures 0 <= CompletedTurns <= if req.Turns < 0 then 0 else req.Turns
      ensures forall s :: 0 <= s < CompletedTurns ==> !ResetSeenAt(old(reset), resetArrivals, s)
      ensures CompletedTurns < req.Turns ==> ResetSeenAt(old(reset), resetArrivals, CompletedTurns)
      ensures CompletedTurns == 0 ==> world == req.World
      ensures CompletedTurns > 0 ==> world == Generations(req.World, req.ImageHeight, req.ImageWidth, CompletedTurns)
      ensures reset == (old(reset) && req.Turns <= 0)
      ensures res.Turn == CompletedTurns && res.World == world
    {
      world := req.World;
      var turns := req.Turns;
      var imageHeight := req.ImageHeight;
      var imageWidth := req.ImageWidth;
      CompletedTurns := 0;
      var t := 0;
      while t < turns
        invariant 0 <= t && (t == 0 || t <= turns)
        invariant CompletedTurns == t
        invariant t == 0 ==> world == req.World
        invariant t > 0 ==> world == Generations(req.World, imageHeight, imageWidth, t)
        invariant reset == (old(reset) && t == 0)
        invariant forall s :: 0 <= s < t ==> !ResetSeenAt(old(reset), resetArrivals, s)
      {
        if t in resetArrivals {
          var _ := Reset();
        }
        if reset {
          reset := false;
          break;
        }
        assert !ResetSeenAt(old(reset), resetArrivals, t);
        var newWorld := FanOut(world, imageHeight, imageWidth, noOfWorkers);
        world := newWorld;
        CompletedTurns := CompletedTurns + 1;
        t := t + 1;
      }
      res := BrokerResponse(world, CompletedTurns);
    }
  }

  /** A Reset that lands before the 11th generation of a 100-turn run stops it after
      10 generations; the next run counts from 0 again on the grid it is given. */
  method ResetMidRun(n: int, world: Grid, next: Grid, H: int, W: int) returns (first: BrokerResponse, second: BrokerResponse)
    requires 1 <= n && 0 <= H && 0 <= W && Covers(world, H, W) && Covers(next, H, W)
    ensures first.Turn == 10 && first.World == Generations(world, H, W, 10)
    ensures second.Turn == 5 && second.World == Generations(next, H, W, 5)
  {
    var broker := new BrokerState(n);
    first := broker.Turn(BrokerRequest(world, 100, n, H, W), {10});
    assert ResetSeenAt(false, {10}, 10);
    second := broker.Turn(BrokerRequest(next, 5, n, H, W), {});
  }

  /** A Reset that arrives after a run has finished leaves the flag set, and the
      next run stops at its first checkpoint: turn 0 and the grid it was given. */
  method ResetAfterRun(n: int, world: Grid, next: Grid, H: int, W: int) returns (first: BrokerResponse, second: BrokerResponse)
    requires 1 <= n && 0 <= H && 0 <= W && Covers(world, H, W) && Covers(next, H, W)
    ensures first.Turn == 3 && first.World == Generations(world, H, W, 3)
    ensures second.Turn == 0 && second.World == next
  {
    var broker := new BrokerState(n);
    first := broker.Turn(BrokerRequest(world, 3, n, H, W), {});
    var _ := broker.Reset();
    assert ResetSeenAt(true, {}, 0);
    second := broker.Turn(BrokerRequest(next, 5, n, H, W), {});
  }

  /** Two snapshots with no generation in between are identical. */
  method SnapshotTwice(broker: BrokerState) returns (a: KeyResponse, b: KeyResponse)
    ensures a == b && a.Turn == broker.CompletedTurns && a.World == broker.world
  {
    a := broker.KeyPressInfo();
    b := broker.KeyPressInfo();
  }
}
