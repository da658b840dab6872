# Distributed Game of Life: the turn engine

This project models the turn engine of a distributed Game of Life in Dafny and
proves properties of the model. The system has three roles:

- **Worker** (`distributed/worker/worker.go`). It computes the next generation of
  one half-open band of rows `[startY, endY)` of a toroidal grid. The rule is
  B3/S23, and a cell is alive when its byte is 255.
- **Broker** (`distributed/distributive/broker.go`). It owns the grid, the turn
  counter and the reset flag. Every generation it splits the rows into one
  contiguous band per worker; the last band takes the remainder. It sends each
  band to a worker and joins the results in band order. It also serves the
  Reset, snapshot (KeyPressInfo) and alive-count (ticker) requests.
- **Client** (`distributed/gol/distributor.go`). It lists the live cells of a
  grid, names the image files `HxW` and `HxWxT`, and toggles Pause/Play on the
  `'p'` key.

Modules:

- `Grid` (`grid.dfy`): the cell and grid types. A grid is rows of bytes. It holds
  the row-major list of live cells, the set of live positions and the lemmas
  relating them.
- `Stubs` (`stubs.dfy`): the request and response records exchanged over RPC.
- `Worker` (`worker.dfy`): the kernel.
  - The specification functions are `NeighbourCount`, `NextCell`, `NextBand`,
    `NextGen` and `Generations`.
  - The methods are `CalculateAliveNeighbours`, `CompleteTurn` (with its inner
    loop `CompleteRow`) and `Work`. They work as the Go code does: nested loops,
    in-place rewriting of out-of-range coordinates, and a zeroed buffer in which
    only live cells are written. Each is proved equal to the specification.
- `Broker` (`broker.dfy`): the band partition and the sharding-determinism
  lemma. The class `BrokerState` holds the broker's package variables (`world`,
  `CompletedTurns`, `reset`, `noOfWorkers`) and has the handlers as methods.
- `Distributor` (`distributor.dfy`): the client's live-cell listing, decimal
  printing and file names with their read-back, and the `Client` class with the
  `PausedCheck` flag.

The worker function runs once per band, one band after another in band order.
The Go code launches one goroutine per band instead. Both join the results in
band order, so the grid they produce is the same.

Concurrent Reset calls during a run are modelled by the parameter
`resetArrivals` of `Turn`. It holds the iterations before whose checkpoint a
Reset call was handled. At those points `Turn` calls `Reset` on the same state.

On a torus every neighbour of every cell is a real cell. In a 3 x 3 grid with
every cell alive, the corner cell therefore has 8 live neighbours, like every
other cell (`Worker.AllAliveHasEightNeighbours`); a count that does not wrap
would give 3.

A Reset that arrives after a run's last checkpoint leaves the flag set. The next
run then stops at its first checkpoint and returns turn 0 with the grid it was
given. `Broker.ResetAfterRun` states this.

## Model

| member | source | states |
|---|---|---|
| Grid.AliveCellsMembers | distributed/gol/distributor.go:40-52 | a cell is in the row-major scan of `[0, H) x [0, W)` if and only if it lies in the bounds and its byte is 255 |
| Grid.AliveCellsOrdered | distributed/gol/distributor.go:43-48 | the scan lists cells in strictly increasing row-major order (by y, then x), so without duplicates, all inside the bounds |
| Grid.AliveCellsBound | distributed/gol/distributor.go:43-48 | the scan lists at most `H * W` cells |
| Grid.AliveCountIsCardinality | distributed/distributive/broker.go:124-131 | the length of the scan equals the number of live positions in the bounds |
| Grid.AliveSetBound | distributed/distributive/broker.go:124-131 | the number of live positions is at most `H * W` |
| Worker.NeighbourCount | distributed/worker/worker.go:27-51 | the toroidal count over the eight offsets `(l, j) != (0, 0)`, each taken modulo the grid, is at most 8 |
| Worker.WrapIsMod | distributed/worker/worker.go:35-46 | the code's edge rewrite (`-1` to the last index, `n` to 0) equals reduction modulo `n` for coordinates one step outside the grid |
| Worker.CalculateAliveNeighbours | distributed/worker/worker.go:24-54 | the nested loop with in-place wrap returns exactly the toroidal count, a value in `[0, 8]` |
| Worker.AllAliveHasEightNeighbours | distributed/worker/worker.go:24-54 | on a grid whose every cell is alive, every cell, corners and edges included, has 8 live neighbours |
| Worker.CornerSeesOppositeCorner | distributed/worker/worker.go:35-46 | on every grid of at least 1 x 1, the neighbour of cell (0, 0) at offset (-1, -1) is cell (W-1, H-1): it counts 1 exactly when that cell is alive |
| Worker.CornerWrapsOnBothAxes | distributed/worker/worker.go:35-46 | on grids of at least 3 x 3, when (W-1, H-1) is the only live cell, (0, 0) has exactly one live neighbour |
| Worker.NextCell | distributed/worker/worker.go:69-77 | every next-generation cell is 0 or 255 |
| Worker.NextCellRule | distributed/worker/worker.go:69-77 | a live cell stays alive if and only if it has 2 or 3 live neighbours; any other cell becomes alive if and only if it has exactly 3 |
| Worker.NextBand | distributed/worker/worker.go:63-81 | the next generation of rows `[startY, endY)` has `endY - startY` rows of `W` cells |
| Worker.NextGen | distributed/worker/worker.go:63-81 | the whole-grid next generation (the band `[0, H)`) has `H` rows of `W` cells |
| Worker.Generations | distributed/distributive/broker.go:167-221 | after `k >= 1` generations the grid has `H` rows of `W` cells |
| Worker.CreateNewWorld | distributed/worker/worker.go:14-20 | returns a fresh buffer of `height` rows and `width` columns with every cell 0 |
| Worker.CompleteRow | distributed/worker/worker.go:67-78 | the inner loop sets each cell of output row `y - startY` to the next state of input cell `(x, y)`, writing only 255, and leaves the other rows unchanged |
| Worker.CompleteTurn | distributed/worker/worker.go:63-81 | returns `endY - startY` rows of `ImageWidth` cells; output row `y - startY` is the next generation of input row `y`; the input grid is a value and is only read |
| Worker.Work | distributed/worker/worker.go:87-99 | the response is the next generation of the requested band of the request's grid |
| Worker.NextBandSplit | distributed/worker/worker.go:63-81 | the results for `[a, b)` and `[b, c)`, concatenated, are the result for `[a, c)` |
| Worker.EmptyStaysEmpty | distributed/worker/worker.go:69-77 | a grid with no live cell has none in any later generation |
| Worker.FullGridDies | distributed/worker/worker.go:69-77 | a grid whose every cell is alive has no live cell after one or more generations |
| Broker.BandsPartition | distributed/distributive/broker.go:182-189 | for `1 <= noOfWorkers` and `imageHeight >= 0`, the `noOfWorkers` bands start at 0, the last ends at `imageHeight`, each lies in `[0, imageHeight)`, and each starts where the previous one ends, so they are contiguous, disjoint and cover every row |
| Broker.BandOf | distributed/distributive/broker.go:182-189 | every row lies in some band |
| Broker.BandIsUnique | distributed/distributive/broker.go:182-189 | a row lies in exactly one band |
| Broker.JoinedPrefix | distributed/distributive/broker.go:212-214 | the first `i` band results joined in band order are the next generation of the rows up to the end of band `i - 1` |
| Broker.ShardingDeterminism | distributed/distributive/broker.go:181-214 | for any number of workers, the band results joined in band order equal the whole-grid next generation |
| Broker.FanOut | distributed/distributive/broker.go:181-214 | one generation computed as the broker does it (one worker request per band, `divider = imageHeight / noOfWorkers`, the last band to `imageHeight`, results appended in order) is the whole-grid next generation |
| Broker.BrokerState.constructor | distributed/distributive/broker.go:24-29 | the broker starts with no grid, turn 0 and the reset flag clear |
| Broker.BrokerState.Reset | distributed/distributive/broker.go:38-44 | sets the reset flag and returns the current turn; grid and turn are unchanged |
| Broker.BrokerState.KeyPressInfo | distributed/distributive/broker.go:102-108 | returns the current turn and grid and changes nothing |
| Broker.BrokerState.CalculateAliveCells | distributed/distributive/broker.go:118-135 | returns the number of live positions of `[0, H) x [0, W)` and the current turn; changes nothing |
| Broker.BrokerState.Turn | distributed/distributive/broker.go:141-228 | resets the counter to 0 and adds one per generation. It stops at the first checkpoint where a reset is seen, clearing the flag, or else after `turns` generations. The final grid is the input advanced exactly `CompletedTurns` generations. The response carries the final turn and grid, with `CompletedTurns <= turns` |
| Broker.ResetMidRun | distributed/distributive/broker.go:167-175 | a Reset that lands before the 11th generation of a 100-turn run stops it at turn 10 with 10 generations done; the next run counts from 0 on the grid it is given |
| Broker.ResetAfterRun | distributed/distributive/broker.go:167-175 | a Reset that arrives after a run has finished makes the next run return turn 0 and its input grid unchanged |
| Broker.SnapshotTwice | distributed/distributive/broker.go:102-108 | two snapshots with no generation in between are equal and show the current turn and grid |
| Distributor.CalculateAliveCells | distributed/gol/distributor.go:40-52 | lists a cell if and only if it is in bounds and alive, in row-major order, without duplicates, at most `H * W` of them, as many as there are live positions |
| Distributor.AliveCountsAgree | distributed/gol/distributor.go:40-52 | for the same grid and bounds, the client's list is exactly as long as the broker's ticker count |
| Distributor.Digits | distributed/gol/distributor.go:192 | the decimal text of a natural number is non-empty and made of digits only |
| Distributor.DigitsRoundTrip | distributed/gol/distributor.go:192 | reading the digits back gives the number |
| Distributor.SprintRoundTrip | distributed/gol/distributor.go:192 | reading back the decimal text of any integer gives the integer, and the text contains no `x` |
| Distributor.OutputFilename | distributed/gol/distributor.go:192 | the output name splits at `x` into the decimal texts of height, width and turn, and those three numbers can be read back from it |
| Distributor.InputFilename | distributed/gol/distributor.go:211 | the input name splits at `x` into the decimal texts of height and width, and both numbers can be read back from it |
| Distributor.TogglesAlternate | distributed/gol/distributor.go:137-160 | successive toggles strictly alternate Pause and Play, starting with Play when already paused and with Pause otherwise |
| Distributor.Client.constructor | distributed/gol/distributor.go:16 | a client starts unpaused, having sent nothing |
| Distributor.Client.KeyPress | distributed/gol/distributor.go:77-184 | each `'p'` before the first `'k'` or `'q'` sends Pause when unpaused and Play when paused, flipping `PausedCheck`; `'k'` and `'q'` end the loop |
| Distributor.PausePlayAlternate | distributed/gol/distributor.go:137-160 | a fresh client sends one request per `'p'` press: Pause, Play, Pause, ... strictly alternating, starting with Pause |

## Left out

- RPC transport: dialling, calls, listening, registration and flag parsing in the `main` functions. They are network plumbing. A worker call is a direct call of `Worker.Work`, and the errors that the broker ignores are taken to be absent.
- The goroutine fan-out and channel fan-in of `Turn`. `Broker.FanOut` computes the bands one after another, in band order.
- The `addresses` roster of worker hosts, which has 4 entries. The model allows any `noOfWorkers >= 1`; the Go code would index past the roster with more than 4 workers.
- `noOfWorkers = 0`. Go divides by zero there, so `Turn` requires `noOfWorkers >= 1`.
- The mutexes, and the broker's Pause and Play handlers, which use a mutex as a semaphore. These are locking semantics with no effect on the values computed.
- Broker.BrokerState.Turn: a concurrent Reset is modelled only as landing between iterations, before a checkpoint; the snapshot and ticker handlers see the state between iterations.
- Broker shutdown, worker shutdown and every `os.Exit` path. They end the process.
- The client's I/O: the ticker loop, the byte streaming of the image output, the input loading loop, the `CellFlipped` events and the `distributor` run flow. These are I/O, timers and channels.
- Distributor.Client.KeyPress: keys `'s'`, `'k'` and `'q'` only end the loop or do nothing here; their snapshot, shutdown and reset RPCs are not modelled.
- The client's copy of `createNewWorld` (distributed/gol/distributor.go:29-35). It is identical to the worker's and is modelled by `Worker.CreateNewWorld`, which allocates the zeroed buffer in one step rather than row by row.
- The handler-name strings of the RPC stubs, the unused random seed and `import "C"`. They have no behaviour.
