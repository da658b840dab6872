/** The request and response records exchanged over RPC. */
module Stubs {
  import opened Grid

  datatype BrokerRequest = BrokerRequest(World: Grid, Turns: int, Threads: int, ImageHeight: int, ImageWidth: int)
  datatype BrokerResponse = BrokerResponse(World: Grid, Turn: int)

  datatype WorkerRequest = WorkerRequest(World: Grid, ImageHeight: int, ImageWidth: int, StartY: int, EndY: int)
  datatype WorkerResponse = WorkerResponse(NewWorld: Grid)

  datatype TickerRequest = TickerRequest(ImageHeight: int, ImageWidth: int)
  datatype TickerResponse = TickerResponse(AliveCells: int, Turn: int)

  datatype KeyResponse = KeyResponse(Turn: int, World: Grid)
  datatype ResetResponse = ResetResponse(Turn: int)
}
