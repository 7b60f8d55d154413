/**
 * Call sequences on a fresh Flash whose outcome the contracts of FlashApi
 * determine: the ordering of queued writes, the full queue, the erase
 * timeout and the one-time initialisation.
 */
module Scenarios {
  import opened Wrappers
  import opened Uint
  import opened Fstorage
  import opened Retry
  import opened WriteQueue
  import opened Sequencer
  import opened FlashApi

  /** A 512 KiB part: 128 pages of 4096 bytes. */
  const CODE_SIZE: u32 := 128
  const CODE_PAGE_SIZE: u32 := 4096

  /** A, then B are programmed. A arrives while the driver is busy and is
      only queued (-1); B arrives when it is idle, so A is started, but the
      driver rejects the write: A goes back behind B, nothing is in flight,
      and both calls report -1. */
  method FailedStartReordersQueue(addrA: u32, addrB: u32, t0: u32)
    returns (statusA: int, statusB: int, pending: seq<Node>, inFlight: Option<BufferId>)
    ensures statusA == -1 && statusB == -1
    ensures |pending| == 2 && pending[0].writeAddr == addrB && pending[1].writeAddr == addrA
    ensures inFlight == None
  {
    var flash := new Flash();
    var _ := flash.Init(Success, CODE_SIZE, CODE_PAGE_SIZE, CODE_PAGE_SIZE);
    statusA := flash.ProgramPage(addrA, true, 4, true, true, t0, []);
    var rejected := [Response(ErrorOther(8), t0)];
    assert Stops(t0, rejected[0]);
    statusB := flash.ProgramPage(addrB, true, 8, true, false, t0, rejected);
    pending, inFlight := flash.queue, flash.current;
  }

  /** A queued while busy, then B while idle: A starts and stays in flight,
      B waits. Only A's write-result event lets B start. */
  method WritesStartOneAtATime(addrA: u32, addrB: u32, t0: u32)
    returns (firstInFlight: Option<BufferId>, waiting: seq<Node>,
             secondInFlight: Option<BufferId>, finallyPending: seq<Node>)
    ensures firstInFlight.Some? && |waiting| == 1 && waiting[0].writeAddr == addrB
    ensures secondInFlight == Some(waiting[0].buffer) && secondInFlight != firstInFlight
    ensures finallyPending == []
  {
    var flash := new Flash();
    var _ := flash.Init(Success, CODE_SIZE, CODE_PAGE_SIZE, CODE_PAGE_SIZE);
    var accepted := [Response(Success, t0)];
    assert Stops(t0, accepted[0]);
    var _ := flash.ProgramPage(addrA, true, 4, true, true, t0, []);
    var _ := flash.ProgramPage(addrB, true, 4, true, false, t0, accepted);
    firstInFlight, waiting := flash.current, flash.queue;
    flash.HandleEvent(WriteResult, t0, accepted);
    secondInFlight, finallyPending := flash.current, flash.queue;
  }

  /** Twenty requests fill the queue while the driver is busy; the
      twenty-first is refused with -1, the queue is unchanged and its freshly
      allocated buffer is freed again. */
  method FullQueueRefusesRequest(address: u32, t0: u32)
    returns (status: int, pending: nat, leaked: bool)
    ensures status == -1 && pending == FLASH_BUFFER_COUNT && !leaked
  {
    var flash := new Flash();
    var _ := flash.Init(Success, CODE_SIZE, CODE_PAGE_SIZE, CODE_PAGE_SIZE);
    var n := 0;
    while n < FLASH_BUFFER_COUNT
      invariant 0 <= n <= FLASH_BUFFER_COUNT
      invariant flash.Valid() && |flash.queue| == n
    {
      var _ := flash.ProgramPage(address, true, 4, true, true, t0, []);
      n := n + 1;
    }
    var before := flash.live;
    var next := flash.nextBuffer;
    status := flash.ProgramPage(address, true, 4, true, true, t0, []);
    pending := |flash.queue|;
    leaked := next in flash.live || flash.live != before;
  }

  /** An erase against a driver that answers NRF_ERROR_NO_MEM every time:
      the third request, read at 200 ms, is the last one, and the erase
      fails. */
  method EraseGivesUpAfterTimeout(address: u32)
    returns (status: int, attempts: nat)
    ensures status == -1 && attempts == 3
  {
    var flash := new Flash();
    var busy := [Response(ErrorNoMem, 1000), Response(ErrorNoMem, 100_000),
                 Response(ErrorNoMem, 200_000), Response(ErrorNoMem, 300_000)];
    assert !Stops(0, busy[0]) && !Stops(0, busy[1]) && Stops(0, busy[2]);
    status, attempts := flash.EraseSector(address, 0, busy);
  }

  /** The elapsed time survives the 32-bit ticker wrapping: started 4096 µs
      before the wrap, a reading of 4096 after it is 8192 µs later, so the
      erase is retried and succeeds. */
  method EraseAcrossTickerWrap(address: u32)
    returns (status: int, attempts: nat)
    ensures status == 0 && attempts == 2
  {
    var flash := new Flash();
    var start: u32 := TWO_TO_THE_32 - 4096;
    var rs := [Response(ErrorNoMem, 4096), Response(Success, 8192)];
    assert Elapsed(start, 4096) == 8192;
    assert !Stops(start, rs[0]) && Stops(start, rs[1]);
    status, attempts := flash.EraseSector(address, start, rs);
  }

  /** When the driver fails to initialise, the first flash_init reports -1
      but the second reports 0 without trying again. */
  method SecondInitHidesFailure()
    returns (first: int, second: int)
    ensures first == -1 && second == 0
  {
    var flash := new Flash();
    first := flash.Init(ErrorOther(8), CODE_SIZE, CODE_PAGE_SIZE, CODE_PAGE_SIZE);
    second := flash.Init(Success, CODE_SIZE, CODE_PAGE_SIZE, CODE_PAGE_SIZE);
  }

  /** malloc fails for B, so B is dropped, yet the idle driver is given the
      queued A and the call returns 0. */
  method DroppedRequestStillReportsSuccess(addrA: u32, addrB: u32, t0: u32)
    returns (status: int, pending: seq<Node>, inFlight: Option<BufferId>)
    ensures status == 0 && pending == [] && inFlight.Some?
  {
    var flash := new Flash();
    var _ := flash.Init(Success, CODE_SIZE, CODE_PAGE_SIZE, CODE_PAGE_SIZE);
    var _ := flash.ProgramPage(addrA, true, 4, true, true, t0, []);
    var accepted := [Response(Success, t0)];
    assert Stops(t0, accepted[0]);
    status := flash.ProgramPage(addrB, true, 4, false, false, t0, accepted);
    pending, inFlight := flash.queue, flash.current;
  }
}
