/**
 * The mbed flash HAL for nRF52 (flash_api.c): a synchronous-looking API over
 * the asynchronous fstorage driver. Program requests are copied into heap
 * buffers and queued; at most one is in flight; the driver's write-result
 * event releases it and starts the next. Erase is a synchronous retry loop.
 *
 * The driver, the microsecond ticker and malloc are oracles: each call is
 * given the busy flag, the allocation outcome, the first ticker reading and
 * the sequence of (answer, ticker reading) pairs it will observe.
 */
module FlashApi {
  import opened Wrappers
  import opened Uint
  import opened Fstorage
  import opened Retry
  import opened Alignment
  import opened WriteQueue
  import opened Sequencer

  /** MBED_FLASH_INVALID_SIZE of the mbed HAL. */
  const MBED_FLASH_INVALID_SIZE: u32 := 0xFFFF_FFFF

  /** The value erased flash reads as. */
  const ERASED_BYTE: u8 := 0xFF

  /**
   * The flash state of a process with one flash_t object: the statics of
   * flash_api.c (the one-time init flag, the fstorage region, the data queue),
   * the heap buffers handed out by malloc and not yet freed, and the object's
   * data_current_buffer.
   */
  class Flash {
    var doInit: bool
    var startAddr: u32
    var endAddr: u32
    var eraseUnit: u32
    var queue: seq<Node>
    var live: set<BufferId>
    var nextBuffer: BufferId
    var current: Option<BufferId>

    /** The region starts at 0; the queue is within capacity; every queued
        buffer is allocated and queued once; the in-flight buffer is
        allocated and not also queued. */
    predicate Valid()
      reads this
    {
      && startAddr == 0
      && |queue| <= FLASH_BUFFER_COUNT
      && (forall b :: b in live ==> b < nextBuffer)
      && (forall b :: b in Buffers(queue) ==> b in live && Buffers(queue)[b] == 1)
      && (current.Some? ==> current.value in live && current.value !in Buffers(queue))
    }

    /** Program start: statics zero-initialised, do_init set, nothing allocated. */
    constructor ()
      ensures Valid()
      ensures doInit && queue == [] && current == None
      ensures startAddr == 0 && endAddr == 0 && eraseUnit == 0
      ensures live == {} && nextBuffer == 0
    {
      doInit := true;
      startAddr, endAddr, eraseUnit := 0, 0, 0;
      queue := [];
      live := {};
      nextBuffer := 0;
      current := None;
    }

    /** flash_init: on the first call only, set up the region covering the
        whole flash (CODESIZE * CODEPAGESIZE bytes) and initialise the driver,
        whose status is returned; later calls return 0. Every call empties
        the queue and clears the in-flight buffer, without freeing either. */
    method Init(fstorageInit: RetCode, codeSize: u32, codePageSize: u32, flashEraseUnit: u32)
      returns (status: int)
      requires Valid()
      modifies this
      ensures Valid() && !doInit
      ensures old(doInit) ==>
        status == ToHal(fstorageInit) &&
        endAddr == Mul32(codeSize, codePageSize) && eraseUnit == flashEraseUnit
      ensures !old(doInit) ==>
        status == 0 && endAddr == old(endAddr) && eraseUnit == old(eraseUnit)
      ensures queue == [] && current == None
      ensures live == old(live) && nextBuffer == old(nextBuffer)
    {
      var result := Success;
      if doInit {
        doInit := false;
        startAddr := 0;
        endAddr := Mul32(codeSize, codePageSize);
        eraseUnit := flashEraseUnit;
        result := fstorageInit;
      }
      current := None;
      queue := [];
      status := if result == Success then 0 else -1;
    }

    /** flash_free: nothing to release. */
    method Free() returns (status: int)
      ensures status == 0
    {
      status := 0;
    }

    /** flash_erase_sector: ask the driver to erase one page until it stops
        answering NRF_ERROR_NO_MEM or 200 ms have passed; 0 exactly when the
        last answer was NRF_SUCCESS. At least one request is always issued. */
    method EraseSector(address: u32, start: u32, rs: seq<Response>)
      returns (status: int, attempts: nat)
      requires EventuallyStops(start, rs)
      ensures 1 <= attempts <= |rs| && attempts == Attempts(start, rs)
      ensures forall j :: 0 <= j < attempts - 1 ==> !Stops(start, rs[j])
      ensures Stops(start, rs[attempts - 1])
      ensures status == 0 <==> rs[attempts - 1].result == Success
      ensures status == 0 || status == -1
    {
      ghost var k := FirstStop(start, rs, 0);
      var result := ErrorNoMem;
      var now := start;
      var i := 0;
      while Elapsed(start, now) < PAGE_ERASE_TIMEOUT_US && result == ErrorNoMem
        invariant 0 <= i <= k + 1
        invariant i == 0 ==> result == ErrorNoMem && now == start
        invariant i > 0 ==> result == rs[i - 1].result && now == rs[i - 1].now
        decreases k + 1 - i
      {
        result := rs[i].result;
        now := rs[i].now;
        i := i + 1;
      }
      attempts := i;
      status := if result == Success then 0 else -1;
    }

    /** flash_program_page. Without data or with a zero size: -1 and nothing
        changes. Otherwise a buffer of the rounded-up size is requested; if
        malloc succeeds the request is pushed, and if the queue is full the
        buffer is freed again and -1 returned. Then, whether or not anything
        was pushed, if the driver is idle the head of the queue is started
        and its status decides the result; if the driver is busy the result
        is -1 even though the request stays queued. */
    method ProgramPage(address: u32, hasData: bool, size: u32,
                       allocOk: bool, busy: bool, start: u32, rs: seq<Response>)
      returns (status: int)
      requires Valid()
      // once malloc succeeds, memcpy copies `size` bytes into a buffer of
      // the recorded write size
      requires hasData && size > 0 && allocOk ==> size <= TruncatedWriteSize(size)
      // flash_start_program_page asserts that no write is in flight
      requires hasData && size > 0 && !busy ==> current == None
      requires hasData && size > 0 && !busy ==> EventuallyStops(start, rs)
      modifies this
      ensures Valid()
      ensures status == 0 || status == -1
      ensures doInit == old(doInit) && endAddr == old(endAddr) && eraseUnit == old(eraseUnit)
      ensures !(hasData && size > 0) ==>
        status == -1 && queue == old(queue) && current == old(current) &&
        live == old(live) && nextBuffer == old(nextBuffer)
      ensures hasData && size > 0 && allocOk && |old(queue)| == FLASH_BUFFER_COUNT ==>
        status == -1 && queue == old(queue) && current == old(current) &&
        live == old(live) && nextBuffer == old(nextBuffer) + 1
      ensures hasData && size > 0 && !(allocOk && |old(queue)| == FLASH_BUFFER_COUNT) ==>
        var pushed := if allocOk
          then old(queue) + [Node(old(nextBuffer), address, TruncatedWriteSize(size))]
          else old(queue);
        && live == (if allocOk then old(live) + {old(nextBuffer)} else old(live))
        && nextBuffer == (if allocOk then old(nextBuffer) + 1 else old(nextBuffer))
        && (busy ==> status == -1 && queue == pushed && current == old(current))
        && (!busy ==>
              var o := StartNext(pushed, start, rs);
              status == ToHal(o.result) && queue == o.queue && current == o.current)
    {
      if !(hasData && size > 0) {
        return ToHal(ErrorNull);
      }
      ghost var q0, n0 := queue, nextBuffer;
      var writeSize := TruncatedWriteSize(size);
      if allocOk {
        var ok := Enqueue(address, writeSize);
        if !ok {
          return -1;
        }
      }
      ghost var pushed := queue;
      assert pushed == if allocOk then q0 + [Node(n0, address, writeSize)] else q0;
      if busy {
        return ToHal(ErrorNull);
      }
      var result, _ := StartProgramPage(start, rs);
      status := ToHal(result);
      assert Started(result, current, queue) == StartNext(pushed, start, rs);
    }

    /** The successful-malloc half of flash_program_page: the new buffer is
        recorded as allocated and the request is pushed; when the queue is
        full the buffer is freed again and nothing is queued. */
    method Enqueue(address: u32, writeSize: u8) returns (ok: bool)
      requires Valid()
      modifies this
      ensures Valid()
      ensures ok <==> |old(queue)| < FLASH_BUFFER_COUNT
      ensures nextBuffer == old(nextBuffer) + 1 && current == old(current)
      ensures doInit == old(doInit) && endAddr == old(endAddr) && eraseUnit == old(eraseUnit)
      ensures ok ==> queue == old(queue) + [Node(old(nextBuffer), address, writeSize)]
                     && live == old(live) + {old(nextBuffer)}
      ensures !ok ==> queue == old(queue) && live == old(live)
    {
      var buffer := nextBuffer;
      nextBuffer := nextBuffer + 1;
      live := live + {buffer};
      var item := Node(buffer, address, writeSize);
      var pushed := Push(queue, item);
      if pushed.None? {
        live := live - {buffer};
        return false;
      }
      PushFreshKeepsValid(item);
      queue := pushed.value;
      return true;
    }

    /** Appending a request with a freshly allocated buffer keeps Valid(). */
    lemma PushFreshKeepsValid(item: Node)
      requires startAddr == 0 && |queue| < FLASH_BUFFER_COUNT
      requires forall b :: b in live ==> b < nextBuffer
      requires forall b :: b in Buffers(queue) ==> b in live && Buffers(queue)[b] == 1
      requires current.Some? ==> current.value in live && current.value !in Buffers(queue)
      requires item.buffer in live && item.buffer !in Buffers(queue)
      requires current.Some? ==> current.value != item.buffer
      ensures Buffers(queue + [item]) == Buffers(queue) + multiset{item.buffer}
      ensures forall b :: b in Buffers(queue + [item]) ==>
        b in live && Buffers(queue + [item])[b] == 1
      ensures current.Some? ==> current.value !in Buffers(queue + [item])
    {
      BuffersAppend(queue, [item]);
      assert Buffers([item]) == multiset{item.buffer} by {
        assert [item][1..] == [];
      }
    }

    /** flash_get_size: the length of the region. */
    function GetSize(): (r: u32)
      reads this
      ensures startAddr <= endAddr ==> r == endAddr - startAddr
    {
      Sub32(endAddr, startAddr)
    }

    /** flash_get_sector_size: the erase unit inside [start, end), the invalid
        size outside (the end address is not part of the flash). */
    function GetSectorSize(address: u32): (r: u32)
      reads this
      ensures startAddr <= address < endAddr ==> r == eraseUnit
      ensures !(startAddr <= address < endAddr) ==> r == MBED_FLASH_INVALID_SIZE
    {
      if startAddr <= address && address < endAddr then eraseUnit
      else MBED_FLASH_INVALID_SIZE
    }

    /** flash_get_page_size: one word, the unit writes are rounded up to. */
    function GetPageSize(): (r: u32)
      ensures r == WORD_SIZE_IN_BYTES && r > 0
    {
      WORD_SIZE_IN_BYTES
    }

    /** flash_get_start_address: 0, which is where the region starts. */
    function GetStartAddress(): (r: u32)
      reads this
      requires Valid()
      ensures r == startAddr
    {
      0
    }

    /** flash_get_erase_value: erased flash reads as all ones. */
    function GetEraseValue(): (r: u8)
      ensures r == ERASED_BYTE
    {
      0xFF
    }

    /** The queries agree with each other: an address has a valid sector
        size exactly when it lies within GetSize() bytes of the start. */
    lemma SectorSizeValidExactlyInRegion(address: u32)
      requires Valid() && eraseUnit != MBED_FLASH_INVALID_SIZE
      ensures GetSectorSize(address) != MBED_FLASH_INVALID_SIZE <==>
        GetStartAddress() <= address < GetStartAddress() + GetSize()
    {
    }

    /** flash_start_program_page: with no write in flight, pop the head of
        the queue, make its buffer the in-flight one and write it, retrying
        while the driver answers NRF_ERROR_NO_MEM within 200 ms; on failure
        clear the in-flight buffer and push the item back at the tail. On an
        empty queue the result is NRF_ERROR_NOT_FOUND. */
    method StartProgramPage(start: u32, rs: seq<Response>)
      returns (result: RetCode, ghost attempts: nat)
      requires Valid() && current == None
      requires queue != [] ==> EventuallyStops(start, rs)
      modifies this
      ensures Valid()
      // the do-while sends one write per answer up to the first that stops it
      ensures old(queue) == [] ==> attempts == 0
      ensures old(queue) != [] ==> attempts == Attempts(start, rs)
      ensures Started(result, current, queue) == StartNext(old(queue), start, rs)
      ensures Held(Started(result, current, queue)) == Buffers(old(queue))
      ensures live == old(live) && nextBuffer == old(nextBuffer)
      ensures doInit == old(doInit) && endAddr == old(endAddr) && eraseUnit == old(eraseUnit)
    {
      ghost var q0 := queue;
      var popped := Pop(queue);
      if popped.None? {
        return ErrorNotFound, 0;
      }
      var item := popped.value.0;
      queue := popped.value.1;
      current := Some(item.buffer);
      result, attempts := WriteWithRetry(item, start, rs);
      if result != Success {
        current := None;
        var requeued := Push(queue, item);
        if requeued.Some? {
          queue := requeued.value;
        }
      }
      assert Started(result, current, queue) == StartNext(q0, start, rs);
      StartNextKeepsEveryRequest(q0, start, rs);
      HeldKeepsOwnership(live, q0, Started(result, current, queue));
    }

    /** The do-while of flash_start_program_page: write the item, read the
        ticker, and repeat while the answer is NRF_ERROR_NO_MEM and less than
        200 ms have passed. The first write is sent unconditionally. */
    method WriteWithRetry(item: Node, start: u32, rs: seq<Response>)
      returns (result: RetCode, ghost attempts: nat)
      requires EventuallyStops(start, rs)
      ensures 1 <= attempts <= |rs| && attempts == Attempts(start, rs)
      ensures forall j :: 0 <= j < attempts - 1 ==> !Stops(start, rs[j])
      ensures Stops(start, rs[attempts - 1])
      ensures result == rs[attempts - 1].result && result == RetryResult(start, rs)
    {
      ghost var k := FirstStop(start, rs, 0);
      var now := start;
      var i := 0;
      while true
        invariant 0 <= i <= k
        invariant forall j :: 0 <= j < i ==> !Stops(start, rs[j])
        decreases k - i
      {
        result := rs[i].result;
        now := rs[i].now;
        i := i + 1;
        if !(Elapsed(start, now) < PAGE_ERASE_TIMEOUT_US && result == ErrorNoMem) {
          break;
        }
      }
      attempts := i;
    }

    /** Once the queued and in-flight buffers are exactly those queued
        before, each is still allocated, queued once, and the in-flight one
        is not also queued. */
    static lemma HeldKeepsOwnership(live: set<BufferId>, q0: seq<Node>, o: Started)
      requires forall b :: b in Buffers(q0) ==> b in live && Buffers(q0)[b] == 1
      requires Held(o) == Buffers(q0)
      ensures forall b :: b in Buffers(o.queue) ==> b in live && Buffers(o.queue)[b] == 1
      ensures o.current.Some? ==> o.current.value in live && o.current.value !in Buffers(o.queue)
    {
      forall b | b in Buffers(o.queue)
        ensures b in live && Buffers(o.queue)[b] == 1
      {
        assert Buffers(o.queue)[b] <= Held(o)[b];
      }
      if o.current.Some? {
        var c := o.current.value;
        assert Held(o)[c] == Buffers(o.queue)[c] + 1;
      }
    }

    /** flash_storage_event_handler: only a write result matters. It frees
        the in-flight buffer, clears the slot and starts the next pending
        write; every other event leaves the state alone. */
    method HandleEvent(id: EventId, start: u32, rs: seq<Response>)
      requires Valid()
      requires id == WriteResult ==> current.Some?
      requires id == WriteResult && queue != [] ==> EventuallyStops(start, rs)
      modifies this
      ensures Valid()
      ensures id != WriteResult ==>
        queue == old(queue) && current == old(current) &&
        live == old(live) && nextBuffer == old(nextBuffer)
      ensures id == WriteResult ==>
        var o := StartNext(old(queue), start, rs);
        && live == old(live) - {old(current).value}
        && old(current).value !in live
        && queue == o.queue && current == o.current
        && nextBuffer == old(nextBuffer)
      ensures doInit == old(doInit) && endAddr == old(endAddr) && eraseUnit == old(eraseUnit)
    {
      if id == WriteResult {
        live := live - {current.value};
        current := None;
        var _, _ := StartProgramPage(start, rs);
      }
    }
  }
}
