/**
 * What starting the next pending write does to the queue and to the
 * in-flight slot, as a function of the queue and of the driver's answers.
 * The imperative flash_start_program_page in FlashApi is proved to match it.
 */
module Sequencer {
  import opened Wrappers
  import opened Uint
  import opened Fstorage
  import opened Retry
  import opened WriteQueue

  /** The status returned, the in-flight buffer and the queue after a start. */
  datatype Started = Started(result: RetCode, current: Option<BufferId>, queue: seq<Node>)

  /** Pop the head; if there is one, make it the in-flight write and issue it
      with retries; on failure clear the in-flight slot and push the item
      again (the result of that push is ignored, so a refused push would drop
      the item). */
  function StartNext(q: seq<Node>, start: u32, rs: seq<Response>): (o: Started)
    requires q != [] ==> EventuallyStops(start, rs)
    ensures q == [] ==> o.result == ErrorNotFound
    ensures q != [] ==> o.result == RetryResult(start, rs)
    ensures o.current.Some? <==> o.result == Success
    ensures |q| <= FLASH_BUFFER_COUNT ==>
      |o.queue| + (if o.current.Some? then 1 else 0) == |q|
  {
    match Pop(q)
    case None => Started(ErrorNotFound, None, q)
    case Some((item, rest)) =>
      var result := RetryResult(start, rs);
      if result == Success then Started(Success, Some(item.buffer), rest)
      else
        var requeued := Push(rest, item);
        Started(result, None, if requeued.Some? then requeued.value else rest)
  }

  /** The buffers held after a start: those still queued and the in-flight one. */
  function Held(o: Started): multiset<BufferId>
  {
    Buffers(o.queue) + (if o.current.Some? then multiset{o.current.value} else multiset{})
  }

  /** Nothing is lost: whatever the driver answers, every buffer that was
      queued is afterwards either still queued or in flight, and the queue
      stays within its capacity. */
  lemma StartNextKeepsEveryRequest(q: seq<Node>, start: u32, rs: seq<Response>)
    requires |q| <= FLASH_BUFFER_COUNT
    requires q != [] ==> EventuallyStops(start, rs)
    ensures Held(StartNext(q, start, rs)) == Buffers(q)
    ensures |StartNext(q, start, rs).queue| <= FLASH_BUFFER_COUNT
  {
    if q != [] {
      var o := StartNext(q, start, rs);
      if o.result == Success {
        assert Buffers(q) == multiset{q[0].buffer} + Buffers(q[1..]);
      } else {
        assert o.queue == q[1..] + [q[0]];
        RotateKeepsBuffers(q);
      }
    }
  }

  /** Moving the head to the tail keeps the same buffers. */
  lemma RotateKeepsBuffers(q: seq<Node>)
    requires q != []
    ensures Buffers(q[1..] + [q[0]]) == Buffers(q)
  {
    BuffersAppend(q[1..], [q[0]]);
    assert Buffers([q[0]]) == multiset{q[0].buffer} by {
      assert [q[0]][1..] == [];
    }
  }

  /** An empty queue: NRF_ERROR_NOT_FOUND, nothing in flight, nothing changes. */
  lemma StartNextOnEmptyQueue(start: u32, rs: seq<Response>)
    ensures StartNext([], start, rs) == Started(ErrorNotFound, None, [])
  {
  }

  /** A successful start puts the head in flight and the rest of the queue
      keeps its order; a failed one leaves nothing in flight and moves the
      head behind every other pending request. The status is the driver's
      last answer. */
  lemma StartNextOutcome(q: seq<Node>, start: u32, rs: seq<Response>)
    requires 0 < |q| <= FLASH_BUFFER_COUNT
    requires EventuallyStops(start, rs)
    ensures StartNext(q, start, rs).result == RetryResult(start, rs)
    ensures RetryResult(start, rs) == Success ==>
      StartNext(q, start, rs).current == Some(q[0].buffer) &&
      StartNext(q, start, rs).queue == q[1..]
    ensures RetryResult(start, rs) != Success ==>
      var o := StartNext(q, start, rs);
      o.current == None && |o.queue| == |q| && o.queue[|q| - 1] == q[0] &&
      forall i :: 0 <= i < |q| - 1 ==> o.queue[i] == q[i + 1]
  {
  }
}
