/**
 * The pending-write queue: nrf_queue declared with FLASH_BUFFER_COUNT slots
 * in no-overflow mode, seen through its push and pop operations.
 */
module WriteQueue {
  import opened Wrappers
  import opened Uint

  /** FLASH_BUFFER_COUNT. */
  const FLASH_BUFFER_COUNT: nat := 20

  /** The identity of a heap buffer obtained from malloc. */
  type BufferId = nat

  /** flash_data_node_t: the copied data, the target address and the
      recorded write size (a uint8_t in the node). */
  datatype Node = Node(buffer: BufferId, writeAddr: u32, writeSize: u8)

  /** nrf_queue_push in no-overflow mode: refused on a full queue, otherwise
      the item joins the tail. */
  function Push(q: seq<Node>, item: Node): (r: Option<seq<Node>>)
    ensures r.Some? <==> |q| < FLASH_BUFFER_COUNT
    ensures r.Some? ==> r.value == q + [item]
  {
    if |q| < FLASH_BUFFER_COUNT then Some(q + [item]) else None
  }

  /** nrf_queue_pop: refused on an empty queue, otherwise the head and the
      rest. */
  function Pop(q: seq<Node>): (r: Option<(Node, seq<Node>)>)
    ensures r.Some? <==> q != []
    ensures r.Some? ==> [r.value.0] + r.value.1 == q
  {
    if q == [] then None else Some((q[0], q[1..]))
  }

  /** First in, first out: on a non-empty queue with room, pushing then
      popping gives the same head as popping first, and the pushed item ends
      up behind what was already queued. */
  lemma PushPopFifo(q: seq<Node>, item: Node)
    requires 0 < |q| < FLASH_BUFFER_COUNT
    ensures Push(q, item).Some? && Pop(Push(q, item).value).Some?
    ensures Pop(Push(q, item).value).value.0 == Pop(q).value.0
    ensures Pop(Push(q, item).value).value.1 == Pop(q).value.1 + [item]
  {
    var p := q + [item];
    assert p[0] == q[0];
    assert p[1..] == q[1..] + [item];
  }

  /** The buffers a queue owns, with multiplicity. */
  function Buffers(q: seq<Node>): multiset<BufferId>
  {
    if q == [] then multiset{} else multiset{q[0].buffer} + Buffers(q[1..])
  }

  lemma {:induction false} BuffersAppend(a: seq<Node>, b: seq<Node>)
    ensures Buffers(a + b) == Buffers(a) + Buffers(b)
  {
    if a == [] {
      assert a + b == b;
    } else {
      assert (a + b)[1..] == a[1..] + b;
      BuffersAppend(a[1..], b);
    }
  }
}
