/**
 * Rounding a byte count up to the program unit of the flash, and the size
 * a pending write records for itself.
 */
module Alignment {
  import opened Uint

  /** WORD_SIZE_IN_BYTES: the smallest writeable unit. */
  const WORD_SIZE_IN_BYTES: u32 := 4

  /** align_up: `((val - 1) / size + 1) * size`, every step on uint32_t.
      For a non-zero value whose round-up does not overflow, it gives the
      least multiple of `size` that is at least `val`. */
  function AlignUp(val: u32, size: u32): (r: u32)
    requires size > 0
    ensures 1 <= val && val + size <= TWO_TO_THE_32 ==>
      r % size == 0 && val <= r < val + size
  {
    var n := Sub32(val, 1);
    QuotientAtMost(n, size, n / size, n % size);
    var r := Mul32(Add32(n / size, 1), size);
    if 1 <= val && val + size <= TWO_TO_THE_32 then
      RoundUpWithoutWrap(val, size);
      r
    else
      r
  }

  /** Below the overflow bound none of align_up's uint32 steps wraps, so its
      formula is the least multiple of `size` at or above `val`. */
  lemma RoundUpWithoutWrap(val: u32, size: u32)
    requires 1 <= val && 0 < size
    requires val + size <= TWO_TO_THE_32
    ensures Mul32(Add32(Sub32(val, 1) / size, 1), size) % size == 0
    ensures val <= Mul32(Add32(Sub32(val, 1) / size, 1), size) < val + size
  {
    var n := val - 1;
    var q, rem := n / size, n % size;
    assert n == q * size + rem && 0 <= rem < size;
    QuotientAtMost(n, size, q, rem);
    assert Sub32(val, 1) == n;
    assert Add32(q, 1) == q + 1 by {
      assert q + 1 <= val;
    }
    var r := (q + 1) * size;
    assert r == q * size + size by {
      MulSucc(q, size);
    }
    assert val <= r < val + size;
    assert Mul32(q + 1, size) == r by {
      assert 0 <= r < TWO_TO_THE_32;
    }
    DivModUnique(r, size, q + 1, 0);
  }

  lemma MulSucc(q: int, d: int)
    ensures (q + 1) * d == q * d + d
  {
  }

  /** A non-negative dividend has a quotient between zero and itself. */
  lemma QuotientAtMost(n: nat, d: int, q: int, rem: int)
    requires 0 < d && n == q * d + rem && 0 <= rem < d
    ensures 0 <= q <= n
  {
    if q < 0 {
      MulAtLeast(-q, d);
    } else if q > 0 {
      MulAtLeast(q, d);
      assert q * d >= q by { MulMonotone(q, d); }
    }
  }

  /** Quotient and remainder are unique. */
  lemma DivModUnique(n: int, d: int, q: int, rem: int)
    requires 0 < d && n == q * d + rem && 0 <= rem < d
    ensures n / d == q && n % d == rem
  {
    var q', rem' := n / d, n % d;
    assert n == q' * d + rem' && 0 <= rem' < d;
    assert (q - q') * d == rem' - rem by {
      assert q * d - q' * d == (q - q') * d;
    }
    if q - q' >= 1 {
      MulAtLeast(q - q', d);
    } else if q' - q >= 1 {
      MulAtLeast(q' - q, d);
    }
  }

  lemma MulAtLeast(k: int, d: int)
    requires k >= 1 && 0 < d
    ensures k * d >= d
  {
  }

  lemma MulMonotone(k: int, d: int)
    requires k >= 1 && d >= 1
    ensures k * d >= k
  {
  }

  /** The table values: 13, 16 and 1 rounded to words. */
  lemma AlignUpWordExamples()
    ensures AlignUp(13, WORD_SIZE_IN_BYTES) == 16
    ensures AlignUp(16, WORD_SIZE_IN_BYTES) == 16
    ensures AlignUp(1, WORD_SIZE_IN_BYTES) == 4
  {
  }

  /** A zero value is not rounded to zero by intent but by wrap-around:
      `0 - 1` is 0xFFFFFFFF and the final product wraps to 0. */
  lemma AlignUpZeroWraps()
    ensures AlignUp(0, WORD_SIZE_IN_BYTES) == 0
  {
  }

  /** The write size a queued request records, as written: align_up's
      result cast to the queue node's `uint8_t` field. */
  function TruncatedWriteSize(size: u32): (r: u8)
    ensures r % WORD_SIZE_IN_BYTES == 0
    ensures AlignUp(size, WORD_SIZE_IN_BYTES) < TWO_TO_THE_8 ==>
      r == AlignUp(size, WORD_SIZE_IN_BYTES)
  {
    WordMultipleStaysWordMultiple(Add32(Sub32(size, 1) / WORD_SIZE_IN_BYTES, 1));
    ToU8(AlignUp(size, WORD_SIZE_IN_BYTES))
  }

  /** A multiple of four stays one when wrapped to 32 bits and cut to 8. */
  lemma WordMultipleStaysWordMultiple(k: u32)
    ensures ToU8(Mul32(k, WORD_SIZE_IN_BYTES)) % WORD_SIZE_IN_BYTES == 0
  {
    var x := k * 4;
    var m := x / TWO_TO_THE_32;
    var w := x % TWO_TO_THE_32;
    assert x == m * TWO_TO_THE_32 + w;
    assert w == 4 * (k - m * 0x4000_0000);
    var t := w / 256;
    var b := w % 256;
    assert w == t * 256 + b;
    assert b == 4 * ((k - m * 0x4000_0000) - t * 64);
    DivModUnique(b, 4, (k - m * 0x4000_0000) - t * 64, 0);
    assert ToU8(Mul32(k, WORD_SIZE_IN_BYTES)) == b;
  }

  /** As written, a request of 256 bytes or more records a write size that is
      smaller than the bytes copied into its buffer: 256 and 4096 become 0,
      300 becomes 44. */
  lemma TruncatedWriteSizeLosesBytes()
    ensures TruncatedWriteSize(256) == 0 < 256
    ensures TruncatedWriteSize(4096) == 0 < 4096
    ensures TruncatedWriteSize(300) == 44 < 300
  {
  }

  /** The write size evidently intended: the full rounded-up size, which
      covers every byte of the request and adds less than one word. */
  function WriteSize(size: u32): (r: u32)
    requires 1 <= size <= TWO_TO_THE_32 - WORD_SIZE_IN_BYTES
    ensures r % WORD_SIZE_IN_BYTES == 0
    ensures size <= r < size + WORD_SIZE_IN_BYTES
  {
    AlignUp(size, WORD_SIZE_IN_BYTES)
  }

  /** The truncation is harmless exactly when the copied bytes fit the
      recorded size: then both sizes agree, and this happens for requests of
      at most 252 bytes. */
  lemma TruncationHarmlessWhenCopyFits(size: u32)
    requires 1 <= size
    ensures size <= TruncatedWriteSize(size) <==> size <= 252
    ensures size <= 252 ==> TruncatedWriteSize(size) == WriteSize(size)
  {
    if size <= TWO_TO_THE_32 - WORD_SIZE_IN_BYTES {
      if 252 < size < 256 {
        assert AlignUp(size, WORD_SIZE_IN_BYTES) == 256;
      }
    }
  }
}
