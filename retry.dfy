/**
 * The bounded retry shared by the erase and the write paths: the driver is
 * asked again while it answers NRF_ERROR_NO_MEM and less than
 * PAGE_ERASE_TIMEOUT_US microseconds have passed on the ticker.
 */
module Retry {
  import opened Uint
  import opened Fstorage

  /** PAGE_ERASE_TIMEOUT_US. */
  const PAGE_ERASE_TIMEOUT_US: u32 := 200 * 1000

  /** Microseconds since `start`, as the unsigned difference `now - start`;
      correct across one wrap of the 32-bit ticker. */
  function Elapsed(start: u32, now: u32): (e: u32)
    ensures start <= now ==> e == now - start
    ensures now < start ==> e == now + (TWO_TO_THE_32 - start)
  {
    Sub32(now, start)
  }

  /** The loop stops after this response: the driver did not ask for a retry,
      or the timeout has been reached. */
  predicate Stops(start: u32, resp: Response)
    ensures Stops(start, resp) <==>
      resp.result != ErrorNoMem || Elapsed(start, resp.now) >= PAGE_ERASE_TIMEOUT_US
  {
    !(Elapsed(start, resp.now) < PAGE_ERASE_TIMEOUT_US && resp.result == ErrorNoMem)
  }

  /** The driver's answers do not ask for retries forever. */
  predicate EventuallyStops(start: u32, rs: seq<Response>)
  {
    exists i :: 0 <= i < |rs| && Stops(start, rs[i])
  }

  /** The index, from `from` on, of the first response after which the loop
      stops. */
  function FirstStop(start: u32, rs: seq<Response>, from: nat): (k: nat)
    requires exists i :: from <= i < |rs| && Stops(start, rs[i])
    ensures from <= k < |rs| && Stops(start, rs[k])
    ensures forall j :: from <= j < k ==> !Stops(start, rs[j])
    decreases |rs| - from
  {
    if Stops(start, rs[from]) then from
    else FirstStop(start, rs, from + 1)
  }

  /** The number of requests a retry loop issues. */
  function Attempts(start: u32, rs: seq<Response>): (n: nat)
    requires EventuallyStops(start, rs)
    ensures 1 <= n <= |rs|
  {
    FirstStop(start, rs, 0) + 1
  }

  /** The driver's answer to the last request a retry loop issues. The loop
      can only end on NRF_ERROR_NO_MEM by running out of time. */
  function RetryResult(start: u32, rs: seq<Response>): (r: RetCode)
    requires EventuallyStops(start, rs)
    ensures r == rs[Attempts(start, rs) - 1].result
    ensures r == ErrorNoMem ==>
      Elapsed(start, rs[Attempts(start, rs) - 1].now) >= PAGE_ERASE_TIMEOUT_US
  {
    rs[Attempts(start, rs) - 1].result
  }

  /** Every request but the last was refused with NRF_ERROR_NO_MEM within
      the timeout; the last one ended the loop. */
  lemma RetryStopsAtFirstChance(start: u32, rs: seq<Response>)
    requires EventuallyStops(start, rs)
    ensures forall j :: 0 <= j < Attempts(start, rs) - 1 ==>
      rs[j].result == ErrorNoMem && Elapsed(start, rs[j].now) < PAGE_ERASE_TIMEOUT_US
    ensures RetryResult(start, rs) != ErrorNoMem ||
      Elapsed(start, rs[Attempts(start, rs) - 1].now) >= PAGE_ERASE_TIMEOUT_US
  {
  }

  /** A driver that only ever answers NRF_ERROR_NO_MEM makes the loop give up
      with that answer, at the first ticker reading that is 200 ms or more
      after the start. */
  lemma BusyDriverTimesOut(start: u32, rs: seq<Response>)
    requires EventuallyStops(start, rs)
    requires forall i :: 0 <= i < |rs| ==> rs[i].result == ErrorNoMem
    ensures RetryResult(start, rs) == ErrorNoMem
    ensures Elapsed(start, rs[Attempts(start, rs) - 1].now) >= PAGE_ERASE_TIMEOUT_US
    ensures forall j :: 0 <= j < Attempts(start, rs) - 1 ==>
      Elapsed(start, rs[j].now) < PAGE_ERASE_TIMEOUT_US
  {
  }
}
