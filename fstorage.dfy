/**
 * The boundary of the vendor flash-storage driver (nrf_fstorage) as seen by
 * the HAL: its status codes and the kinds of event it reports. The driver
 * itself is an oracle: each HAL call is given the answers it will receive.
 */
module Fstorage {
  import opened Uint

  /** A ret_code_t other than the four the HAL names: NRF_SUCCESS (0),
      NRF_ERROR_NO_MEM (4), NRF_ERROR_NOT_FOUND (5) and NRF_ERROR_NULL (14). */
  type OtherCode = c: u32 | c != 0 && c != 4 && c != 5 && c != 14 witness 1

  /** ret_code_t values the HAL distinguishes. */
  datatype RetCode =
    | Success                 // NRF_SUCCESS
    | ErrorNoMem              // NRF_ERROR_NO_MEM: the driver's own queue is full, retry
    | ErrorNotFound           // NRF_ERROR_NOT_FOUND: no pending write to start
    | ErrorNull               // NRF_ERROR_NULL: no data to program
    | ErrorOther(code: OtherCode)  // any other error the driver reports

  /** nrf_fstorage_evt_id_t. */
  datatype EventId = ReadResult | WriteResult | EraseResult

  /** One answer of the driver to a write or erase request, together with the
      microsecond ticker reading taken right after it. */
  datatype Response = Response(result: RetCode, now: u32)

  /** The mbed HAL status for a driver status: 0 on success, -1 otherwise. */
  function ToHal(r: RetCode): (status: int)
    ensures status == 0 <==> r == Success
    ensures status == 0 || status == -1
  {
    if r == Success then 0 else -1
  }
}
