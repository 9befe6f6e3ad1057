/** The error-count reset payload (payload_reset_error_count.go): a request with no body and a reply with no content. */
module PayloadResetErrorCount {
  import opened Wrappers
  import opened Text
  import opened Protocol

  datatype ResetErrorCountPayload = ResetErrorCountPayload
  {
    function Opcode(): int
    {
      OpResetErrorCount
    }

    predicate NeedsCommonHeader()
    {
      true
    }

    function Encode(): Bytes
    {
      []
    }
  }

  /** decode accepts every reply body, the empty one included. */
  function Decode(data: Bytes): (r: Result<ResetErrorCountPayload, Error>)
    ensures r == Success(ResetErrorCountPayload)
  {
    Success(ResetErrorCountPayload)
  }
}
