/** The clock-synchronisation payload (payload_time.go). */
module PayloadTime {
  import opened Wrappers
  import opened Text
  import opened Protocol

  /** payloadTime: the server's clock, in the units of otpNow. */
  datatype TimePayload = TimePayload(time: int)
  {
    function Opcode(): int
    {
      OpTime
    }

    /** A time request carries no common header and no body. */
    predicate NeedsCommonHeader()
    {
      false
    }

    function Encode(): Bytes
    {
      []
    }
  }

  const Empty: TimePayload := TimePayload(0)

  /**
   * decode: the first four bytes as a big-endian unsigned 32-bit number; anything after
   * them is ignored.
   */
  function Decode(data: Bytes): (r: Result<TimePayload, Error>)
    ensures r.Failure? <==> |data| < 4
    ensures r.Failure? ==> r.error == InvalidPacket
    ensures r.Success? ==> 0 <= r.value.time < 0x1_0000_0000
  {
    if |data| < 4 then Failure(InvalidPacket)
    else
      BigEndianValueBound(data[..4]);
      assert Pow256(4) == 0x1_0000_0000;
      Success(TimePayload(BigEndianValue(data[..4])))
  }

  /** Any 32-bit time the server writes in four big-endian bytes is read back, whatever follows it. */
  lemma DecodeRoundTrip(t: uint32, rest: Bytes)
    ensures Decode(BigEndian(4, t) + rest) == Success(TimePayload(t))
  {
    var data := BigEndian(4, t) + rest;
    assert data[..4] == BigEndian(4, t);
    assert Pow256(4) == 0x1_0000_0000;
    BigEndianRoundTrip(4, t);
  }
}
