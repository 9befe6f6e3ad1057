/** The issue payload (payload_issue.go): the reply that registers a new OTP device. */
module PayloadIssue {
  import opened Wrappers
  import opened Text
  import opened Protocol

  /** payloadIssue: the account the server issued. */
  datatype IssuePayload = IssuePayload(
    oid: uint64,
    seed: Bytes,
    serialNumber: Bytes,
    userHash: Bytes,
    issueInfo: Bytes)
  {
    function Opcode(): int
    {
      OpIssue
    }

    predicate NeedsCommonHeader()
    {
      true
    }

    function Encode(): Bytes
    {
      []
    }
  }

  const Empty: IssuePayload := IssuePayload(0, [], [], [], [])

  /** Widths of the fields of an issue reply, in order. */
  const SerialWidth: nat := 20
  const OidWidth: nat := 11
  const SeedWidth: nat := 40
  const HashWidth: nat := 64
  const InfoWidth: nat := 80
  const ReplySize: nat := 215

  /**
   * decode: a 20-byte serial number, an 11-digit oid, the 20-byte seed as 40 hex digits,
   * a 64-byte user hash kept verbatim and 80 bytes of issue information; text fields are
   * trimmed. A short reply, an oid that is not a 64-bit number or a seed that is not hex
   * is an invalid packet.
   */
  function Decode(data: Bytes): (r: Result<IssuePayload, Error>)
    ensures r.Failure? ==> r.error == InvalidPacket
    ensures r.Success? <==>
      |data| >= ReplySize && ParseUint64(data[20..31]).Some? && HexDecode(data[31..71]).Some?
    ensures r.Success? ==>
      |r.value.seed| == 20 && |r.value.userHash| == HashWidth &&
      |r.value.serialNumber| <= SerialWidth && Trimmed(r.value.serialNumber) &&
      |r.value.issueInfo| <= InfoWidth && Trimmed(r.value.issueInfo)
  {
    if |data| < ReplySize then Failure(InvalidPacket)
    else
      var oid, seed := ParseUint64(data[20..31]), HexDecode(data[31..71]);
      if oid.None? || seed.None? then Failure(InvalidPacket)
      else
        var serial, info := TrimSpace(data[..20]), TrimSpace(data[135..215]);
        Success(IssuePayload(oid.value, seed.value, serial, data[71..135], info))
  }

  /** The issue reply the server lays out for an account: fixed-width fields, text right-padded with spaces. */
  function Reply(p: IssuePayload): (r: Bytes)
    ensures (|p.serialNumber| <= SerialWidth && p.oid < Pow10(OidWidth) && |p.seed| == 20 &&
      |p.userHash| == HashWidth && |p.issueInfo| <= InfoWidth) ==> |r| == ReplySize
  {
    ZeroPadValue(p.oid, OidWidth);
    PadRight(p.serialNumber, SerialWidth, SPACE) + ZeroPad(p.oid, OidWidth) + HexEncode(p.seed) +
    p.userHash + PadRight(p.issueInfo, InfoWidth, SPACE)
  }

  /** Every account whose fields fit their widths is decoded from its reply, whatever trails it. */
  lemma DecodeRoundTrip(p: IssuePayload, rest: Bytes)
    requires |p.serialNumber| <= SerialWidth && Trimmed(p.serialNumber)
    requires p.oid < Pow10(OidWidth) && |p.seed| == 20 && |p.userHash| == HashWidth
    requires |p.issueInfo| <= InfoWidth && Trimmed(p.issueInfo)
    ensures Decode(Reply(p) + rest) == Success(p)
  {
    var serial := PadRight(p.serialNumber, SerialWidth, SPACE);
    var oid := ZeroPad(p.oid, OidWidth);
    var seed := HexEncode(p.seed);
    var info := PadRight(p.issueInfo, InfoWidth, SPACE);
    ZeroPadValue(p.oid, OidWidth);
    assert |serial| == 20 && |oid| == 11 && |seed| == 40 && |info| == 80;
    var r1 := serial + oid;
    var r2 := r1 + seed;
    var r3 := r2 + p.userHash;
    var r4 := r3 + info;
    var data := Reply(p) + rest;
    assert data == r4 + rest;
    // Peel the fields off from the end, one prefix at a time.
    assert data[..215] == r4;
    assert data[135..215] == info && data[..135] == r3;
    assert data[71..135] == p.userHash && data[..71] == r2;
    assert data[31..71] == seed && data[..31] == r1;
    assert data[20..31] == oid && data[..20] == serial;
    ParseUint64OfZeroPad(p.oid, OidWidth);
    HexRoundTrip(p.seed);
    TrimSpaceOfPadRight(p.serialNumber, SerialWidth);
    TrimSpaceOfPadRight(p.issueInfo, InfoWidth);
  }
}
