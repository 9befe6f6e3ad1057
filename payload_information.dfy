/** The information payload (payload_infomation.go). */
module PayloadInformation {
  import opened Wrappers
  import opened Text
  import opened Protocol

  /** payloadInfomation: the oid as a signed 32-bit number and two text fields. */
  datatype InformationPayload = InformationPayload(oid: int, seed: Bytes, partner: Bytes)
  {
    function Opcode(): int
    {
      OpInformation
    }

    predicate NeedsCommonHeader()
    {
      true
    }

    function Encode(): Bytes
    {
      []
    }
  }

  const Empty: InformationPayload := InformationPayload(0, [], [])

  const OidWidth: nat := 11
  const SeedWidth: nat := 40
  const PartnerWidth: nat := 80
  const ReplySize: nat := 131

  /**
   * decode: an 11-byte oid in the signed 32-bit range, then 40 and 80 bytes of text, trimmed.
   * A short reply or an oid that does not parse is an invalid packet.
   */
  function Decode(data: Bytes): (r: Result<InformationPayload, Error>)
    ensures r.Failure? ==> r.error == InvalidPacket
    ensures r.Success? <==> |data| >= ReplySize && ParseInt(data[..11], 32).Some?
    ensures r.Success? ==>
      -0x8000_0000 <= r.value.oid < 0x8000_0000 &&
      |r.value.seed| <= SeedWidth && Trimmed(r.value.seed) &&
      |r.value.partner| <= PartnerWidth && Trimmed(r.value.partner)
  {
    if |data| < ReplySize then Failure(InvalidPacket)
    else
      var oid := ParseInt(data[..11], 32);
      if oid.None? then Failure(InvalidPacket)
      else
        var seed, partner := TrimSpace(data[11..51]), TrimSpace(data[51..131]);
        Success(InformationPayload(oid.value, seed, partner))
  }

  /** The reply the server lays out: the oid zero-padded, the text fields right-padded with spaces. */
  function Reply(p: InformationPayload): (r: Bytes)
    requires p.oid >= 0
    ensures (p.oid < Pow10(OidWidth) && |p.seed| <= SeedWidth && |p.partner| <= PartnerWidth) ==>
      |r| == ReplySize
  {
    var oid: nat := p.oid;
    ZeroPadValue(oid, OidWidth);
    ZeroPad(oid, OidWidth) + PadRight(p.seed, SeedWidth, SPACE) + PadRight(p.partner, PartnerWidth, SPACE)
  }

  /** Every non-negative 32-bit oid and every pair of fitting, trimmed texts are decoded from their reply. */
  lemma DecodeRoundTrip(p: InformationPayload, rest: Bytes)
    requires 0 <= p.oid < 0x8000_0000
    requires |p.seed| <= SeedWidth && Trimmed(p.seed)
    requires |p.partner| <= PartnerWidth && Trimmed(p.partner)
    ensures Decode(Reply(p) + rest) == Success(p)
  {
    var oid := ZeroPad(p.oid, OidWidth);
    var seed := PadRight(p.seed, SeedWidth, SPACE);
    var partner := PadRight(p.partner, PartnerWidth, SPACE);
    ElevenDigits();
    ZeroPadValue(p.oid, OidWidth);
    var data := Reply(p) + rest;
    assert data == oid + seed + partner + rest;
    assert data[..11] == oid;
    assert data[11..51] == seed;
    assert data[51..131] == partner;
    ParseIntOfDigits(oid, 32);
    TrimSpaceOfPadRight(p.seed, SeedWidth);
    TrimSpaceOfPadRight(p.partner, PartnerWidth);
  }
}
