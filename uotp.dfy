/**
 * The OTP client (uotp.go): the device state, its persisted account record, the
 * token generator, and the requests that synchronise the clock, issue a device,
 * reset the error count and page through the usage history.
 *
 * The network exchange (packet.Send) is not part of this model: each request method
 * returns the packet it built and takes as a parameter what Send gave back, either
 * the decoded reply payload or the error. The clock reading (otpNow) is a parameter too.
 */
module Session {
  import opened Wrappers
  import opened Text
  import opened Utils
  import opened Protocol
  import opened Crypto
  import opened Payloads
  import opened Packets
  import Base64
  import PayloadTime
  import PayloadIssue
  import PayloadHistory
  import PayloadResetErrorCount

  /** Account: the persisted form of a device, every field text except the clock offset. */
  datatype Account = Account(id: Bytes, oid: Bytes, seed: Bytes, serialNumber: Bytes, timeDiff: int)

  /** The five fields of a uotp, as one value. */
  datatype Device = Device(id: Bytes, oid: uint64, seed: Bytes, serialNumber: Bytes, timeDiff: int)

  /** The zero uotp New makes when there is no account. */
  const Blank: Device := Device([], 0, [], [], 0)

  /**
   * What New reads from an account: the oid must be a 64-bit decimal number and the seed
   * standard base64, or the account is invalid; no account gives the blank device.
   */
  function FromAccount(account: Option<Account>): (r: Result<Device, Error>)
    ensures r.Failure? <==>
      account.Some? && (ParseUint64(account.value.oid).None? || Base64.Decode(account.value.seed).None?)
    ensures r.Failure? ==> r.error == InvalidAccount
    ensures account.None? ==> r == Success(Blank)
  {
    match account
    case None => Success(Blank)
    case Some(a) =>
      match ParseUint64(a.oid)
      case None => Failure(InvalidAccount)
      case Some(oid) =>
        match Base64.Decode(a.seed)
        case None => Failure(InvalidAccount)
        case Some(seed) => Success(Device(a.id, oid, seed, a.serialNumber, a.timeDiff))
  }

  /** GetAccount: the oid in decimal and the seed in standard base64. */
  function ToAccount(d: Device): Account
  {
    Account(d.id, Digits(d.oid), Base64.Encode(d.seed), d.serialNumber, d.timeDiff)
  }

  /** Every device survives GetAccount followed by New. */
  lemma AccountRoundTrip(d: Device)
    ensures FromAccount(Some(ToAccount(d))) == Success(d)
  {
    DigitsRoundTrip(d.oid);
    Base64.RoundTrip(d.seed);
  }

  // ---------------------------------------------------------------------------
  // The token

  /** The clock the token is computed from: otpNow plus the offset, truncated to 32 bits by uint32(). */
  function Now(clock: uint32, timeDiff: int): uint32
  {
    (clock + timeDiff) % 0x1_0000_0000
  }

  /** The HMAC key block: a 20-byte key followed by 44 zero bytes. */
  function KeyBlock(key: Digest): (b: Bytes)
    ensures |b| == 64 && b[..20] == key && forall i | 20 <= i < 64 :: b[i] == 0
  {
    key + seq(44, _ => 0)
  }

  /** Every byte of s exclusive-or'd with b. */
  function XorAll(s: Bytes, b: byte): (r: Bytes)
    ensures |r| == |s| && forall i | 0 <= i < |s| :: r[i] == Xor(s[i], b)
  {
    seq(|s|, i requires 0 <= i < |s| => Xor(s[i], b))
  }

  /** HMAC-SHA1 (section 2 of RFC 2104, block size 64) under a 20-byte key. */
  function Hmac(sha1: Bytes -> Digest, key: Digest, msg: Bytes): Digest
  {
    sha1(XorAll(KeyBlock(key), 0x5C) + sha1(XorAll(KeyBlock(key), 0x36) + msg))
  }

  /** The digest of generateToken: HMAC-SHA1 keyed by SHA-1 of the 11-byte oid and the seed, over the 10-second step. */
  function TokenDigest(sha1: Bytes -> Digest, oid: uint64, seed: Bytes, now: uint32): Digest
  {
    Hmac(sha1, sha1(BigEndian(11, oid) + seed), BigEndian(11, now / 10))
  }

  /** Dynamic truncation: four bytes at the offset the low nibble of the last byte names, big-endian. */
  function Truncate(d: Digest): (v: nat)
    ensures v < 0x1_0000_0000
  {
    var off := d[19] as int % 16;
    BigEndianValueBound(d[off..off + 4]);
    assert Pow256(4) == 0x1_0000_0000;
    BigEndianValue(d[off..off + 4])
  }

  /** Bits 2 and 5 and the top byte are cleared; bit 2 marks the middle and bit 5 the last ten seconds of a 30-second window. */
  function Windowed(v: bv32, now: uint32): bv32
  {
    var m := v & 0xffffdb;
    var rem := now % 30;
    if 10 <= rem < 20 then m | 4
    else if 20 <= rem < 30 then m | 32
    else m
  }

  function TokenValue(sha1: Bytes -> Digest, oid: uint64, seed: Bytes, now: uint32): nat
  {
    Windowed(Truncate(TokenDigest(sha1, oid, seed, now)) as bv32, now) as int
  }

  /** generateToken: the value modulo 10^7 as seven digits. */
  function RawToken(sha1: Bytes -> Digest, oid: uint64, seed: Bytes, now: uint32): Bytes
  {
    ZeroPad(TokenValue(sha1, oid, seed, now) % 10_000_000, 7)
  }

  /** The raw token is always seven decimal digits that spell the token value modulo 10^7. */
  lemma RawTokenDigits(sha1: Bytes -> Digest, oid: uint64, seed: Bytes, now: uint32)
    ensures var t := RawToken(sha1, oid, seed, now);
      |t| == 7 && AllDigits(t) && DigitsValue(t) == TokenValue(sha1, oid, seed, now) % 10_000_000
  {
    assert Pow10(7) == 10_000_000 by {
      assert Pow10(3) == 1000 by {
        assert Pow10(2) == 100;
      }
      assert Pow10(6) == 1_000_000;
    }
    ZeroPadValue(TokenValue(sha1, oid, seed, now) % 10_000_000, 7);
  }

  /**
   * The window bits: bit 2 is set exactly in the middle ten seconds of each 30-second
   * window, bit 5 exactly in the last ten, and the other bits are the masked truncation.
   */
  lemma WindowBits(v: bv32, now: uint32)
    ensures Windowed(v, now) & 4 != 0 <==> 10 <= now % 30 < 20
    ensures Windowed(v, now) & 32 != 0 <==> 20 <= now % 30 < 30
    ensures Windowed(v, now) & 0xffffdb == v & 0xffffdb
    ensures Windowed(v, now) < 0x100_0000
  {
    MaskBits(v);
    var rem := now % 30;
    if 10 <= rem < 20 {
      assert Windowed(v, now) == (v & 0xffffdb) | 4;
    } else if 20 <= rem < 30 {
      assert Windowed(v, now) == (v & 0xffffdb) | 32;
    } else {
      assert Windowed(v, now) == v & 0xffffdb;
    }
  }

  /** The mask clears bits 2 and 5, and setting either one leaves the rest. */
  lemma MaskBits(v: bv32)
    ensures var m := v & 0xffffdb;
      m & 4 == 0 && m & 32 == 0 && m < 0x100_0000 &&
      (m | 4) & 4 != 0 && (m | 4) & 32 == 0 && (m | 4) & 0xffffdb == m && m | 4 < 0x100_0000 &&
      (m | 32) & 32 != 0 && (m | 32) & 4 == 0 && (m | 32) & 0xffffdb == m && m | 32 < 0x100_0000
  {
  }

  /** The window a clock falls in is decided by its 10-second step. */
  lemma WindowOfStep(now: uint32)
    ensures 10 <= now % 30 < 20 <==> (now / 10) % 3 == 1
    ensures 20 <= now % 30 < 30 <==> (now / 10) % 3 == 2
  {
    var q, r := now / 30, now % 30;
    assert now == 30 * q + r;
    assert now / 10 == 3 * q + r / 10;
  }

  /** Two clocks in the same 10-second step give the same token. */
  lemma TokenPerStep(sha1: Bytes -> Digest, oid: uint64, seed: Bytes, now1: uint32, now2: uint32)
    requires now1 / 10 == now2 / 10
    ensures RawToken(sha1, oid, seed, now1) == RawToken(sha1, oid, seed, now2)
  {
    WindowOfStep(now1);
    WindowOfStep(now2);
  }

  /** GenerateToken's display form of a seven-digit token: three digits, a dash, four digits. */
  lemma TokenDisplay(raw: Bytes)
    requires |raw| == 7
    ensures Humanized(raw, DASH, 3, 2) == raw[..3] + [DASH] + raw[3..]
  {
    HumanizedEdgeCases(raw, DASH, 3, 2);
  }

  /** The eleven-byte big-endian block of a value below 256^k: its first 11 - k bytes are zero. */
  lemma ElevenBytes(oid: uint64, now: uint32)
    ensures forall i | 0 <= i < 3 :: BigEndian(11, oid)[i] == 0
    ensures forall i | 0 <= i < 7 :: BigEndian(11, now / 10)[i] == 0
    ensures BigEndianValue(BigEndian(11, oid)) == oid
  {
    assert Pow256(4) == 0x1_0000_0000;
    assert Pow256(8) == 0x1_0000_0000_0000_0000 by {
      assert Pow256(6) == 0x1_0000_0000_0000 by {
        assert Pow256(5) == 0x100_0000_0000;
      }
    }
    BigEndianLeadingZeros(11, 8, oid);
    BigEndianLeadingZeros(11, 4, now / 10);
    assert Pow256(11) > Pow256(8) by {
      assert Pow256(11) == 256 * 256 * 256 * Pow256(8);
    }
    BigEndianRoundTrip(11, oid);
  }

  // ---------------------------------------------------------------------------
  // The client

  /** uotp: one OTP device. */
  class Uotp {
    var id: Bytes
    var oid: uint64
    var seed: Bytes
    var serialNumber: Bytes
    var timeDiff: int

    function Current(): Device
      reads this
    {
      Device(id, oid, seed, serialNumber, timeDiff)
    }

    /** The zero uotp. */
    constructor ()
      ensures Current() == Blank
    {
      id := [];
      oid := 0;
      seed := [];
      serialNumber := [];
      timeDiff := 0;
    }

    /** GetSerialNumber: the serial number, unchanged (fmt.Sprint of a string is the string). */
    function GetSerialNumber(): (s: Bytes)
      reads this
      ensures s == Current().serialNumber
    {
      serialNumber
    }

    /** GetAccount: the account record New reads this device back from. */
    function GetAccount(): (a: Account)
      reads this
      ensures a.id == id && a.serialNumber == serialNumber && a.timeDiff == timeDiff
      ensures a.oid == Digits(oid) && a.seed == Base64.Encode(seed)
      ensures ParseUint64(a.oid) == Some(oid) && Base64.Decode(a.seed) == Some(seed)
    {
      AccountRoundTrip(Current());
      ToAccount(Current())
    }

    /**
     * generateToken: the 11-byte big-endian oid and 10-second step are filled from the
     * last byte back, the HMAC key blocks are built and exclusive-or'd in place, and the
     * truncated digest is masked, flagged for its window and printed as seven digits.
     */
    method GenerateRawToken(sha1: Bytes -> Digest, clock: uint32) returns (token: Bytes)
      ensures token == RawToken(sha1, oid, seed, Now(clock, timeDiff))
      ensures |token| == 7 && AllDigits(token)
    {
      var now := Now(clock, timeDiff);
      var accSeed, timeSeed := BigEndianBlocks(oid, now / 10);
      var key := sha1(accSeed + seed);
      var inner, outer := KeyBlocks(KeyBlock(key));
      var digest := sha1(inner + timeSeed);
      digest := sha1(outer + digest);
      var digit := digest[19] as int % 16;
      var value: nat := 0;
      // (token << 8) | byte on a value below 2^24 is value * 256 + byte.
      value := value * 256 + digest[digit] as int;
      value := value * 256 + digest[digit + 1] as int;
      value := value * 256 + digest[digit + 2] as int;
      value := value * 256 + digest[digit + 3] as int;
      assert value == Truncate(digest) by {
        TruncateUnfolded(digest);
      }
      var bits := value as bv32 & 0xffffdb;
      var rem := now % 30;
      if 10 <= rem && rem < 20 {
        bits := bits | 4;
      } else if 20 <= rem && rem < 30 {
        bits := bits | 32;
      }
      token := ZeroPad(bits as int % 10_000_000, 7);
      RawTokenDigits(sha1, oid, seed, now);
    }

    /** GenerateToken: the raw token grouped as three digits, a dash and four digits. */
    method GenerateToken(sha1: Bytes -> Digest, clock: uint32) returns (display: Bytes)
      ensures var raw := RawToken(sha1, oid, seed, Now(clock, timeDiff));
        display == Humanized(raw, DASH, 3, 2) && display == raw[..3] + [DASH] + raw[3..]
    {
      var raw := GenerateRawToken(sha1, clock);
      display := Humanize(raw, DASH, 3, 2);
      TokenDisplay(raw);
    }

    /**
     * SyncTime: a time request with no key and no token; on a time reply the offset
     * becomes the server's clock minus the clock read before sending, and nothing else
     * changes. An error leaves the device as it was; a reply of another kind panics.
     */
    method SyncTime(clock: uint32, reply: Result<Payload, Error>) returns (req: Packet, err: Option<Error>)
      modifies this
      ensures fresh(req) && req.payload == Time(PayloadTime.Empty) && req.status == StatusOK
      ensures req.oid == 0 && req.sharedKey == [] && req.extraToken == []
      ensures reply.Failure? ==> err == Some(reply.error) && Current() == old(Current())
      ensures reply.Success? && reply.value.Time? ==>
        err == None && Current() == old(Current()).(timeDiff := reply.value.time.time - clock)
      ensures reply.Success? && !reply.value.Time? ==> err == Some(Crash) && Current() == old(Current())
    {
      var now := clock;
      req := new Packet(OpTime, []);
      if reply.Failure? {
        return req, Some(reply.error);
      }
      if !reply.value.Time? {
        return req, Some(Crash);
      }
      timeDiff := reply.value.time.time - now;
      return req, None;
    }

    /**
     * Issue: an issue request sealed under the fresh key newSharedKey made (issueKey);
     * an issue reply replaces the whole device, its serial number grouped by four with
     * dashes, and resets the offset. An error leaves the device as it was.
     */
    method Issue(issueKey: Bytes, reply: Result<Payload, Error>) returns (req: Packet, err: Option<Error>)
      modifies this
      ensures fresh(req) && req.payload == Payloads.Issue(PayloadIssue.Empty) && req.status == StatusOK
      ensures req.oid == 0 && req.sharedKey == issueKey && req.extraToken == []
      ensures reply.Failure? ==> err == Some(reply.error) && Current() == old(Current())
      ensures reply.Success? && reply.value.Issue? ==>
        var p := reply.value.issue;
        err == None && Current() == Device(p.userHash, p.oid, p.seed, Humanized(p.serialNumber, DASH, 4, -1), 0)
      ensures reply.Success? && !reply.value.Issue? ==> err == Some(Crash) && Current() == old(Current())
    {
      req := new Packet(OpIssue, issueKey);
      if reply.Failure? {
        return req, Some(reply.error);
      }
      if !reply.value.Issue? {
        return req, Some(Crash);
      }
      var params := reply.value.issue;
      id := params.userHash;
      oid := params.oid;
      seed := params.seed;
      serialNumber := Humanize(params.serialNumber, DASH, 4, -1);
      timeDiff := 0;
      return req, None;
    }

    /**
     * The request ResetError, ResetErrorCount and GetHistory build: the opcode's packet
     * carrying the device's oid, the id as its key and the current raw token.
     */
    method TokenRequest(sha1: Bytes -> Digest, clock: uint32, op: int) returns (req: Packet)
      requires op == OpResetErrorCount || op == OpUseHistory
      ensures fresh(req) && req.payload == ForOpcode(op).value && req.status == StatusOK
      ensures req.oid == oid && req.sharedKey == id
      ensures req.extraToken == RawToken(sha1, oid, seed, Now(clock, timeDiff)) + [SPACE]
    {
      req := new Packet(op, []);
      req.oid := oid;
      var token := GenerateRawToken(sha1, clock);
      req.SetEncryptionInfo(Some(id), token);
      assert PadLeft(token, 7, ZERO) == token;
    }

    /** ResetError: an error-count reset request; its outcome is Send's. */
    method ResetError(sha1: Bytes -> Digest, clock: uint32, reply: Result<Payload, Error>) returns (req: Packet, err: Option<Error>)
      ensures fresh(req) && req.payload == Payloads.ResetErrorCount(PayloadResetErrorCount.ResetErrorCountPayload)
      ensures req.oid == oid && req.sharedKey == id
      ensures req.extraToken == RawToken(sha1, oid, seed, Now(clock, timeDiff)) + [SPACE]
      ensures err == if reply.Failure? then Some(reply.error) else None
    {
      req := TokenRequest(sha1, clock, OpResetErrorCount);
      err := if reply.Failure? then Some(reply.error) else None;
    }

    /** ResetErrorCount: the same request and outcome as ResetError. */
    method ResetErrorCount(sha1: Bytes -> Digest, clock: uint32, reply: Result<Payload, Error>) returns (req: Packet, err: Option<Error>)
      ensures fresh(req) && req.payload == Payloads.ResetErrorCount(PayloadResetErrorCount.ResetErrorCountPayload)
      ensures req.oid == oid && req.sharedKey == id
      ensures req.extraToken == RawToken(sha1, oid, seed, Now(clock, timeDiff)) + [SPACE]
      ensures err == if reply.Failure? then Some(reply.error) else None
    {
      req, err := ResetError(sha1, clock, reply);
    }

    /**
     * GetHistory: a page below 1 is refused before any request; otherwise a history
     * request for that page over period 3, and the history reply's payload.
     */
    method GetHistory(sha1: Bytes -> Digest, clock: uint32, page: int, reply: Result<Payload, Error>)
      returns (req: Packet?, r: Result<PayloadHistory.History, Error>)
      ensures page < 1 ==> req == null && r == Failure(InvalidPage)
      ensures page >= 1 ==> req != null && fresh(req)
      ensures page >= 1 ==> req.payload == History(PayloadHistory.Empty.(requestPage := page, requestPeriod := 3))
      ensures page >= 1 ==> req.oid == oid && req.sharedKey == id
      ensures page >= 1 ==> req.extraToken == RawToken(sha1, oid, seed, Now(clock, timeDiff)) + [SPACE]
      ensures page >= 1 && reply.Failure? ==> r == Failure(reply.error)
      ensures page >= 1 && reply.Success? ==>
        r == if reply.value.History? then Success(reply.value.history) else Failure(Crash)
    {
      if page < 1 {
        return null, Failure(InvalidPage);
      }
      var p := TokenRequest(sha1, clock, OpUseHistory);
      p.payload := History(p.payload.history.(requestPage := page, requestPeriod := 3));
      req := p;
      if reply.Failure? {
        return req, Failure(reply.error);
      }
      if !reply.value.History? {
        return req, Failure(Crash);
      }
      return req, Success(reply.value.history);
    }
  }

  /** Truncate, one byte at a time from the most significant. */
  lemma TruncateUnfolded(d: Digest)
    ensures var off := d[19] as int % 16;
      Truncate(d) == ((d[off] as int * 256 + d[off + 1] as int) * 256 + d[off + 2] as int) * 256 + d[off + 3] as int
  {
    var off := d[19] as int % 16;
    var s := d[off..off + 4];
    assert s == [d[off], d[off + 1], d[off + 2], d[off + 3]];
    assert s[..3] == [d[off], d[off + 1], d[off + 2]];
    assert s[..3][..2] == [d[off], d[off + 1]];
    assert s[..3][..2][..1] == [d[off]];
    assert BigEndianValue([d[off]]) == d[off] as int by {
      assert [d[off]][..0] == [];
    }
    assert BigEndianValue(s[..3][..2]) == d[off] as int * 256 + d[off + 1] as int;
    assert BigEndianValue(s[..3]) == BigEndianValue(s[..3][..2]) * 256 + d[off + 2] as int;
    assert BigEndianValue(s) == BigEndianValue(s[..3]) * 256 + d[off + 3] as int;
  }

  /** The two 11-byte big-endian blocks of generateToken, filled from the last byte back. */
  method BigEndianBlocks(oid: uint64, step: nat) returns (accSeed: Bytes, timeSeed: Bytes)
    ensures accSeed == BigEndian(11, oid) && timeSeed == BigEndian(11, step)
  {
    var acc := new byte[11];
    var tim := new byte[11];
    var o: nat, t: nat := oid, step;
    var i := 10;
    while i >= 0
      modifies acc, tim
      invariant -1 <= i <= 10
      invariant BigEndian(11, oid) == BigEndian(i + 1, o) + acc[i + 1..]
      invariant BigEndian(11, step) == BigEndian(i + 1, t) + tim[i + 1..]
    {
      acc[i] := (o % 256) as byte;
      tim[i] := (t % 256) as byte;
      assert acc[i..] == [acc[i]] + acc[i + 1..];
      assert tim[i..] == [tim[i]] + tim[i + 1..];
      o := o / 256;
      t := t / 256;
      i := i - 1;
    }
    accSeed := acc[..];
    timeSeed := tim[..];
  }

  /**
   * accSeed1 and accSeed2 of generateToken: two copies of the 64-byte key block accSeed0,
   * exclusive-or'd in place with 0x36 and with 0x5C.
   */
  method KeyBlocks(block: Bytes) returns (inner: Bytes, outer: Bytes)
    requires |block| == 64
    ensures inner == XorAll(block, 0x36) && outer == XorAll(block, 0x5C)
  {
    var a1 := new byte[64](i requires 0 <= i < 64 => block[i]);
    var a2 := new byte[64](i requires 0 <= i < 64 => block[i]);
    var i := 0;
    while i < 64
      modifies a1, a2
      invariant 0 <= i <= 64
      invariant forall j | 0 <= j < i :: a1[j] == Xor(block[j], 0x36) && a2[j] == Xor(block[j], 0x5C)
      invariant forall j | i <= j < 64 :: a1[j] == block[j] && a2[j] == block[j]
    {
      a1[i] := Xor(a1[i], 0x36);
      a2[i] := Xor(a2[i], 0x5C);
      i := i + 1;
    }
    inner := a1[..];
    outer := a2[..];
  }

  /** New: the blank device, or the device an account describes; an unreadable account is refused. */
  method New(account: Option<Account>) returns (r: Result<Uotp, Error>)
    ensures r.Failure? <==> FromAccount(account).Failure?
    ensures r.Failure? ==> r.error == InvalidAccount
    ensures r.Success? ==> fresh(r.value) && r.value.Current() == FromAccount(account).value
  {
    var o := new Uotp();
    if account.Some? {
      var a := account.value;
      o.id := a.id;
      var oid := ParseUint64(a.oid);
      if oid.None? {
        return Failure(InvalidAccount);
      }
      o.oid := oid.value;
      var seed := Base64.Decode(a.seed);
      if seed.None? {
        return Failure(InvalidAccount);
      }
      o.seed := seed.value;
      o.serialNumber := a.serialNumber;
      o.timeDiff := a.timeDiff;
    }
    return Success(o);
  }
}
