/**
 * The request/reply frame of the OTP protocol (packet.go): a packet's state, its
 * encryption key, the common header, and the encoding and decoding of a frame.
 *
 * A frame is 'S', the length of the rest as five digits, a 64-byte key field
 * (right-aligned, space-filled), a four-byte status, a three-digit opcode and the body.
 */
module Packets {
  import opened Wrappers
  import opened Text
  import opened Protocol
  import opened Crypto
  import opened Payloads

  /** The first byte of every frame. */
  const FrameStart: byte := 0x53

  /** The width of the key field and the size of the frame after its six-byte head, without the body. */
  const KeyWidth: nat := 64
  const FixedSize: nat := 71

  /** setEncryptionInfo's extra token: the token under "%07s ", zero-filled to seven bytes, then a space. */
  function TokenField(token: Bytes): (r: Bytes)
    ensures |r| == (if |token| < 7 then 7 else |token|) + 1
    ensures r[|r| - 1] == SPACE && r[|r| - 1 - |token|..|r| - 1] == token
    ensures forall i | 0 <= i < |r| - 1 - |token| :: r[i] == ZERO
  {
    PadLeft(token, 7, ZERO) + [SPACE]
  }

  // ---------------------------------------------------------------------------
  // The common header

  /** The ASCII texts of the header: three carriers, three handset models, the client version. */
  const KTF: Bytes := [0x4B, 0x54, 0x46]
  const SKT: Bytes := [0x53, 0x4B, 0x54]
  const LGT: Bytes := [0x4C, 0x47, 0x54]
  const G920K: Bytes := [0x53, 0x4D, 0x2D, 0x47, 0x39, 0x32, 0x30, 0x4B]
  const G950S: Bytes := [0x53, 0x4D, 0x2D, 0x47, 0x39, 0x35, 0x30, 0x53]
  const G955L: Bytes := [0x53, 0x4D, 0x2D, 0x47, 0x39, 0x35, 0x35, 0x4C]
  const GA15: Bytes := [0x47, 0x41, 0x31, 0x35]

  /** The carrier and handset model the header claims, picked by the same random number. */
  function Carrier(r: nat): (c: Bytes)
    requires r < 3
    ensures |c| == 3
  {
    if r == 0 then KTF else if r == 1 then SKT else LGT
  }

  function Handset(r: nat): (m: Bytes)
    requires r < 3
    ensures |m| == 8
  {
    if r == 0 then G920K else if r == 1 then G950S else G955L
  }

  /** The oid under "%-11d", or eleven spaces when there is none. */
  function OidField(oid: uint64): Bytes
  {
    if oid != 0 then PadRight(Digits(oid), 11, SPACE) else PadRight([], 11, SPACE)
  }

  /** The handset model under "%-16s". */
  function Model(r: nat): (m: Bytes)
    requires r < 3
    ensures |m| == 16
  {
    PadRight(Handset(r), 16, SPACE)
  }

  /** The client version "GA15" under "%-4s", then 2 and 0 under "%04d". */
  const Trailer: Bytes := GA15 + [ZERO, ZERO, ZERO, 0x32] + [ZERO, ZERO, ZERO, ZERO]

  /** appendCommonHeader: carrier, oid, handset model and the trailer. */
  function CommonHeader(r: nat, oid: uint64): Bytes
    requires r < 3
  {
    Carrier(r) + OidField(oid) + Model(r) + Trailer
  }

  /**
   * The header is 42 bytes when the oid has at most eleven digits; its oid field holds
   * the oid left-aligned, from which it reads back once the trailing spaces are cut, or
   * only spaces when there is no oid.
   */
  lemma CommonHeaderLayout(r: nat, oid: uint64)
    requires r < 3 && oid < Pow10(11)
    ensures |CommonHeader(r, oid)| == 42
    ensures CommonHeader(r, oid)[..3] == Carrier(r)
    ensures oid != 0 ==> ParseUint64(TrimRight(CommonHeader(r, oid)[3..14], SPACE)) == Some(oid)
    ensures oid == 0 ==> forall i | 3 <= i < 14 :: CommonHeader(r, oid)[i] == SPACE
    ensures CommonHeader(r, oid)[14..30] == Model(r) && CommonHeader(r, oid)[30..] == Trailer
  {
    var field := OidField(oid);
    OidFieldWidth(oid);
    if oid != 0 {
      OidFieldReadsBack(oid);
    }
    var h := CommonHeader(r, oid);
    assert |Trailer| == 12;
    assert h[3..14] == field;
    assert h[14..30] == Model(r);
    assert h[30..] == Trailer;
  }

  lemma OidFieldWidth(oid: uint64)
    requires oid < Pow10(11)
    ensures |OidField(oid)| == 11
  {
    if oid != 0 {
      DigitsLength(oid, 11);
    }
  }

  lemma OidFieldReadsBack(oid: uint64)
    requires 0 < oid < Pow10(11)
    ensures |OidField(oid)| == 11
    ensures ParseUint64(TrimRight(OidField(oid), SPACE)) == Some(oid)
  {
    var d := Digits(oid);
    DigitsLength(oid, 11);
    var field := OidField(oid);
    assert field == d + field[|d|..];
    TrimRightOfPadding(d, field[|d|..]);
    DigitsRoundTrip(oid);
  }

  /** Cutting the spaces of a right-padding off a text that ends in a digit gives the text back. */
  lemma {:induction false} TrimRightOfPadding(s: Bytes, pad: Bytes)
    requires |s| > 0 && s[|s| - 1] != SPACE
    requires forall i | 0 <= i < |pad| :: pad[i] == SPACE
    ensures TrimRight(s + pad, SPACE) == s
    decreases |pad|
  {
    if pad != [] {
      assert (s + pad)[..|s + pad| - 1] == s + pad[..|pad| - 1];
      TrimRightOfPadding(s, pad[..|pad| - 1]);
    } else {
      assert s + pad == s;
    }
  }

  /** A field of nothing but spaces trims to nothing. */
  lemma TrimRightOfBlanks(s: Bytes)
    requires forall i | 0 <= i < |s| :: s[i] == SPACE
    ensures TrimRight(s, SPACE) == []
  {
    TrimRightShape(s, SPACE);
  }

  // ---------------------------------------------------------------------------
  // The frame

  /** The body encodePacket writes: the common header when the payload needs one, the payload, the extra token. */
  function Body(payload: Payload, r: nat, oid: uint64, extraToken: Bytes): Bytes
    requires r < 3
  {
    (if payload.NeedsCommonHeader() then CommonHeader(r, oid) else []) + payload.Encode() + extraToken
  }

  /** The body on the wire: encrypted exactly when there is a crypto key and the body is not empty. */
  function WireBody(prim: Primitives, cryptoKey: Bytes, body: Bytes): (w: Bytes)
    ensures |cryptoKey| == 0 || |body| == 0 ==> w == body
    ensures |cryptoKey| != 0 && |body| != 0 ==> |w| > |body| && |w| % 16 == 0
  {
    if |cryptoKey| != 0 && |body| != 0 then Encrypted(prim, cryptoKey, body) else body
  }

  /** The 64-byte key field: the key right-aligned in spaces. */
  function KeyField(key: Bytes): (f: Bytes)
    requires |key| <= KeyWidth
    ensures |f| == KeyWidth && f[KeyWidth - |key|..] == key
    ensures forall i | 0 <= i < KeyWidth - |key| :: f[i] == SPACE
  {
    seq(KeyWidth - |key|, _ => SPACE) + key
  }

  /** What follows a frame's six-byte head: the key field, "%04s%03d" of status and opcode, the wire body. */
  function Rest(status: Bytes, op: nat, key: Bytes, wire: Bytes): Bytes
    requires |key| <= KeyWidth
  {
    KeyField(key) + PadLeft(status, 4, ZERO) + ZeroPad(op, 3) + wire
  }

  /** The whole frame: "S%05d" of the length of the rest, then the rest. */
  function Frame(status: Bytes, op: nat, key: Bytes, wire: Bytes): Bytes
    requires |key| <= KeyWidth
  {
    [FrameStart] + ZeroPad(FixedSize + |wire|, 5) + Rest(status, op, key, wire)
  }

  /** The head of a frame is 'S' and five digits announcing the length of the rest, which follows. */
  lemma FrameHead(status: Bytes, op: nat, key: Bytes, wire: Bytes)
    requires |key| <= KeyWidth && |status| == 4 && op < 1000 && FixedSize + |wire| < 100000
    ensures var f := Frame(status, op, key, wire);
      |f| == 77 + |wire| && f[0] == FrameStart && Atoi(f[1..6]) == Some(|f| - 6) &&
      f[6..] == Rest(status, op, key, wire)
  {
    var len := ZeroPad(FixedSize + |wire|, 5);
    assert Pow10(5) == 100000 by {
      assert Pow10(3) == 1000 by {
        assert Pow10(2) == 100;
      }
    }
    ZeroPadValue(FixedSize + |wire|, 5);
    AtoiOfZeroPad(FixedSize + |wire|, 5);
    RestLayout(status, op, key, wire);
    var f := Frame(status, op, key, wire);
    assert f[1..6] == len;
  }

  /** Where the fields of the rest of a frame lie: key field, status, opcode and body at fixed offsets. */
  lemma RestLayout(status: Bytes, op: nat, key: Bytes, wire: Bytes)
    requires |key| <= KeyWidth && |status| == 4 && op < 1000
    ensures var t := Rest(status, op, key, wire);
      |t| == FixedSize + |wire| && t[..64] == KeyField(key) && t[64..68] == status &&
      Atoi(t[68..71]) == Some(op) && t[71..] == wire
  {
    ThreeDigits(op);
    var st := PadLeft(status, 4, ZERO);
    assert st == status;
    var t := Rest(status, op, key, wire);
    assert t[..64] == KeyField(key);
    assert t[64..68] == status;
    assert t[68..71] == ZeroPad(op, 3);
    assert t[71..] == wire;
  }

  // ---------------------------------------------------------------------------
  // Decoding

  /** What decodePacket keeps of a reply: its status, the key it carried and the decoded payload. */
  datatype Reply = Reply(status: Bytes, sharedKey: Bytes, payload: Payload)

  /** The key a reply is decrypted with: its own key when it carries one, else the request's crypto key. */
  function DecryptionKey(replyKey: Bytes, cryptoKey: Bytes): (k: Bytes)
    ensures |replyKey| != 0 ==> k == replyKey
    ensures |replyKey| == 0 ==> k == cryptoKey
  {
    if |replyKey| != 0 then replyKey else cryptoKey
  }

  /**
   * decodePacket of the dataSize bytes after a reply's six-byte head: a reply shorter than
   * the fixed fields, a key field that is not hex once its trailing spaces are cut, or an
   * opcode that is not a number is an invalid packet; an opcode without a payload panics in
   * newPacket. The body is decrypted when the reply or the request has a key (a body that
   * is not whole blocks panics in CryptBlocks, an empty one on its last byte). A status
   * other than "0000" fails with the decrypted body as its message; otherwise the payload
   * of the opcode decodes the body.
   */
  function Decoded(prim: Primitives, lib: TextLib, data: Bytes, cryptoKey: Bytes): (r: Result<Reply, Error>)
    ensures |data| < FixedSize ==> r == Failure(InvalidPacket)
    ensures r.Success? ==>
      |data| >= FixedSize && r.value.status == StatusOK && data[64..68] == StatusOK &&
      Atoi(data[68..71]) == Some(r.value.payload.Opcode())
    ensures r.Failure? && r.error.ServerStatus? ==>
      |data| >= FixedSize && r.error.status == data[64..68] != StatusOK
  {
    if |data| < FixedSize then Failure(InvalidPacket)
    else
      var key := HexDecode(TrimRight(data[..64], SPACE));
      var op := Atoi(data[68..71]);
      if key.None? || op.None? then Failure(InvalidPacket)
      else if !IsWireOpcode(op.value) then Failure(Crash)
      else Opened(prim, lib, op.value, data[64..68], key.value, data[71..], cryptoKey)
  }

  /**
   * The second half of decodePacket, once the key field and the opcode have parsed: the
   * body is decrypted under the reply's key or else the crypto key, if either is non-empty;
   * then the status is checked and the body decoded.
   */
  function Opened(prim: Primitives, lib: TextLib, op: int, status: Bytes, key: Bytes, body: Bytes, cryptoKey: Bytes): (r: Result<Reply, Error>)
    requires IsWireOpcode(op)
    ensures r.Success? ==> r.value.status == StatusOK && r.value.payload.Opcode() == op
    ensures r.Failure? && r.error.ServerStatus? ==> r.error.status == status != StatusOK
  {
    var k := DecryptionKey(key, cryptoKey);
    if |k| != 0 && (|body| == 0 || |body| % 16 != 0) then Failure(Crash)
    else
      var plain := if |k| != 0 then Decrypted(prim, k, body) else body;
      if status != StatusOK then Failure(ServerStatus(status, lib.decodeEucKr(plain)))
      else
        match Payloads.Decode(lib, ForOpcode(op).value, plain)
        case Failure(e) => Failure(e)
        case Success(p) => Success(Reply(status, key, p))
  }

  /** The payload decode of a body, as decodePacket reports it for an unkeyed reply with status "0000". */
  function PayloadReply(lib: TextLib, op: int, body: Bytes): Result<Reply, Error>
    requires IsWireOpcode(op)
  {
    match Payloads.Decode(lib, ForOpcode(op).value, body)
    case Failure(e) => Failure(e)
    case Success(p) => Success(Reply(StatusOK, [], p))
  }

  /** A frame with no key, encoded without a crypto key, decodes to its own payload decoded from its body. */
  lemma PlainRoundTrip(prim: Primitives, lib: TextLib, op: int, body: Bytes)
    requires IsWireOpcode(op) && FixedSize + |body| < 100000
    ensures Decoded(prim, lib, Frame(StatusOK, op, [], body)[6..], []) == PayloadReply(lib, op, body)
  {
    WireOpcodes(op);
    FrameHead(StatusOK, op, [], body);
    UnkeyedFrame(prim, lib, op, body, []);
  }

  /**
   * A reply with no key, sealed under the request's crypto key, decodes to its payload
   * decoded from the body the server sealed, when that body is not a whole number of blocks;
   * a whole number of blocks comes back with a block of padding bytes still attached.
   */
  lemma SealedRoundTrip(prim: Primitives, lib: TextLib, op: int, cryptoKey: Bytes, body: Bytes)
    requires Inverts(prim.cipher) && IsWireOpcode(op)
    requires |cryptoKey| != 0 && |body| != 0
    ensures |body| % 16 != 0 ==>
      Decoded(prim, lib, Rest(StatusOK, op, [], WireBody(prim, cryptoKey, body)), cryptoKey) ==
      PayloadReply(lib, op, body)
    ensures |body| % 16 == 0 ==>
      Decoded(prim, lib, Rest(StatusOK, op, [], WireBody(prim, cryptoKey, body)), cryptoKey) ==
      PayloadReply(lib, op, body + seq(16, _ => 16))
  {
    var wire := WireBody(prim, cryptoKey, body);
    UnkeyedFrame(prim, lib, op, wire, cryptoKey);
    EncryptDecryptRoundTrip(prim, cryptoKey, body);
  }

  /** The unkeyed rest of a status-"0000" reply: decodePacket decrypts with the crypto key if any, then decodes. */
  lemma UnkeyedFrame(prim: Primitives, lib: TextLib, op: int, wire: Bytes, cryptoKey: Bytes)
    requires IsWireOpcode(op)
    requires |cryptoKey| != 0 ==> |wire| > 0 && |wire| % 16 == 0
    ensures Decoded(prim, lib, Rest(StatusOK, op, [], wire), cryptoKey) ==
      PayloadReply(lib, op, if |cryptoKey| != 0 then Decrypted(prim, cryptoKey, wire) else wire)
  {
    UnkeyedHead(prim, lib, op, wire, cryptoKey);
    OpenedUnkeyed(prim, lib, op, wire, cryptoKey);
  }

  /** An empty key field and a wire opcode parse, leaving the status "0000" and the wire body. */
  lemma UnkeyedHead(prim: Primitives, lib: TextLib, op: int, wire: Bytes, cryptoKey: Bytes)
    requires IsWireOpcode(op)
    ensures Decoded(prim, lib, Rest(StatusOK, op, [], wire), cryptoKey) ==
      Opened(prim, lib, op, StatusOK, [], wire, cryptoKey)
  {
    WireOpcodes(op);
    var data := Rest(StatusOK, op, [], wire);
    RestLayout(StatusOK, op, [], wire);
    TrimRightOfBlanks(KeyField([]));
    assert TrimRight(data[..64], SPACE) == [];
    assert HexDecode([]) == Some([]);
    ParsedHead(prim, lib, data, [], op, cryptoKey);
  }

  lemma OpenedUnkeyed(prim: Primitives, lib: TextLib, op: int, wire: Bytes, cryptoKey: Bytes)
    requires IsWireOpcode(op)
    requires |cryptoKey| != 0 ==> |wire| > 0 && |wire| % 16 == 0
    ensures Opened(prim, lib, op, StatusOK, [], wire, cryptoKey) ==
      PayloadReply(lib, op, if |cryptoKey| != 0 then Decrypted(prim, cryptoKey, wire) else wire)
  {
  }

  /** Once the key field and the opcode parse, decodePacket goes on with the rest of the reply. */
  lemma ParsedHead(prim: Primitives, lib: TextLib, data: Bytes, key: Bytes, op: int, cryptoKey: Bytes)
    requires |data| >= FixedSize && IsWireOpcode(op)
    requires HexDecode(TrimRight(data[..64], SPACE)) == Some(key) && Atoi(data[68..71]) == Some(op)
    ensures Decoded(prim, lib, data, cryptoKey) == Opened(prim, lib, op, data[64..68], key, data[71..], cryptoKey)
  {
  }

  /**
   * A key field that holds a non-empty key shorter than 64 hex digits is refused on the way
   * back: the spaces in front of it are not hex. encodePacket and decodePacket agree on the
   * key field only for no key or a full 64-digit key.
   */
  lemma ShortKeyRefused(prim: Primitives, lib: TextLib, status: Bytes, op: int, key: Bytes, wire: Bytes, cryptoKey: Bytes)
    requires 0 < |key| < KeyWidth && IsHexText(key)
    requires |status| == 4 && IsWireOpcode(op)
    ensures Decoded(prim, lib, Rest(status, op, key, wire), cryptoKey) == Failure(InvalidPacket)
  {
    WireOpcodes(op);
    var data := Rest(status, op, key, wire);
    RestLayout(status, op, key, wire);
    ShortKeyFieldNotHex(key);
    BadKeyFieldRefused(prim, lib, data, cryptoKey);
  }

  lemma ShortKeyFieldNotHex(key: Bytes)
    requires 0 < |key| < KeyWidth && IsHexText(key)
    ensures HexDecode(TrimRight(KeyField(key), SPACE)).None?
  {
    var field := KeyField(key);
    assert IsHexDigit(key[|key| - 1]);
    assert field[63] != SPACE;
    TrimRightShape(field, SPACE);
    var t := TrimRight(field, SPACE);
    assert |t| == 64;
    assert t[0] == SPACE;
    assert !IsHexText(t);
  }

  lemma BadKeyFieldRefused(prim: Primitives, lib: TextLib, data: Bytes, cryptoKey: Bytes)
    requires |data| >= FixedSize && HexDecode(TrimRight(data[..64], SPACE)).None?
    ensures Decoded(prim, lib, data, cryptoKey) == Failure(InvalidPacket)
  {
  }

  /** A numeric opcode field is required, and a number that names no payload panics in newPacket. */
  lemma OpcodeRefused(prim: Primitives, lib: TextLib, data: Bytes, cryptoKey: Bytes)
    requires |data| >= FixedSize && HexDecode(TrimRight(data[..64], SPACE)).Some?
    ensures Atoi(data[68..71]).None? ==> Decoded(prim, lib, data, cryptoKey) == Failure(InvalidPacket)
    ensures Atoi(data[68..71]).Some? && !IsWireOpcode(Atoi(data[68..71]).value) ==>
      Decoded(prim, lib, data, cryptoKey) == Failure(Crash)
  {
  }

  /**
   * A full 64-character hex key k in a frame's key field, as encodePacket writes the issue
   * key it also encrypts under, is read back by decodePacket as its 32-byte hex decoding,
   * and the body is decrypted under that, not under k.
   */
  lemma FullKeyDecodedAsBytes(k: Bytes, cryptoKey: Bytes)
    requires |k| == KeyWidth && IsHexText(k)
    ensures TrimRight(KeyField(k), SPACE) == k
    ensures HexDecode(k).Some? && |HexDecode(k).value| == 32
    ensures DecryptionKey(HexDecode(k).value, cryptoKey) == HexDecode(k).value != k
  {
    assert KeyField(k) == k;
    assert IsHexDigit(k[63]);
  }

  /** When a reply carries its own key, the request's crypto key plays no part in decoding it. */
  lemma ReplyKeyWins(prim: Primitives, lib: TextLib, data: Bytes, cryptoKey1: Bytes, cryptoKey2: Bytes)
    requires |data| >= FixedSize
    requires var key := HexDecode(TrimRight(data[..64], SPACE)); key.Some? && key.value != []
    ensures Decoded(prim, lib, data, cryptoKey1) == Decoded(prim, lib, data, cryptoKey2)
  {
  }

  /**
   * A reply whose key field decodes to non-empty bytes k is opened under k: a body that is
   * empty or not whole blocks panics, a status other than "0000" is a server error carrying
   * the decrypted text, and otherwise the payload is decoded from the decrypted body.
   */
  lemma KeyedReply(prim: Primitives, lib: TextLib, data: Bytes, cryptoKey: Bytes)
    requires |data| >= FixedSize
    requires HexDecode(TrimRight(data[..64], SPACE)).Some? && HexDecode(TrimRight(data[..64], SPACE)).value != []
    requires Atoi(data[68..71]).Some? && IsWireOpcode(Atoi(data[68..71]).value)
    ensures var k := HexDecode(TrimRight(data[..64], SPACE)).value;
      var op := Atoi(data[68..71]).value;
      var status := data[64..68];
      var body := data[71..];
      Decoded(prim, lib, data, cryptoKey) ==
        if |body| == 0 || |body| % 16 != 0 then Failure(Crash)
        else if status != StatusOK then Failure(ServerStatus(status, lib.decodeEucKr(Decrypted(prim, k, body))))
        else match Payloads.Decode(lib, ForOpcode(op).value, Decrypted(prim, k, body))
          case Failure(e) => Failure(e)
          case Success(p) => Success(Reply(status, k, p))
  {
    var k := HexDecode(TrimRight(data[..64], SPACE)).value;
    ParsedHead(prim, lib, data, k, Atoi(data[68..71]).value, cryptoKey);
  }

  // ---------------------------------------------------------------------------
  // The packet

  /** packet: a request being built, or a reply decodePacket built. */
  class Packet {
    var status: Bytes
    var payload: Payload
    var oid: uint64
    var sharedKey: Bytes
    var extraToken: Bytes

    /**
     * newPacket for an opcode that has a payload: status "0000", the zero payload of the
     * opcode, and for an issue request the fresh key newSharedKey returned (issueKey).
     */
    constructor (op: int, issueKey: Bytes)
      requires IsWireOpcode(op)
      ensures status == StatusOK && payload == ForOpcode(op).value && oid == 0
      ensures sharedKey == (if op == OpIssue then issueKey else []) && extraToken == []
    {
      status := StatusOK;
      payload := ForOpcode(op).value;
      oid := 0;
      sharedKey := [];
      extraToken := [];
      new;
      if op == OpIssue {
        SetEncryptionInfo(Some(issueKey), []);
      }
    }

    /** setEncryptionInfo: a given key replaces the key, a non-empty token sets the extra token. */
    method SetEncryptionInfo(key: Option<Bytes>, token: Bytes)
      modifies this
      ensures sharedKey == (if key.Some? then key.value else old(sharedKey))
      ensures extraToken == (if token != [] then TokenField(token) else old(extraToken))
      ensures status == old(status) && payload == old(payload) && oid == old(oid)
    {
      if key.Some? {
        sharedKey := key.value;
      }
      if token != [] {
        extraToken := TokenField(token);
      }
    }

    /**
     * getCryptoKey: no key without a shared key; the shared key itself without an extra
     * token; otherwise the SHA-1 of the hex-decoded shared key followed by the extra token.
     */
    function CryptoKey(sha1: Bytes -> Digest): (r: Bytes)
      reads this
      ensures r == [] <==> sharedKey == []
      ensures extraToken == [] ==> r == sharedKey
      ensures sharedKey != [] && extraToken != [] ==> |r| == 20
    {
      if |sharedKey| > 0 then
        if |extraToken| > 0 then sha1(HexDecodeLenient(sharedKey) + extraToken) else sharedKey
      else []
    }

    /**
     * With a shared key written as hex (in either case) and an extra token, the crypto key
     * is the SHA-1 of the key's bytes followed by the token field.
     */
    lemma CryptoKeyOfHexKey(sha1: Bytes -> Digest, k: Bytes, token: Bytes)
      requires k != [] && token != []
      requires HexDecode(sharedKey) == Some(k) && extraToken == TokenField(token)
      ensures CryptoKey(sha1) == sha1(k + TokenField(token))
    {
      HexDecodeLenientAgrees(sharedKey);
    }

    /** appendCommonHeader, writing to w; r is the number rand.Intn(3) drew. */
    method AppendCommonHeader(r: nat, w: Bytes) returns (out: Bytes)
      requires r < 3
      ensures out == w + CommonHeader(r, oid)
    {
      var id := oid;
      var field: Bytes;
      if id != 0 {
        field := PadRight(Digits(id), 11, SPACE);
      } else {
        field := PadRight([], 11, SPACE);
      }
      var model := PadRight(Handset(r), 16, SPACE);
      out := w + Carrier(r);
      out := out + field;
      AppendAssoc(w, Carrier(r), field);
      out := out + model;
      AppendAssoc(w, Carrier(r) + field, model);
      ghost var head := Carrier(r) + field + model;
      out := out + GA15;
      out := out + [ZERO, ZERO, ZERO, 0x32];
      AppendAssoc(w + head, GA15, [ZERO, ZERO, ZERO, 0x32]);
      out := out + [ZERO, ZERO, ZERO, ZERO];
      AppendAssoc(w + head, GA15 + [ZERO, ZERO, ZERO, 0x32], [ZERO, ZERO, ZERO, ZERO]);
      AppendAssoc(w, head, Trailer);
    }

    /** The body buffer of encodePacket: the common header if the payload needs one, the payload, the extra token. */
    method WriteBody(r: nat) returns (body: Bytes)
      requires r < 3
      ensures body == Body(payload, r, oid, extraToken)
    {
      body := [];
      if payload.NeedsCommonHeader() {
        body := AppendCommonHeader(r, body);
        assert body == CommonHeader(r, oid);
      }
      body := body + payload.Encode();
      body := body + extraToken;
    }
  }

  /**
   * encodePacket: the body is built, encrypted under cryptoKey when both are non-empty,
   * and framed behind the key field, the status and the opcode. A key longer than the
   * 64-byte field makes the copy panic, so the key must fit.
   */
  method EncodePacket(p: Packet, prim: Primitives, r: nat, cryptoKey: Bytes) returns (frame: Bytes)
    requires r < 3 && |p.sharedKey| <= KeyWidth
    ensures frame == Frame(p.status, p.payload.Opcode(), p.sharedKey, WireBody(prim, cryptoKey, Body(p.payload, r, p.oid, p.extraToken)))
  {
    var body := p.WriteBody(r);
    var wire := Seal(prim, cryptoKey, body);
    var keyField := FillKeyField(p.sharedKey);
    var bodyLen := |keyField| + 4 + 3 + |wire|;
    var op := p.payload.Opcode();
    frame := [FrameStart] + ZeroPad(bodyLen, 5) + (keyField + PadLeft(p.status, 4, ZERO) + ZeroPad(op, 3) + wire);
    FrameOfFields(p.status, op, p.sharedKey, keyField, wire);
  }

  lemma FrameOfFields(status: Bytes, op: nat, key: Bytes, keyField: Bytes, wire: Bytes)
    requires |key| <= KeyWidth && keyField == KeyField(key)
    ensures [FrameStart] + ZeroPad(|keyField| + 4 + 3 + |wire|, 5) + (keyField + PadLeft(status, 4, ZERO) + ZeroPad(op, 3) + wire)
      == Frame(status, op, key, wire)
  {
  }

  /** The encryption step of encodePacket. */
  method Seal(prim: Primitives, cryptoKey: Bytes, body: Bytes) returns (wire: Bytes)
    ensures wire == WireBody(prim, cryptoKey, body)
  {
    wire := body;
    if |cryptoKey| != 0 && |body| != 0 {
      wire := Encrypt(prim, cryptoKey, body);
    }
  }

  /** The key array of encodePacket: 64 spaces, then the key copied into the last |key| bytes. */
  method FillKeyField(key: Bytes) returns (field: Bytes)
    requires |key| <= KeyWidth
    ensures field == KeyField(key)
  {
    var a := new byte[KeyWidth];
    var i := 0;
    while i < KeyWidth
      invariant 0 <= i <= KeyWidth
      invariant forall j | 0 <= j < i :: a[j] == SPACE
    {
      a[i] := SPACE;
      i := i + 1;
    }
    var start := KeyWidth - |key|;
    var j := 0;
    while j < |key|
      invariant 0 <= j <= |key|
      invariant forall m | 0 <= m < start :: a[m] == SPACE
      invariant forall m | 0 <= m < j :: a[start + m] == key[m]
    {
      a[start + j] := key[j];
      j := j + 1;
    }
    field := a[..];
    assert field == KeyField(key);
  }

  /**
   * decodePacket, step by step: the result is a fresh packet holding the reply's status,
   * key and decoded payload exactly when the whole-reply decode succeeds, and its error
   * otherwise.
   */
  method DecodePacket(prim: Primitives, lib: TextLib, data: Bytes, cryptoKey: Bytes) returns (r: Result<Packet, Error>)
    ensures var d := Decoded(prim, lib, data, cryptoKey);
      (r.Failure? <==> d.Failure?) && (r.Failure? ==> r.error == d.error)
    ensures r.Success? ==> var d := Decoded(prim, lib, data, cryptoKey).value;
      fresh(r.value) && r.value.status == d.status && r.value.sharedKey == d.sharedKey &&
      r.value.payload == d.payload && r.value.oid == 0 && r.value.extraToken == []
  {
    if |data| < FixedSize {
      return Failure(InvalidPacket);
    }
    var key := HexDecode(TrimRight(data[..64], SPACE));
    if key.None? {
      return Failure(InvalidPacket);
    }
    var op := Atoi(data[68..71]);
    if op.None? {
      return Failure(InvalidPacket);
    }
    if !IsWireOpcode(op.value) {
      return Failure(Crash);
    }
    // newPacket's key for an issue packet is replaced at once, so any value serves here.
    var pnew := new Packet(op.value, []);
    pnew.status := data[64..68];
    pnew.sharedKey := key.value;
    var body := data[71..];
    if |pnew.sharedKey| != 0 || |cryptoKey| != 0 {
      var k := if |pnew.sharedKey| != 0 then pnew.sharedKey else cryptoKey;
      if |body| == 0 || |body| % 16 != 0 {
        return Failure(Crash);
      }
      body := Decrypt(prim, k, body);
    }
    if pnew.status != StatusOK {
      return Failure(ServerStatus(pnew.status, lib.decodeEucKr(body)));
    }
    var p := DecodePayload(lib, pnew.payload, body);
    if p.Failure? {
      return Failure(p.error);
    }
    pnew.payload := p.value;
    return Success(pnew);
  }
}
