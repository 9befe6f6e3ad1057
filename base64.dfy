/**
 * The standard base64 alphabet with '=' padding (encoding/base64.StdEncoding, section 4
 * of RFC 4648): how the persisted account record stores the seed.
 */
module Base64 {
  import opened Wrappers
  import opened Text

  const PAD: byte := 0x3D
  const CR: byte := 0x0D
  const LF: byte := 0x0A

  type sextet = x: int | 0 <= x < 64

  /** The 6-bit value of an alphabet byte. */
  function Sextet(c: byte): Option<sextet>
  {
    if 0x41 <= c <= 0x5A then Some(c as int - 0x41)
    else if 0x61 <= c <= 0x7A then Some(c as int - 0x61 + 26)
    else if 0x30 <= c <= 0x39 then Some(c as int - 0x30 + 52)
    else if c == 0x2B then Some(62)
    else if c == 0x2F then Some(63)
    else None
  }

  /** The alphabet byte of a 6-bit value. */
  function Letter(v: sextet): (c: byte)
    ensures Sextet(c) == Some(v)
    ensures c != PAD && c != CR && c != LF
  {
    if v < 26 then (0x41 + v) as byte
    else if v < 52 then (0x61 + v - 26) as byte
    else if v < 62 then (0x30 + v - 52) as byte
    else if v == 62 then 0x2B
    else 0x2F
  }

  predicate NoNewlines(s: Bytes)
  {
    forall i | 0 <= i < |s| :: s[i] != CR && s[i] != LF
  }

  /** StdEncoding.EncodeToString: four alphabet bytes per three input bytes, '=' padding at the end. */
  function Encode(b: Bytes): (r: Bytes)
    ensures |r| == 4 * ((|b| + 2) / 3)
    ensures NoNewlines(r)
    decreases |b|
  {
    if |b| == 0 then []
    else if |b| == 1 then
      [Letter(b[0] as int / 4), Letter(b[0] as int % 4 * 16), PAD, PAD]
    else if |b| == 2 then
      [Letter(b[0] as int / 4), Letter(b[0] as int % 4 * 16 + b[1] as int / 16), Letter(b[1] as int % 16 * 4), PAD]
    else
      Quantum(b[0], b[1], b[2]) + Encode(b[3..])
  }

  /** The four alphabet bytes of three data bytes. */
  function Quantum(b0: byte, b1: byte, b2: byte): (q: Bytes)
    ensures |q| == 4 && NoNewlines(q)
  {
    [Letter(b0 as int / 4), Letter(b0 as int % 4 * 16 + b1 as int / 16),
     Letter(b1 as int % 16 * 4 + b2 as int / 64), Letter(b2 as int % 64)]
  }

  /** The decoder skips '\r' and '\n' wherever they occur. */
  function StripNewlines(s: Bytes): (r: Bytes)
    ensures NoNewlines(r)
  {
    if s == [] then []
    else if s[0] == CR || s[0] == LF then StripNewlines(s[1..])
    else [s[0]] + StripNewlines(s[1..])
  }

  /** The first, second and third data byte carried by the sextets of one quantum. */
  function Byte0(s0: sextet, s1: sextet): byte
  {
    (s0 * 4 + s1 / 16) as byte
  }

  function Byte1(s1: sextet, s2: sextet): byte
  {
    (s1 % 16 * 16 + s2 / 4) as byte
  }

  function Byte2(s2: sextet, s3: sextet): byte
  {
    (s2 % 4 * 64 + s3) as byte
  }

  /** Four alphabet bytes: three data bytes. */
  function DecodeFull(q: Bytes): Option<Bytes>
    requires |q| == 4
  {
    if Sextet(q[0]).None? || Sextet(q[1]).None? || Sextet(q[2]).None? || Sextet(q[3]).None? then None
    else
      var s0, s1, s2, s3 := Sextet(q[0]).value, Sextet(q[1]).value, Sextet(q[2]).value, Sextet(q[3]).value;
      Some([Byte0(s0, s1), Byte1(s1, s2), Byte2(s2, s3)])
  }

  /**
   * The last quantum may also be "xxx=" (two bytes) or "xx==" (one byte). Bits below the
   * last data byte are ignored: StdEncoding is not Strict.
   */
  function DecodeFinal(q: Bytes): Option<Bytes>
    requires |q| == 4
  {
    if q[3] != PAD then DecodeFull(q)
    else if Sextet(q[0]).None? || Sextet(q[1]).None? then None
    else
      var s0, s1 := Sextet(q[0]).value, Sextet(q[1]).value;
      if q[2] == PAD then Some([Byte0(s0, s1)])
      else if Sextet(q[2]).Some? then Some([Byte0(s0, s1), Byte1(s1, Sextet(q[2]).value)])
      else None
  }

  function DecodeQuanta(s: Bytes): Option<Bytes>
    decreases |s|
  {
    if |s| == 0 then Some([])
    else if |s| < 4 then None
    else if |s| == 4 then DecodeFinal(s)
    else
      match DecodeFull(s[..4])
      case None => None
      case Some(head) =>
        match DecodeQuanta(s[4..])
        case None => None
        case Some(tail) => Some(head + tail)
  }

  /**
   * StdEncoding.DecodeString: after dropping newlines the input is whole quanta of
   * alphabet bytes, of which only the last may carry '=' padding.
   */
  function Decode(s: Bytes): Option<Bytes>
  {
    DecodeQuanta(StripNewlines(s))
  }

  lemma {:induction false} StripNewlinesNone(s: Bytes)
    requires NoNewlines(s)
    ensures StripNewlines(s) == s
  {
    if s != [] {
      StripNewlinesNone(s[1..]);
    }
  }

  lemma SplitFirst(b0: int, b1: int)
    requires 0 <= b0 < 256 && 0 <= b1 < 256
    ensures (b0 / 4) * 4 + (b0 % 4 * 16 + b1 / 16) / 16 == b0
    ensures (b0 % 4 * 16 + b1 / 16) % 16 * 16 + (b1 % 16 * 4 + 0) / 4 == b1
  {
  }

  lemma SplitLast(b1: int, b2: int)
    requires 0 <= b1 < 256 && 0 <= b2 < 256
    ensures (b1 % 16 * 4 + b2 / 64) / 4 == b1 % 16
    ensures (b1 % 16 * 4 + b2 / 64) % 4 * 64 + b2 % 64 == b2
  {
  }

  lemma DecodeOne(b: byte)
    ensures DecodeFinal(Encode([b])) == Some([b])
  {
    var s0, s1 := b as int / 4, b as int % 4 * 16;
    SplitFirst(b as int, 0);
    assert Encode([b]) == [Letter(s0), Letter(s1), PAD, PAD];
    assert Byte0(s0, s1) == b;
  }

  lemma DecodeTwo(b0: byte, b1: byte)
    ensures DecodeFinal(Encode([b0, b1])) == Some([b0, b1])
  {
    var s0, s1, s2 := b0 as int / 4, b0 as int % 4 * 16 + b1 as int / 16, b1 as int % 16 * 4;
    SplitFirst(b0 as int, b1 as int);
    assert Encode([b0, b1]) == [Letter(s0), Letter(s1), Letter(s2), PAD];
    assert Byte0(s0, s1) == b0;
    assert Byte1(s1, s2) == b1;
  }

  lemma DecodeQuantum(b0: byte, b1: byte, b2: byte)
    ensures DecodeFull(Quantum(b0, b1, b2)) == Some([b0, b1, b2])
  {
    var s0, s1 := b0 as int / 4, b0 as int % 4 * 16 + b1 as int / 16;
    var s2, s3 := b1 as int % 16 * 4 + b2 as int / 64, b2 as int % 64;
    SplitFirst(b0 as int, b1 as int);
    SplitLast(b1 as int, b2 as int);
    assert Byte0(s0, s1) == b0;
    assert Byte1(s1, s2) == b1;
    assert Byte2(s2, s3) == b2;
  }

  lemma EncodeHead(b: Bytes)
    requires |b| >= 3
    ensures Encode(b)[..4] == Quantum(b[0], b[1], b[2])
  {
    var q := Quantum(b[0], b[1], b[2]);
    assert Encode(b) == q + Encode(b[3..]);
  }

  lemma DecodeThree(b: Bytes)
    requires |b| >= 3
    ensures DecodeFull(Encode(b)[..4]) == Some(b[..3])
  {
    EncodeHead(b);
    DecodeQuantum(b[0], b[1], b[2]);
    FirstThree(b);
  }

  lemma FirstThree(b: Bytes)
    requires |b| >= 3
    ensures b[..3] == [b[0], b[1], b[2]]
  {
  }

  /** Decoding the encoding of any byte string gives it back (the account's seed survives GetAccount then New). */
  lemma {:induction false} RoundTrip(b: Bytes)
    ensures Decode(Encode(b)) == Some(b)
  {
    StripNewlinesNone(Encode(b));
    QuantaRoundTrip(b);
  }

  lemma {:induction false} QuantaRoundTrip(b: Bytes)
    ensures DecodeQuanta(Encode(b)) == Some(b)
    decreases |b|
  {
    var e := Encode(b);
    if |b| == 1 {
      DecodeOne(b[0]);
      assert [b[0]] == b;
    } else if |b| == 2 {
      DecodeTwo(b[0], b[1]);
      assert [b[0], b[1]] == b;
    } else if |b| == 3 {
      DecodeThree(b);
      assert e == e[..4];
      assert b[..3] == b;
    } else if |b| > 3 {
      DecodeThree(b);
      assert e[4..] == Encode(b[3..]);
      QuantaRoundTrip(b[3..]);
      assert b == b[..3] + b[3..];
    }
  }
}
