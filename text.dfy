/**
 * Byte strings and the pieces of Go's strconv, strings, fmt, encoding/hex and
 * encoding/binary that the client applies to them. A Go string is a byte string,
 * so both the `string` and the `[]byte` values of the client are `Bytes` here.
 */
module Text {
  import opened Wrappers

  newtype byte = x: int | 0 <= x < 256
  type Bytes = seq<byte>
  type uint32 = x: int | 0 <= x < 0x1_0000_0000
  type uint64 = x: int | 0 <= x < 0x1_0000_0000_0000_0000

  const SPACE: byte := 0x20
  const PLUS: byte := 0x2B
  const DASH: byte := 0x2D
  const ZERO: byte := 0x30
  const PIPE: byte := 0x7C


  function Pow2(n: nat): (p: nat)
    ensures p >= 1
  {
    if n == 0 then 1 else 2 * Pow2(n - 1)
  }

  /** The bitwise exclusive or of the low `width` bits of a and b, lowest bit first. */
  function XorLow(a: nat, b: nat, width: nat): (r: nat)
    ensures r < Pow2(width)
  {
    if width == 0 then 0
    else 2 * XorLow(a / 2, b / 2, width - 1) + (if a % 2 == b % 2 then 0 else 1)
  }

  /** Go's `^` on two bytes. */
  function Xor(a: byte, b: byte): byte
  {
    assert Pow2(8) == 256;
    XorLow(a as nat, b as nat, 8) as byte
  }

  lemma {:induction false} XorLowTwice(a: nat, b: nat, width: nat)
    requires a < Pow2(width)
    ensures XorLow(XorLow(a, b, width), b, width) == a
  {
    if width > 0 {
      var x := XorLow(a, b, width);
      assert x / 2 == XorLow(a / 2, b / 2, width - 1) && x % 2 == (if a % 2 == b % 2 then 0 else 1);
      XorLowTwice(a / 2, b / 2, width - 1);
    }
  }

  /** XOR with the same byte twice is the identity (what makes CBC invertible). */
  lemma XorTwice(a: byte, b: byte)
    ensures Xor(Xor(a, b), b) == a
  {
    assert Pow2(8) == 256;
    XorLowTwice(a as nat, b as nat, 8);
  }

  // ---------------------------------------------------------------------------
  // Powers, big-endian integers (encoding/binary and the shift loops of the client)

  function Pow256(n: nat): (p: nat)
    ensures p >= 1
  {
    if n == 0 then 1 else 256 * Pow256(n - 1)
  }

  function Pow10(n: nat): (p: nat)
    ensures p >= 1
  {
    if n == 0 then 1 else 10 * Pow10(n - 1)
  }

  /** Eleven decimal digits hold every 32-bit value, signed or not. */
  lemma ElevenDigits()
    ensures Pow10(11) == 100_000_000_000
  {
    assert Pow10(3) == 1000 by {
      assert Pow10(2) == 100;
    }
    assert Pow10(6) == 1_000_000 by {
      assert Pow10(5) == 100_000;
    }
    assert Pow10(9) == 1_000_000_000 by {
      assert Pow10(8) == 100_000_000;
    }
    assert Pow10(10) == 10_000_000_000;
  }

  /** The n-byte big-endian encoding of the low 8n bits of x. */
  function BigEndian(n: nat, x: nat): (r: Bytes)
    ensures |r| == n
  {
    if n == 0 then [] else BigEndian(n - 1, x / 256) + [(x % 256) as byte]
  }

  /** The unsigned integer a big-endian byte string denotes (binary.BigEndian.Uint32 for 4 bytes). */
  function BigEndianValue(s: Bytes): nat
  {
    if s == [] then 0 else BigEndianValue(s[..|s| - 1]) * 256 + s[|s| - 1] as int
  }

  lemma {:induction false} BigEndianValueBound(s: Bytes)
    ensures BigEndianValue(s) < Pow256(|s|)
  {
    if s != [] {
      BigEndianValueBound(s[..|s| - 1]);
    }
  }

  /** Decoding the encoding gives back every value that fits in n bytes. */
  lemma {:induction false} BigEndianRoundTrip(n: nat, x: nat)
    requires x < Pow256(n)
    ensures BigEndianValue(BigEndian(n, x)) == x
  {
    if n > 0 {
      var r := BigEndian(n, x);
      assert r[..n - 1] == BigEndian(n - 1, x / 256);
      BigEndianRoundTrip(n - 1, x / 256);
    }
  }

  /** A value that fits in m bytes has n - m leading zero bytes in its n-byte encoding. */
  lemma {:induction false} BigEndianLeadingZeros(n: nat, m: nat, x: nat)
    requires m <= n && x < Pow256(m)
    ensures forall i | 0 <= i < n - m :: BigEndian(n, x)[i] == 0
  {
    if n > m {
      if m == 0 {
        BigEndianLeadingZeros(n - 1, 0, x / 256);
      } else {
        BigEndianLeadingZeros(n - 1, m - 1, x / 256);
      }
    }
  }

  // ---------------------------------------------------------------------------
  // Decimal digits (strconv.FormatUint, %d, %0Nd, strconv.ParseUint, ParseInt, Atoi)

  predicate IsDigit(b: byte)
  {
    0x30 <= b <= 0x39
  }

  predicate AllDigits(s: Bytes)
  {
    forall i | 0 <= i < |s| :: IsDigit(s[i])
  }

  /** The decimal digits of n without leading zeros, as %d and strconv.FormatUint print them. */
  function Digits(n: nat): (r: Bytes)
    ensures 1 <= |r| && AllDigits(r)
    decreases n
  {
    if n < 10 then [(0x30 + n) as byte] else Digits(n / 10) + [(0x30 + n % 10) as byte]
  }

  /** The value of a string of decimal digits. */
  function DigitsValue(s: Bytes): nat
    requires AllDigits(s)
  {
    if s == [] then 0 else DigitsValue(s[..|s| - 1]) * 10 + (s[|s| - 1] - 0x30) as int
  }

  lemma {:induction false} DigitsRoundTrip(n: nat)
    ensures DigitsValue(Digits(n)) == n
  {
    if n >= 10 {
      var d := Digits(n);
      assert d[..|d| - 1] == Digits(n / 10);
      DigitsRoundTrip(n / 10);
    }
  }

  /** A number below 10^k prints in at most k digits. */
  lemma {:induction false} DigitsLength(n: nat, k: nat)
    requires 1 <= k && n < Pow10(k)
    ensures |Digits(n)| <= k
  {
    if n >= 10 {
      DigitsLength(n / 10, k - 1);
    }
  }

  function PadLeft(s: Bytes, width: nat, fill: byte): (r: Bytes)
    ensures |r| == if |s| < width then width else |s|
    ensures r[|r| - |s|..] == s
    ensures forall i | 0 <= i < |r| - |s| :: r[i] == fill
  {
    if |s| < width then seq(width - |s|, _ => fill) + s else s
  }

  /** Appending is associative; building a buffer piece by piece regroups with it. */
  lemma AppendAssoc(a: Bytes, b: Bytes, c: Bytes)
    ensures a + b + c == a + (b + c)
  {
  }

  function PadRight(s: Bytes, width: nat, fill: byte): (r: Bytes)
    ensures |r| == if |s| < width then width else |s|
    ensures r[..|s|] == s
    ensures forall i | |s| <= i < |r| :: r[i] == fill
  {
    if |s| < width then s + seq(width - |s|, _ => fill) else s
  }

  /** %0<width>d of a non-negative number. */
  function ZeroPad(n: nat, width: nat): Bytes
  {
    PadLeft(Digits(n), width, ZERO)
  }

  lemma {:induction false} DigitsValueLeadingZeros(z: Bytes, s: Bytes)
    requires forall i | 0 <= i < |z| :: z[i] == ZERO
    requires AllDigits(s)
    ensures AllDigits(z + s) && DigitsValue(z + s) == DigitsValue(s)
  {
    if s == [] {
      if z != [] {
        assert (z + s)[..|z| - 1] == z[..|z| - 1] + [];
        DigitsValueLeadingZeros(z[..|z| - 1], []);
      }
    } else {
      assert (z + s)[..|z + s| - 1] == z + s[..|s| - 1];
      DigitsValueLeadingZeros(z, s[..|s| - 1]);
    }
  }

  /** A zero-padded field holds the number it was printed from, and is exactly `width` wide when it fits. */
  lemma ZeroPadValue(n: nat, width: nat)
    ensures AllDigits(ZeroPad(n, width)) && DigitsValue(ZeroPad(n, width)) == n
    ensures 1 <= width && n < Pow10(width) ==> |ZeroPad(n, width)| == width
  {
    var d := Digits(n);
    var p := ZeroPad(n, width);
    assert p == p[..|p| - |d|] + d;
    DigitsRoundTrip(n);
    DigitsValueLeadingZeros(p[..|p| - |d|], d);
    if 1 <= width && n < Pow10(width) {
      DigitsLength(n, width);
    }
  }

  /** strconv.ParseUint(s, 10, 64): one or more decimal digits, no sign, value below 2^64. */
  function ParseUint64(s: Bytes): (r: Option<uint64>)
  {
    if |s| > 0 && AllDigits(s) && DigitsValue(s) < 0x1_0000_0000_0000_0000 then Some(DigitsValue(s)) else None
  }

  /** ParseUint64 reads back every 64-bit value that strconv.FormatUint or %0Nd printed. */
  lemma ParseUint64OfZeroPad(n: uint64, width: nat)
    ensures ParseUint64(ZeroPad(n, width)) == Some(n)
  {
    ZeroPadValue(n, width);
  }

  /**
   * strconv.ParseInt(s, 10, bitSize): an optional sign, one or more decimal digits and a
   * value in the signed range of bitSize bits. strconv.Atoi is bitSize 64.
   */
  function ParseInt(s: Bytes, bitSize: nat): (r: Option<int>)
    requires bitSize == 32 || bitSize == 64
    ensures r.Some? ==> |s| > 0
    ensures r.Some? && bitSize == 32 ==> -0x8000_0000 <= r.value < 0x8000_0000
  {
    var cutoff := if bitSize == 32 then 0x8000_0000 else 0x8000_0000_0000_0000;
    var signed := |s| > 0 && (s[0] == DASH || s[0] == PLUS);
    var digits := if signed then s[1..] else s;
    if |digits| == 0 || !AllDigits(digits) then None
    else
      var magnitude: int := DigitsValue(digits);
      if signed && s[0] == DASH then
        (if magnitude <= cutoff then Some(-magnitude) else None)
      else
        (if magnitude < cutoff then Some(magnitude) else None)
  }

  function Atoi(s: Bytes): Option<int>
  {
    ParseInt(s, 64)
  }

  /** Atoi of a zero-padded field gives back the number printed into it. */
  lemma AtoiOfZeroPad(n: nat, width: nat)
    requires n < 0x8000_0000_0000_0000
    ensures Atoi(ZeroPad(n, width)) == Some(n)
  {
    ZeroPadValue(n, width);
    ParseIntOfDigits(ZeroPad(n, width), 64);
  }

  lemma ParseIntOfDigits(s: Bytes, bitSize: nat)
    requires bitSize == 32 || bitSize == 64
    requires |s| > 0 && AllDigits(s)
    requires DigitsValue(s) < (if bitSize == 32 then 0x8000_0000 else 0x8000_0000_0000_0000)
    ensures ParseInt(s, bitSize) == Some(DigitsValue(s))
  {
    assert IsDigit(s[0]);
    assert !(s[0] == DASH || s[0] == PLUS);
  }

  /**
   * Signed text: after a minus sign a magnitude up to 2^(bitSize-1) reads as its negation,
   * after a plus sign or no sign a magnitude below 2^(bitSize-1) reads as itself, and a
   * larger magnitude is out of range.
   */
  lemma ParseIntOfSigned(s: Bytes, bitSize: nat)
    requires bitSize == 32 || bitSize == 64
    requires |s| > 0 && AllDigits(s)
    ensures var limit: int := if bitSize == 32 then 0x8000_0000 else 0x8000_0000_0000_0000;
      var m: int := DigitsValue(s);
      ParseInt([DASH] + s, bitSize) == (if m <= limit then Some(-m) else None)
    ensures var limit: int := if bitSize == 32 then 0x8000_0000 else 0x8000_0000_0000_0000;
      var m: int := DigitsValue(s);
      ParseInt([PLUS] + s, bitSize) == (if m < limit then Some(m) else None)
    ensures var limit: int := if bitSize == 32 then 0x8000_0000 else 0x8000_0000_0000_0000;
      var m: int := DigitsValue(s);
      ParseInt(s, bitSize) == (if m < limit then Some(m) else None)
  {
    var minus := [DASH] + s;
    var plus := [PLUS] + s;
    assert minus[0] == DASH && minus[1..] == s;
    assert plus[0] == PLUS && plus[1..] == s;
    assert IsDigit(s[0]);
    assert !(s[0] == DASH || s[0] == PLUS);
  }

  /** Only those three forms parse: digits, optionally after one sign; nothing else. */
  lemma ParseIntForms(s: Bytes, bitSize: nat)
    requires bitSize == 32 || bitSize == 64
    requires ParseInt(s, bitSize).Some?
    ensures (|s| > 0 && AllDigits(s)) ||
      (|s| > 1 && (s[0] == DASH || s[0] == PLUS) && AllDigits(s[1..]))
  {
  }

  // ---------------------------------------------------------------------------
  // Hexadecimal (encoding/hex)

  function HexDigitValue(b: byte): Option<nat>
  {
    if 0x30 <= b <= 0x39 then Some(b as int - 0x30)
    else if 0x61 <= b <= 0x66 then Some(b as int - 0x61 + 10)
    else if 0x41 <= b <= 0x46 then Some(b as int - 0x41 + 10)
    else None
  }

  predicate IsHexDigit(b: byte)
  {
    HexDigitValue(b).Some?
  }

  predicate IsHexText(s: Bytes)
  {
    forall i | 0 <= i < |s| :: IsHexDigit(s[i])
  }

  function HexPair(hi: byte, lo: byte): byte
    requires IsHexDigit(hi) && IsHexDigit(lo)
  {
    (HexDigitValue(hi).value * 16 + HexDigitValue(lo).value) as byte
  }

  /** hex.DecodeString: fails on an odd length or on any byte that is not a hex digit. */
  function HexDecode(s: Bytes): (r: Option<Bytes>)
    ensures r.Some? <==> |s| % 2 == 0 && IsHexText(s)
    ensures r.Some? ==> |r.value| == |s| / 2
    decreases |s|
  {
    if |s| == 0 then Some([])
    else if |s| == 1 || !IsHexDigit(s[0]) || !IsHexDigit(s[1]) then None
    else
      match HexDecode(s[2..])
      case None =>
        assert !IsHexText(s[2..]) || |s[2..]| % 2 == 1;
        None
      case Some(rest) => Some([HexPair(s[0], s[1])] + rest)
  }

  /**
   * hex.Decode into a zeroed buffer of |s|/2 bytes with its error ignored: the pairs
   * before the first bad one are decoded, the rest of the buffer stays zero.
   */
  function HexDecodeLenient(s: Bytes): (r: Bytes)
    ensures |r| == |s| / 2
    decreases |s|
  {
    if |s| < 2 then []
    else if IsHexDigit(s[0]) && IsHexDigit(s[1]) then [HexPair(s[0], s[1])] + HexDecodeLenient(s[2..])
    else seq(|s| / 2, _ => 0)
  }

  /** On valid hex text the lenient decoder agrees with hex.DecodeString. */
  lemma {:induction false} HexDecodeLenientAgrees(s: Bytes)
    requires HexDecode(s).Some?
    ensures HexDecodeLenient(s) == HexDecode(s).value
    decreases |s|
  {
    if |s| >= 2 {
      HexDecodeLenientAgrees(s[2..]);
    }
  }

  function HexDigit(v: nat): byte
    requires v < 16
  {
    if v < 10 then (0x30 + v) as byte else (0x61 + v - 10) as byte
  }

  /** hex.EncodeToString: two lower-case hex digits per byte. */
  function HexEncode(b: Bytes): (r: Bytes)
    ensures |r| == 2 * |b| && IsHexText(r)
  {
    if b == [] then [] else [HexDigit(b[0] as int / 16), HexDigit(b[0] as int % 16)] + HexEncode(b[1..])
  }

  lemma {:induction false} HexRoundTrip(b: Bytes)
    ensures HexDecode(HexEncode(b)) == Some(b)
  {
    if b != [] {
      var e := HexEncode(b);
      var hi, lo := b[0] as int / 16, b[0] as int % 16;
      assert e[0] == HexDigit(hi) && e[1] == HexDigit(lo);
      assert HexDigitValue(HexDigit(hi)) == Some(hi);
      assert HexDigitValue(HexDigit(lo)) == Some(lo);
      assert HexPair(e[0], e[1]) == b[0];
      assert e[2..] == HexEncode(b[1..]);
      HexRoundTrip(b[1..]);
      assert HexDecode(e) == Some([HexPair(e[0], e[1])] + HexDecode(e[2..]).value);
      assert b == [b[0]] + b[1..];
    }
  }

  // ---------------------------------------------------------------------------
  // Trimming (strings.TrimRight with a one-byte cut set, strings.TrimSpace)

  /** ASCII white space as unicode.IsSpace sees it: \t \n \v \f \r and space. */
  predicate IsSpace(b: byte)
  {
    b == SPACE || 0x09 <= b <= 0x0D
  }

  /** strings.TrimRight(s, string(cut)). */
  function TrimRight(s: Bytes, cut: byte): (r: Bytes)
    ensures |r| <= |s|
  {
    if s == [] || s[|s| - 1] != cut then s else TrimRight(s[..|s| - 1], cut)
  }

  /** TrimRight keeps a prefix that does not end in the cut byte and drops only cut bytes. */
  lemma {:induction false} TrimRightShape(s: Bytes, cut: byte)
    ensures var r := TrimRight(s, cut);
      r == s[..|r|] && (r == [] || r[|r| - 1] != cut) && forall i | |r| <= i < |s| :: s[i] == cut
  {
    if s != [] && s[|s| - 1] == cut {
      TrimRightShape(s[..|s| - 1], cut);
    }
  }

  function TrimTrailingSpace(s: Bytes): (r: Bytes)
    ensures |r| <= |s|
  {
    if s == [] || !IsSpace(s[|s| - 1]) then s else TrimTrailingSpace(s[..|s| - 1])
  }

  lemma {:induction false} TrimTrailingSpaceShape(s: Bytes)
    ensures var r := TrimTrailingSpace(s);
      r == s[..|r|] && (r == [] || !IsSpace(r[|r| - 1])) && forall i | |r| <= i < |s| :: IsSpace(s[i])
  {
    if s != [] && IsSpace(s[|s| - 1]) {
      TrimTrailingSpaceShape(s[..|s| - 1]);
    }
  }

  function TrimLeadingSpace(s: Bytes): (r: Bytes)
    ensures |r| <= |s|
  {
    if s == [] || !IsSpace(s[0]) then s else TrimLeadingSpace(s[1..])
  }

  lemma {:induction false} TrimLeadingSpaceShape(s: Bytes)
    ensures var r := TrimLeadingSpace(s);
      r == s[|s| - |r|..] && (r == [] || !IsSpace(r[0])) && forall i | 0 <= i < |s| - |r| :: IsSpace(s[i])
  {
    if s != [] && IsSpace(s[0]) {
      TrimLeadingSpaceShape(s[1..]);
    }
  }

  /** strings.TrimSpace restricted to ASCII white space. */
  function TrimSpace(s: Bytes): (r: Bytes)
    ensures |r| <= |s| && Trimmed(r)
  {
    var u := TrimTrailingSpace(s);
    var r := TrimLeadingSpace(u);
    TrimTrailingSpaceShape(s);
    TrimLeadingSpaceShape(u);
    assert r != [] ==> r[|r| - 1] == u[|u| - 1];
    r
  }

  /**
   * TrimSpace keeps one contiguous run of s, starting after the leading white space, and
   * everything it drops on either side is white space.
   */
  lemma TrimSpaceShape(s: Bytes)
    ensures var r := TrimSpace(s);
      var i := |TrimTrailingSpace(s)| - |r|;
      0 <= i && i + |r| <= |s| && r == s[i..i + |r|] &&
      (forall k | 0 <= k < i :: IsSpace(s[k])) && (forall k | i + |r| <= k < |s| :: IsSpace(s[k]))
  {
    var u := TrimTrailingSpace(s);
    TrimTrailingSpaceShape(s);
    TrimLeadingSpaceShape(u);
    var r := TrimSpace(s);
    var i := |u| - |r|;
    assert r == u[i..];
    assert u[i..] == s[i..|u|];
    forall k | 0 <= k < i
      ensures IsSpace(s[k])
    {
      assert s[k] == u[k];
    }
  }

  predicate Trimmed(s: Bytes)
  {
    s == [] || (!IsSpace(s[0]) && !IsSpace(s[|s| - 1]))
  }

  lemma {:induction false} TrimTrailingSpaceOfPadding(s: Bytes, pad: Bytes)
    requires s == [] || !IsSpace(s[|s| - 1])
    requires forall i | 0 <= i < |pad| :: pad[i] == SPACE
    ensures TrimTrailingSpace(s + pad) == s
    decreases |pad|
  {
    if pad != [] {
      assert (s + pad)[..|s + pad| - 1] == s + pad[..|pad| - 1];
      TrimTrailingSpaceOfPadding(s, pad[..|pad| - 1]);
    }
  }

  /** TrimSpace undoes right-justification with spaces of a trimmed text. */
  lemma TrimSpaceOfPadRight(s: Bytes, width: nat)
    requires Trimmed(s)
    ensures TrimSpace(PadRight(s, width, SPACE)) == s
  {
    var p := PadRight(s, width, SPACE);
    assert p == s + p[|s|..];
    TrimTrailingSpaceOfPadding(s, p[|s|..]);
  }

  // ---------------------------------------------------------------------------
  // Splitting on a one-byte separator (strings.Split)

  function Count(s: Bytes, b: byte): nat
  {
    if s == [] then 0 else (if s[0] == b then 1 else 0) + Count(s[1..], b)
  }

  /** strings.Split(s, string(sep)): the pieces between separators, one more than separators. */
  function Split(s: Bytes, sep: byte): (r: seq<Bytes>)
    ensures |r| == Count(s, sep) + 1
    ensures forall i | 0 <= i < |r| :: sep !in r[i]
  {
    if s == [] then [[]]
    else
      var rest := Split(s[1..], sep);
      if s[0] == sep then [[]] + rest else [[s[0]] + rest[0]] + rest[1..]
  }

  /** strings.Join(parts, string(sep)). */
  function Join(parts: seq<Bytes>, sep: byte): Bytes
    requires |parts| > 0
  {
    if |parts| == 1 then parts[0] else parts[0] + [sep] + Join(parts[1..], sep)
  }

  lemma {:induction false} JoinSplit(s: Bytes, sep: byte)
    ensures Join(Split(s, sep), sep) == s
  {
    if s != [] {
      var rest := Split(s[1..], sep);
      JoinSplit(s[1..], sep);
      if s[0] != sep {
        var r := Split(s, sep);
        if |rest| > 1 {
          assert r[1..] == rest[1..];
        }
      }
    }
  }
}
