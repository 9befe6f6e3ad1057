/**
 * The encryption envelope of a packet body: a key and an IV derived from the shared
 * key by iterated SHA-1, padding in the style of section 6.3 of RFC 5652, and CBC
 * (section 6.2 of NIST SP 800-38A) over the SEED block cipher of RFC 4269.
 *
 * SHA-1 and the SEED block function are parameters of the model: a SHA-1 is any
 * function returning 20 bytes, a block cipher any pair of functions on 16-byte blocks.
 * The one fact assumed of the cipher is that decryption undoes encryption under the
 * same key (`Inverts`), and it is a precondition of the lemmas that need it.
 */
module Crypto {
  import opened Text

  type Digest = d: Bytes | |d| == 20 witness seq(20, _ => 0)
  type Block = b: Bytes | |b| == 16 witness seq(16, _ => 0)

  /** The SEED block function: encrypt(key, block) and decrypt(key, block). */
  datatype BlockCipher = BlockCipher(encrypt: (Block, Block) -> Block, decrypt: (Block, Block) -> Block)

  /** The hash and the block cipher the client links against. */
  datatype Primitives = Primitives(sha1: Bytes -> Digest, cipher: BlockCipher)

  /** Per-block round trip: decrypting an encrypted block under the same key gives it back. */
  ghost predicate Inverts(c: BlockCipher)
  {
    forall key: Block, block: Block :: c.decrypt(key, c.encrypt(key, block)) == block
  }

  // ---------------------------------------------------------------------------
  // Key and IV derivation

  /** `n` applications of the hash to `x`. */
  function Rehash(sha1: Bytes -> Digest, x: Bytes, n: nat): (r: Bytes)
    ensures n > 0 ==> |r| == 20
  {
    if n == 0 then x else sha1(Rehash(sha1, x, n - 1))
  }

  /** The 20 bytes key and IV come from: SHA-1 applied five times to the shared key. */
  function KeyMaterial(sha1: Bytes -> Digest, sharedKey: Bytes): Digest
  {
    Rehash(sha1, sharedKey, 5)
  }

  function KeyOf(sha1: Bytes -> Digest, sharedKey: Bytes): Block
  {
    KeyMaterial(sha1, sharedKey)[..16]
  }

  function IvOf(sha1: Bytes -> Digest, sharedKey: Bytes): Block
  {
    sha1(KeyMaterial(sha1, sharedKey)[16..])[..16]
  }

  /** The key material is five nested hashes, not four; the IV hashes its last four bytes once more. */
  lemma {:induction false} DerivationIsFiveHashes(sha1: Bytes -> Digest, sharedKey: Bytes)
    ensures KeyMaterial(sha1, sharedKey) == sha1(sha1(sha1(sha1(sha1(sharedKey)))))
    ensures KeyOf(sha1, sharedKey) == sha1(sha1(sha1(sha1(sha1(sharedKey)))))[..16]
    ensures IvOf(sha1, sharedKey) == sha1(sha1(sha1(sha1(sha1(sha1(sharedKey)))))[16..20])[..16]
  {
    var r1 := Rehash(sha1, sharedKey, 1);
    var r2 := Rehash(sha1, sharedKey, 2);
    var r3 := Rehash(sha1, sharedKey, 3);
    var r4 := Rehash(sha1, sharedKey, 4);
    assert Rehash(sha1, sharedKey, 0) == sharedKey;
    assert r1 == sha1(sharedKey);
    assert r2 == sha1(r1);
    assert r3 == sha1(r2);
    assert r4 == sha1(r3);
    assert KeyMaterial(sha1, sharedKey) == sha1(r4);
    assert KeyMaterial(sha1, sharedKey)[16..] == KeyMaterial(sha1, sharedKey)[16..20];
  }

  /** Go's copy(dst, src) when dst is at least as long as src. */
  method CopyInto(dst: array<byte>, src: Bytes)
    requires |src| <= dst.Length
    modifies dst
    ensures dst[..|src|] == src
    ensures dst[|src|..] == old(dst[|src|..])
  {
    forall i | 0 <= i < |src| {
      dst[i] := src[i];
    }
  }

  /** Fills the first 16 bytes of `key` and `iv` from the shared key; a shorter buffer panics in the source. */
  method PopulateKeyAndIV(sha1: Bytes -> Digest, key: array<byte>, iv: array<byte>, sharedKey: Bytes)
    requires key.Length >= 16 && iv.Length >= 16 && key != iv
    modifies key, iv
    ensures key[..16] == KeyOf(sha1, sharedKey) && key[16..] == old(key[16..])
    ensures iv[..16] == IvOf(sha1, sharedKey) && iv[16..] == old(iv[16..])
  {
    var r := sha1(sharedKey);
    var i := 0;
    while i < 4
      invariant 0 <= i <= 4
      invariant r == Rehash(sha1, sharedKey, i + 1)
    {
      r := sha1(r);
      i := i + 1;
    }
    CopyInto(iv, sha1(r[16..])[..16]);
    CopyInto(key, r[..16]);
  }

  // ---------------------------------------------------------------------------
  // Padding

  /** Between 1 and 16 bytes, so that the padded length is a whole number of blocks. */
  function PadSize(n: nat): (p: nat)
    ensures 1 <= p <= 16 && (n + p) % 16 == 0
  {
    16 - n % 16
  }

  /** The plaintext followed by PadSize(|src|) copies of the byte PadSize(|src|). */
  function Padded(src: Bytes): (r: Bytes)
    ensures |r| == |src| + PadSize(|src|) && |r| % 16 == 0 && |r| > |src|
    ensures r[..|src|] == src
    ensures forall i | |src| <= i < |r| :: r[i] as int == PadSize(|src|)
  {
    src + seq(PadSize(|src|), _ => PadSize(|src|) as byte)
  }

  /** The last `pad` bytes of `d` all equal `pad`. */
  predicate EndsWithPad(d: Bytes, pad: nat)
    requires pad <= |d|
  {
    forall i | |d| - pad <= i < |d| :: d[i] as int == pad
  }

  /**
   * The lenient unpadding of decrypt: the last byte `pad` is removed together with the
   * `pad - 1` bytes before it only when it is below 16 and all of them equal it; any other
   * tail, a full block of 16s included, is left in place.
   */
  function Unpadded(d: Bytes): (r: Bytes)
    requires |d| > 0 && |d| % 16 == 0
  {
    var pad := d[|d| - 1] as int;
    if pad < 16 && EndsWithPad(d, pad) then d[..|d| - pad] else d
  }

  /** Unpadding keeps a prefix and removes at most 15 bytes. */
  lemma UnpaddedIsShortPrefix(d: Bytes)
    requires |d| > 0 && |d| % 16 == 0
    ensures |Unpadded(d)| <= |d| && |d| - |Unpadded(d)| <= 15
    ensures Unpadded(d) == d[..|Unpadded(d)|]
  {
  }

  /** Unpadding takes off exactly what padding put on, except for a whole block of padding. */
  lemma {:induction false} UnpadPadded(src: Bytes)
    ensures |src| % 16 != 0 ==> Unpadded(Padded(src)) == src
    ensures |src| % 16 == 0 ==> Unpadded(Padded(src)) == src + seq(16, _ => 16)
  {
    var d := Padded(src);
    var pad := PadSize(|src|);
    assert d[|d| - 1] as int == pad;
    if |src| % 16 != 0 {
      assert pad < 16;
      assert EndsWithPad(d, pad);
      assert d[..|d| - pad] == src;
    } else {
      assert d == src + seq(16, _ => 16);
    }
  }

  // ---------------------------------------------------------------------------
  // CBC

  /** A block boundary before the end of whole blocks leaves room for one more block. */
  lemma NextBlock(off: nat, n: nat)
    requires off % 16 == 0 && n % 16 == 0 && off < n
    ensures off + 16 <= n
  {
    var a, b := off / 16, n / 16;
    assert off == 16 * a && n == 16 * b;
  }

  function XorBlock(a: Block, b: Block): Block
  {
    seq(16, i requires 0 <= i < 16 => Xor(a[i], b[i]))
  }

  lemma XorBlockTwice(a: Block, b: Block)
    ensures XorBlock(XorBlock(a, b), b) == a
  {
    forall i | 0 <= i < 16
      ensures XorBlock(XorBlock(a, b), b)[i] == a[i]
    {
      XorTwice(a[i], b[i]);
    }
  }

  /** CBC encryption: each plaintext block is XORed with the previous ciphertext block (the IV first). */
  function CbcEncrypt(c: BlockCipher, key: Block, iv: Block, p: Bytes): (r: Bytes)
    requires |p| % 16 == 0
    ensures |r| == |p|
    decreases |p|
  {
    if |p| == 0 then []
    else
      var block := c.encrypt(key, XorBlock(p[..16], iv));
      block + CbcEncrypt(c, key, block, p[16..])
  }

  /** CBC decryption: each decrypted block is XORed with the previous ciphertext block (the IV first). */
  function CbcDecrypt(c: BlockCipher, key: Block, iv: Block, q: Bytes): (r: Bytes)
    requires |q| % 16 == 0
    ensures |r| == |q|
    decreases |q|
  {
    if |q| == 0 then []
    else XorBlock(c.decrypt(key, q[..16]), iv) + CbcDecrypt(c, key, q[..16], q[16..])
  }

  /** CBC decryption undoes CBC encryption under the same key and IV. */
  lemma {:induction false} CbcRoundTrip(c: BlockCipher, key: Block, iv: Block, p: Bytes)
    requires Inverts(c) && |p| % 16 == 0
    ensures CbcDecrypt(c, key, iv, CbcEncrypt(c, key, iv, p)) == p
    decreases |p|
  {
    if |p| > 0 {
      var block := c.encrypt(key, XorBlock(p[..16], iv));
      var q := CbcEncrypt(c, key, iv, p);
      assert q[..16] == block && q[16..] == CbcEncrypt(c, key, block, p[16..]);
      XorBlockTwice(p[..16], iv);
      CbcRoundTrip(c, key, block, p[16..]);
      assert p == p[..16] + p[16..];
    }
  }

  /** Unfolds CBC encryption at block boundary `off`. */
  lemma CbcEncryptStep(c: BlockCipher, key: Block, prev: Block, src: Bytes, off: nat)
    requires |src| % 16 == 0 && off % 16 == 0 && off < |src|
    ensures off + 16 <= |src|
    ensures CbcEncrypt(c, key, prev, src[off..])
         == c.encrypt(key, XorBlock(src[off..off + 16], prev))
            + CbcEncrypt(c, key, c.encrypt(key, XorBlock(src[off..off + 16], prev)), src[off + 16..])
  {
    NextBlock(off, |src|);
    var rest := src[off..];
    assert rest[..16] == src[off..off + 16] && rest[16..] == src[off + 16..];
  }

  /** Unfolds CBC decryption at block boundary `off`. */
  lemma CbcDecryptStep(c: BlockCipher, key: Block, prev: Block, src: Bytes, off: nat)
    requires |src| % 16 == 0 && off % 16 == 0 && off < |src|
    ensures off + 16 <= |src|
    ensures CbcDecrypt(c, key, prev, src[off..])
         == XorBlock(c.decrypt(key, src[off..off + 16]), prev) + CbcDecrypt(c, key, src[off..off + 16], src[off + 16..])
  {
    NextBlock(off, |src|);
    var rest := src[off..];
    assert rest[..16] == src[off..off + 16] && rest[16..] == src[off + 16..];
  }

  /** Writes one block into `dst` at `off`. */
  method WriteBlock(dst: array<byte>, off: nat, block: Block)
    requires off + 16 <= dst.Length
    modifies dst
    ensures dst[..off + 16] == old(dst[..off]) + block
  {
    forall j | 0 <= j < 16 {
      dst[off + j] := block[j];
    }
  }

  /** cipher.NewCBCEncrypter(...).CryptBlocks(dst, src): fills `dst` with the CBC encryption of `src`. */
  method CbcEncryptBlocks(c: BlockCipher, key: Block, iv: Block, dst: array<byte>, src: Bytes)
    requires |src| % 16 == 0 && dst.Length == |src|
    modifies dst
    ensures dst[..] == CbcEncrypt(c, key, iv, src)
  {
    var prev: Block := iv;
    var off := 0;
    while off < |src|
      invariant 0 <= off <= |src| && off % 16 == 0
      invariant dst[..off] + CbcEncrypt(c, key, prev, src[off..]) == CbcEncrypt(c, key, iv, src)
    {
      CbcEncryptStep(c, key, prev, src, off);
      var block := c.encrypt(key, XorBlock(src[off..off + 16], prev));
      WriteBlock(dst, off, block);
      prev := block;
      off := off + 16;
    }
    assert dst[..] == dst[..off];
  }

  /** cipher.NewCBCDecrypter(...).CryptBlocks(dst, src): fills `dst` with the CBC decryption of `src`. */
  method CbcDecryptBlocks(c: BlockCipher, key: Block, iv: Block, dst: array<byte>, src: Bytes)
    requires |src| % 16 == 0 && dst.Length == |src|
    modifies dst
    ensures dst[..] == CbcDecrypt(c, key, iv, src)
  {
    var prev: Block := iv;
    var off := 0;
    while off < |src|
      invariant 0 <= off <= |src| && off % 16 == 0
      invariant dst[..off] + CbcDecrypt(c, key, prev, src[off..]) == CbcDecrypt(c, key, iv, src)
    {
      CbcDecryptStep(c, key, prev, src, off);
      var current: Block := src[off..off + 16];
      var plain := XorBlock(c.decrypt(key, current), prev);
      ghost var done := dst[..off];
      ghost var rest := CbcDecrypt(c, key, current, src[off + 16..]);
      WriteBlock(dst, off, plain);
      AppendAssoc(done, plain, rest);
      prev := current;
      off := off + 16;
    }
    assert dst[..] == dst[..off];
  }

  // ---------------------------------------------------------------------------
  // encrypt and decrypt

  /** What encrypt returns: the CBC encryption of the padded plaintext under the derived key and IV. */
  function Encrypted(p: Primitives, sharedKey: Bytes, src: Bytes): (r: Bytes)
    ensures |r| == |src| + PadSize(|src|) && |r| % 16 == 0 && |r| > |src|
  {
    CbcEncrypt(p.cipher, KeyOf(p.sha1, sharedKey), IvOf(p.sha1, sharedKey), Padded(src))
  }

  /** What decrypt returns for whole, non-empty blocks: the unpadded CBC decryption. */
  function Decrypted(p: Primitives, sharedKey: Bytes, src: Bytes): (r: Bytes)
    requires |src| > 0 && |src| % 16 == 0
    ensures |r| <= |src| && |src| - |r| <= 15
  {
    var d := CbcDecrypt(p.cipher, KeyOf(p.sha1, sharedKey), IvOf(p.sha1, sharedKey), src);
    UnpaddedIsShortPrefix(d);
    Unpadded(d)
  }

  method Encrypt(p: Primitives, sharedKey: Bytes, src: Bytes) returns (dst: Bytes)
    ensures dst == Encrypted(p, sharedKey, src)
  {
    var key := new byte[16];
    var iv := new byte[16];
    PopulateKeyAndIV(p.sha1, key, iv, sharedKey);
    assert key[..] == key[..16] && iv[..] == iv[..16];
    var padSize := 16 - |src| % 16;
    var srcPadded := new byte[|src| + padSize];
    CopyInto(srcPadded, src);
    var i := srcPadded.Length - padSize;
    while i < srcPadded.Length
      invariant |src| <= i <= srcPadded.Length
      invariant srcPadded[..|src|] == src
      invariant forall j | |src| <= j < i :: srcPadded[j] as int == padSize
      modifies srcPadded
    {
      srcPadded[i] := padSize as byte;
      i := i + 1;
    }
    assert srcPadded[..] == Padded(src);
    assert key[..] == KeyOf(p.sha1, sharedKey) && iv[..] == IvOf(p.sha1, sharedKey);
    var out := new byte[srcPadded.Length];
    CbcEncryptBlocks(p.cipher, key[..], iv[..], out, srcPadded[..]);
    dst := out[..];
  }

  /** Decryption indexes the last byte and CBC needs whole blocks: the source panics on any other input. */
  method Decrypt(p: Primitives, sharedKey: Bytes, src: Bytes) returns (dst: Bytes)
    requires |src| > 0 && |src| % 16 == 0
    ensures dst == Decrypted(p, sharedKey, src)
  {
    var key := new byte[16];
    var iv := new byte[16];
    PopulateKeyAndIV(p.sha1, key, iv, sharedKey);
    assert key[..] == key[..16] && iv[..] == iv[..16];
    var out := new byte[|src|];
    CbcDecryptBlocks(p.cipher, key[..], iv[..], out, src);
    var n := out.Length;
    var pad := out[n - 1] as int;
    dst := out[..];
    if pad < 16 {
      var isPadded := true;
      var i := n - pad;
      while i < n
        invariant n - pad <= i <= n
        invariant isPadded && forall j | n - pad <= j < i :: out[j] as int == pad
      {
        if out[i] as int != pad {
          isPadded := false;
          break;
        }
        i := i + 1;
      }
      assert isPadded <==> EndsWithPad(out[..], pad);
      if isPadded {
        dst := out[..n - pad];
      }
    }
  }

  /**
   * decrypt(encrypt(P)) under the same shared key: P itself when its length is not a
   * multiple of 16, and P followed by a whole block of 16s otherwise, since that block of
   * padding is never removed.
   */
  lemma EncryptDecryptRoundTrip(p: Primitives, sharedKey: Bytes, src: Bytes)
    requires Inverts(p.cipher)
    ensures |src| % 16 != 0 ==> Decrypted(p, sharedKey, Encrypted(p, sharedKey, src)) == src
    ensures |src| % 16 == 0 ==> Decrypted(p, sharedKey, Encrypted(p, sharedKey, src)) == src + seq(16, _ => 16)
  {
    CbcRoundTrip(p.cipher, KeyOf(p.sha1, sharedKey), IvOf(p.sha1, sharedKey), Padded(src));
    UnpadPadded(src);
  }
}
