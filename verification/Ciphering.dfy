/** The encryption and decryption closures: PKCS#7 padding, CBC and a MAC over IV and ciphertext. */
module Ciphering {
  import opened Bytes
  import opened Buffers
  import opened NumberTheory
  import opened Curve

  const BLOCK := 16
  const MAC := 32

  type Block = s: seq<byte> | |s| == BLOCK witness seq(16, _ => 0)
  type Wide = s: seq<byte> | |s| == 64 witness seq(64, _ => 0)

  /** The primitives, as functions: SHA-512, HMAC-SHA-256 and the two directions of AES. */
  datatype Suite = Suite(
    sha512: seq<byte> -> Wide,
    hmac: (seq<byte>, seq<byte>) -> Digest,
    encrypt: (seq<byte>, Block) -> Block,
    decrypt: (seq<byte>, Block) -> Block)

  /** For every key, each direction of the block cipher undoes the other. */
  ghost predicate Permutes(c: Suite) {
    && (forall k, b :: c.decrypt(k, c.encrypt(k, b)) == b)
    && (forall k, b :: c.encrypt(k, c.decrypt(k, b)) == b)
  }

  datatype CipherError = InvalidMAC | InputTooShort | InvalidPadding

  datatype Opened = Plain(text: seq<byte>) | Refused(error: CipherError)

  // ----- exclusive or -----

  function XorBits(a: nat, b: nat, bits: nat): (r: nat)
    ensures r < Pow2(bits)
    decreases bits
  {
    if bits == 0 then 0 else 2 * XorBits(a / 2, b / 2, bits - 1) + (a % 2 + b % 2) % 2
  }

  function Xor(a: byte, b: byte): byte {
    assert Pow2(8) == 256 by { assert Pow2(4) == 16; }
    XorBits(a, b, 8)
  }

  lemma {:induction false} XorTwiceBits(a: nat, b: nat, bits: nat)
    requires a < Pow2(bits)
    ensures XorBits(XorBits(a, b, bits), b, bits) == a
    decreases bits
  {
    if bits > 0 {
      var h, bit := XorBits(a / 2, b / 2, bits - 1), (a % 2 + b % 2) % 2;
      assert XorBits(a, b, bits) == 2 * h + bit;
      HalfAndBit(h, bit);
      assert XorBits(2 * h + bit, b, bits) == 2 * XorBits(h, b / 2, bits - 1) + (bit + b % 2) % 2;
      hide XorBits;
      XorTwiceBits(a / 2, b / 2, bits - 1);
      FlipTwice(a % 2, b % 2);
    }
  }

  lemma HalfAndBit(h: nat, bit: nat)
    requires bit < 2
    ensures (2 * h + bit) / 2 == h && (2 * h + bit) % 2 == bit
  {
  }

  lemma FlipTwice(a: nat, b: nat)
    requires a < 2 && b < 2
    ensures ((a + b) % 2 + b) % 2 == a
  {
  }

  lemma XorTwice(a: byte, b: byte)
    ensures Xor(Xor(a, b), b) == a
  {
    assert Pow2(8) == 256 by { assert Pow2(4) == 16; }
    XorTwiceBits(a, b, 8);
  }

  function XorBlock(a: Block, b: Block): Block {
    seq(BLOCK, i requires 0 <= i < BLOCK => Xor(a[i], b[i]))
  }

  lemma XorBlockTwice(a: Block, b: Block)
    ensures XorBlock(XorBlock(a, b), b) == a
  {
    forall i | 0 <= i < BLOCK ensures XorBlock(XorBlock(a, b), b)[i] == a[i] {
      XorTwice(a[i], b[i]);
    }
  }

  // ----- CBC -----

  predicate WholeBlocks(s: seq<byte>) {
    |s| % BLOCK == 0
  }

  function CbcEncrypt(c: Suite, key: seq<byte>, iv: Block, s: seq<byte>): (r: seq<byte>)
    requires WholeBlocks(s)
    ensures |r| == |s|
    decreases |s|
  {
    if s == [] then []
    else
      var b := c.encrypt(key, XorBlock(s[..BLOCK], iv));
      b + CbcEncrypt(c, key, b, s[BLOCK..])
  }

  function CbcDecrypt(c: Suite, key: seq<byte>, iv: Block, s: seq<byte>): (r: seq<byte>)
    requires WholeBlocks(s)
    ensures |r| == |s|
    decreases |s|
  {
    if s == [] then []
    else XorBlock(c.decrypt(key, s[..BLOCK]), iv) + CbcDecrypt(c, key, s[..BLOCK], s[BLOCK..])
  }

  lemma {:induction false} CbcRoundTrip(c: Suite, key: seq<byte>, iv: Block, s: seq<byte>)
    requires WholeBlocks(s) && Permutes(c)
    ensures CbcDecrypt(c, key, iv, CbcEncrypt(c, key, iv, s)) == s
    decreases |s|
  {
    if s != [] {
      hide XorBlock, CbcDecrypt;
      var b := c.encrypt(key, XorBlock(s[..BLOCK], iv));
      var rest := CbcEncrypt(c, key, b, s[BLOCK..]);
      XorBlockTwice(s[..BLOCK], iv);
      CbcRoundTrip(c, key, b, s[BLOCK..]);
      DecryptFirst(c, key, iv, b, rest);
      assert s == s[..BLOCK] + s[BLOCK..];
    } else {
      assert CbcDecrypt(c, key, iv, []) == [];
    }
  }

  lemma DecryptFirst(c: Suite, key: seq<byte>, iv: Block, b: Block, rest: seq<byte>)
    requires WholeBlocks(rest)
    ensures CbcDecrypt(c, key, iv, b + rest) == XorBlock(c.decrypt(key, b), iv) + CbcDecrypt(c, key, b, rest)
  {
    assert (b + rest)[..BLOCK] == b && (b + rest)[BLOCK..] == rest;
  }

  lemma EncryptFirst(c: Suite, key: seq<byte>, iv: Block, b: Block, rest: seq<byte>)
    requires WholeBlocks(rest)
    ensures var e := c.encrypt(key, XorBlock(b, iv));
            CbcEncrypt(c, key, iv, b + rest) == e + CbcEncrypt(c, key, e, rest)
  {
    assert (b + rest)[..BLOCK] == b && (b + rest)[BLOCK..] == rest;
  }

  lemma {:induction false} CbcRoundTripBack(c: Suite, key: seq<byte>, iv: Block, s: seq<byte>)
    requires WholeBlocks(s) && Permutes(c)
    ensures CbcEncrypt(c, key, iv, CbcDecrypt(c, key, iv, s)) == s
    decreases |s|
  {
    if s != [] {
      hide XorBlock, CbcEncrypt;
      var d := c.decrypt(key, s[..BLOCK]);
      XorBlockTwice(d, iv);
      CbcRoundTripBack(c, key, s[..BLOCK], s[BLOCK..]);
      EncryptFirst(c, key, iv, XorBlock(d, iv), CbcDecrypt(c, key, s[..BLOCK], s[BLOCK..]));
      assert s == s[..BLOCK] + s[BLOCK..];
    } else {
      assert CbcEncrypt(c, key, iv, []) == [];
    }
  }

  lemma CbcEncryptsTo(c: Suite, key: seq<byte>, iv: Block, s: seq<byte>, e: seq<byte>)
    requires WholeBlocks(s) && WholeBlocks(e) && Permutes(c)
    ensures CbcEncrypt(c, key, iv, s) == e <==> CbcDecrypt(c, key, iv, e) == s
  {
    hide CbcEncrypt, CbcDecrypt;
    CbcRoundTrip(c, key, iv, s);
    CbcRoundTripBack(c, key, iv, e);
  }

  // ----- what chaining means, bit by bit and block by block -----

  /** Bit j of a byte, the lowest being bit 0. */
  predicate Bit(x: nat, j: nat)
    decreases j
  {
    if j == 0 then x % 2 == 1 else Bit(x / 2, j - 1)
  }

  lemma {:induction false} XorBitsDiffer(a: nat, b: nat, bits: nat, j: nat)
    requires j < bits
    ensures Bit(XorBits(a, b, bits), j) <==> Bit(a, j) != Bit(b, j)
    decreases bits
  {
    HalfAndBit(XorBits(a / 2, b / 2, bits - 1), (a % 2 + b % 2) % 2);
    if j > 0 {
      XorBitsDiffer(a / 2, b / 2, bits - 1, j - 1);
    }
  }

  /** x is a xor b: each bit is set exactly where those of a and b differ. */
  ghost predicate Differences(x: Block, a: Block, b: Block) {
    forall i, j :: 0 <= i < BLOCK && 0 <= j < 8 ==> (Bit(x[i], j) <==> Bit(a[i], j) != Bit(b[i], j))
  }

  lemma XorBlockDifferences(a: Block, b: Block)
    ensures Differences(XorBlock(a, b), a, b)
  {
    forall i, j | 0 <= i < BLOCK && 0 <= j < 8
      ensures Bit(XorBlock(a, b)[i], j) <==> Bit(a[i], j) != Bit(b[i], j)
    {
      XorBitsDiffer(a[i], b[i], 8, j);
    }
  }

  /** Block k of whole blocks. */
  function BlockOf(s: seq<byte>, k: nat): Block
    requires 16 * k + 16 <= |s|
  {
    s[16 * k..16 * k + 16]
  }

  lemma BlockOfNext(first: Block, rest: seq<byte>, k: nat)
    requires 16 * k + 16 <= |first + rest|
    ensures BlockOf(first + rest, k) == if k == 0 then first else BlockOf(rest, k - 1)
  {
  }

  /** Ciphertext block k is the cipher of plaintext block k xor ciphertext block k-1, the IV standing before
      the first. */
  lemma {:induction false} CbcEncryptChains(c: Suite, key: seq<byte>, iv: Block, s: seq<byte>, k: nat) returns (x: Block)
    requires WholeBlocks(s) && 16 * k + 16 <= |s|
    ensures var e := CbcEncrypt(c, key, iv, s);
            && BlockOf(e, k) == c.encrypt(key, x)
            && Differences(x, BlockOf(s, k), if k == 0 then iv else BlockOf(e, k - 1))
    decreases k
  {
    hide XorBlock, Differences, CbcEncrypt;
    var first, rest := BlockOf(s, 0), s[16..];
    assert s == first + rest;
    var b := c.encrypt(key, XorBlock(first, iv));
    var more := CbcEncrypt(c, key, b, rest);
    EncryptFirst(c, key, iv, first, rest);
    BlockOfNext(b, more, k);
    BlockOfNext(first, rest, k);
    if k == 0 {
      x := XorBlock(first, iv);
      XorBlockDifferences(first, iv);
    } else {
      BlockOfNext(b, more, k - 1);
      x := CbcEncryptChains(c, key, b, rest, k - 1);
    }
  }

  /** Decrypted block k is the deciphered block k xor ciphertext block k-1, the IV standing before the first. */
  lemma {:induction false} CbcDecryptChains(c: Suite, key: seq<byte>, iv: Block, s: seq<byte>, k: nat)
    requires WholeBlocks(s) && 16 * k + 16 <= |s|
    ensures Differences(BlockOf(CbcDecrypt(c, key, iv, s), k), c.decrypt(key, BlockOf(s, k)),
                        if k == 0 then iv else BlockOf(s, k - 1))
    decreases k
  {
    hide XorBlock, Differences, CbcDecrypt;
    var first, rest := BlockOf(s, 0), s[16..];
    assert s == first + rest;
    var d := XorBlock(c.decrypt(key, first), iv);
    DecryptFirst(c, key, iv, first, rest);
    BlockOfNext(d, CbcDecrypt(c, key, first, rest), k);
    BlockOfNext(first, rest, k);
    if k == 0 {
      XorBlockDifferences(c.decrypt(key, first), iv);
    } else {
      BlockOfNext(first, rest, k - 1);
      CbcDecryptChains(c, key, first, rest, k - 1);
    }
  }

  // ----- padding -----

  function Repeat(b: byte, n: nat): (s: seq<byte>)
    ensures |s| == n
  {
    seq(n, _ => b)
  }

  /** addPKCSPadding */
  function Pad(src: seq<byte>): (r: seq<byte>)
    ensures WholeBlocks(r) && |r| == BLOCK * (|src| / BLOCK + 1)
  {
    var padding := BLOCK - |src| % BLOCK;
    src + Repeat(padding, padding)
  }

  /** removePKCSPadding looks at the last byte and the length only. */
  function Unpad(src: seq<byte>): Opened
    requires src != []
  {
    var padLength := src[|src| - 1];
    if padLength > BLOCK || |src| < BLOCK then Refused(InvalidPadding)
    else Plain(src[..|src| - padLength])
  }

  /** The padded text is the text, then between 1 and 16 bytes up to a multiple of 16, each of them their number. */
  lemma PadForm(p: seq<byte>)
    ensures var r := Pad(p);
            var n := |r| - |p|;
            && 1 <= n <= 16 && |r| % 16 == 0 && r[..|p|] == p
            && forall i :: |p| <= i < |r| ==> r[i] == n
  {
  }

  lemma UnpadPad(p: seq<byte>)
    ensures Unpad(Pad(p)) == Plain(p)
  {
    var padding := BLOCK - |p| % BLOCK;
    assert Pad(p)[|Pad(p)| - 1] == padding;
    assert Pad(p)[..|p|] == p;
  }

  /** The padding is what the encryption closure would have written. */
  predicate WellPadded(s: seq<byte>)
    requires s != []
  {
    var n := s[|s| - 1];
    1 <= n <= BLOCK && n <= |s| && s[|s| - n..] == Repeat(n, n)
  }

  lemma PadUnpad(s: seq<byte>)
    requires s != [] && WholeBlocks(s) && Unpad(s).Plain?
    ensures Pad(Unpad(s).text) == s <==> WellPadded(s)
  {
    var n, p := s[|s| - 1], Unpad(s).text;
    var padding := BLOCK - |p| % BLOCK;
    assert s == p + s[|s| - n..];
    if 1 <= n {
      PadLength(|s|, n);
    }
    if Pad(p) == s {
      assert |Pad(p)| == |p| + n;
      assert s[|s| - n..] == Repeat(padding, padding);
    }
  }

  lemma PadLength(length: nat, n: nat)
    requires length % BLOCK == 0 && 1 <= n <= BLOCK && n <= length
    ensures BLOCK - (length - n) % BLOCK == n
  {
  }

  // ----- the two closures as functions -----

  /** IV, ciphertext and MAC. */
  function Seal(c: Suite, key: seq<byte>, iv: Block, plaintext: seq<byte>): seq<byte> {
    var derived := c.sha512(key);
    var body := iv + CbcEncrypt(c, derived[..32], iv, Pad(plaintext));
    body + c.hmac(derived[32..], body)
  }

  function Open(c: Suite, key: seq<byte>, text: seq<byte>): Opened {
    if |text| < BLOCK + BLOCK + MAC then Refused(InputTooShort)
    else if (|text| - BLOCK - MAC) % BLOCK != 0 then Refused(InvalidPadding)
    else
      var derived, end := c.sha512(key), |text| - MAC;
      if text[end..] != c.hmac(derived[32..], text[..end]) then Refused(InvalidMAC)
      else Unpad(CbcDecrypt(c, derived[..32], text[..BLOCK], text[BLOCK..end]))
  }

  /** A sealed text is the IV, the ciphertext of the padded plaintext under the first half of the key's
      SHA-512, and the HMAC of both under the second half. */
  lemma SealForm(c: Suite, key: seq<byte>, iv: Block, plaintext: seq<byte>)
    ensures var text, derived := Seal(c, key, iv, plaintext), c.sha512(key);
            var end := |text| - 32;
            && end >= 32 && text[..16] == iv
            && text[16..end] == CbcEncrypt(c, derived[0..32], iv, Pad(plaintext))
            && text[end..] == c.hmac(derived[32..64], text[..end])
  {
    hide Pad, CbcEncrypt;
    var derived := c.sha512(key);
    var e := CbcEncrypt(c, derived[..32], iv, Pad(plaintext));
    assert derived[0..32] == derived[..32] && derived[32..64] == derived[32..];
    Middle(iv, e, c.hmac(derived[32..], iv + e));
    TextParts(Seal(c, key, iv, plaintext));
  }

  /** Which texts the decryption closure accepts, and what it refuses the others for. */
  lemma OpenVerdicts(c: Suite, key: seq<byte>, text: seq<byte>)
    ensures Open(c, key, text) == Refused(InputTooShort) <==> |text| < 64
    ensures |text| >= 64 && |text| % 16 != 0 ==> Open(c, key, text) == Refused(InvalidPadding)
    ensures |text| >= 64 ==>
              var derived, end := c.sha512(key), |text| - 32;
              var genuine := text[end..] == c.hmac(derived[32..64], text[..end]);
              && (Open(c, key, text) == Refused(InvalidMAC) <==> |text| % 16 == 0 && !genuine)
              && (|text| % 16 == 0 ==>
                    var s := CbcDecrypt(c, derived[0..32], text[..16], text[16..end]);
                    && s != []
                    && (Open(c, key, text).Plain? <==> genuine && s[|s| - 1] <= 16)
                    && (Open(c, key, text).Plain? ==> Open(c, key, text).text == s[..|s| - s[|s| - 1]]))
    ensures Open(c, key, text) in {Refused(InputTooShort), Refused(InvalidMAC), Refused(InvalidPadding)}
            || Open(c, key, text).Plain?
  {
    hide CbcDecrypt;
    var derived := c.sha512(key);
    assert derived[0..32] == derived[..32] && derived[32..64] == derived[32..];
  }

  /** The decryption closure takes what the encryption closure wrote, for every key, IV and plaintext. */
  lemma OpenSeal(c: Suite, key: seq<byte>, iv: Block, plaintext: seq<byte>)
    requires Permutes(c)
    ensures Open(c, key, Seal(c, key, iv, plaintext)) == Plain(plaintext)
    ensures |Seal(c, key, iv, plaintext)| == BLOCK + BLOCK * (|plaintext| / BLOCK + 1) + MAC
  {
    hide Pad, Unpad, CbcEncrypt, CbcDecrypt;
    var derived, text := c.sha512(key), Seal(c, key, iv, plaintext);
    var body := CbcEncrypt(c, derived[..32], iv, Pad(plaintext));
    var end := |text| - MAC;
    assert text[..end] == iv + body && text[..BLOCK] == iv && text[BLOCK..end] == body;
    CbcRoundTrip(c, derived[..32], iv, Pad(plaintext));
    UnpadPad(plaintext);
  }

  /** What the closure decrypts from an accepted text, before the padding is removed. */
  function Padded(c: Suite, key: seq<byte>, text: seq<byte>): (s: seq<byte>)
    requires |text| >= BLOCK + BLOCK + MAC && (|text| - BLOCK - MAC) % BLOCK == 0
    ensures s != [] && WholeBlocks(s)
  {
    CbcDecrypt(c, c.sha512(key)[..32], text[..BLOCK], text[BLOCK..|text| - MAC])
  }

  /** Only the last padding byte is checked, so an accepted text need not be one the encryption closure
      writes: it is - with the same key and IV - exactly when all of its padding is well formed. */
  lemma SealOpen(c: Suite, key: seq<byte>, text: seq<byte>)
    requires Permutes(c)
    ensures Open(c, key, text).Plain? ==>
              (Seal(c, key, text[..BLOCK], Open(c, key, text).text) == text <==> WellPadded(Padded(c, key, text)))
  {
    if Open(c, key, text).Plain? {
      hide Pad, Unpad, CbcEncrypt, CbcDecrypt, WellPadded;
      var derived, iv, end := c.sha512(key), text[..BLOCK], |text| - MAC;
      var padded := Pad(Open(c, key, text).text);
      var e := CbcEncrypt(c, derived[..32], iv, padded);
      PadUnpad(Padded(c, key, text));
      CbcEncryptsTo(c, derived[..32], iv, padded, text[BLOCK..end]);
      Middle(iv, e, c.hmac(derived[32..], iv + e));
      TextParts(text);
    }
  }

  /** The decryption closure does accept texts that the encryption closure never writes: under every key and
      IV, this one, whose padding byte is 0. */
  lemma AcceptedUnsealed(c: Suite, key: seq<byte>, iv: Block) returns (text: seq<byte>)
    requires Permutes(c)
    ensures Open(c, key, text) == Plain(Repeat(0, BLOCK)) && text[..BLOCK] == iv
    ensures !WellPadded(Padded(c, key, text))
    ensures Seal(c, key, iv, Repeat(0, BLOCK)) != text
  {
    hide CbcEncrypt, CbcDecrypt, Pad;
    var derived, zeros := c.sha512(key), Repeat(0, BLOCK);
    var e := CbcEncrypt(c, derived[..32], iv, zeros);
    var mac := c.hmac(derived[32..], iv + e);
    text := iv + e + mac;
    Middle(iv, e, mac);
    assert text[..|text| - MAC] == iv + e && text[|text| - MAC..] == mac && text[..BLOCK] == iv;
    CbcRoundTrip(c, derived[..32], iv, zeros);
    assert zeros[..|zeros| - 0] == zeros;
    SealOpen(c, key, text);
  }

  lemma TextParts(text: seq<byte>)
    requires |text| >= BLOCK + MAC
    ensures var end := |text| - MAC;
            text[..end] == text[..BLOCK] + text[BLOCK..end] && text == text[..end] + text[end..]
  {
  }

  lemma Middle(iv: Block, e: seq<byte>, mac: Digest)
    ensures var t := iv + e + mac; t[BLOCK..|t| - MAC] == e
  {
  }

  /** A sealed text with any other MAC is refused for its MAC, whatever the rest of it holds. */
  lemma OtherMacRefused(c: Suite, key: seq<byte>, iv: Block, plaintext: seq<byte>, mac: Digest)
    ensures var text := Seal(c, key, iv, plaintext);
            text[|text| - MAC..] != mac ==> Open(c, key, text[..|text| - MAC] + mac) == Refused(InvalidMAC)
  {
    hide Pad, Unpad, CbcEncrypt, CbcDecrypt;
    var derived, text := c.sha512(key), Seal(c, key, iv, plaintext);
    var body := iv + CbcEncrypt(c, derived[..32], iv, Pad(plaintext));
    assert text[..|text| - MAC] == body && text[|text| - MAC..] == c.hmac(derived[32..], body);
    assert (body + mac)[..|body|] == body && (body + mac)[|body|..] == mac;
  }

  // ----- the closures as code -----

  /** cipher.NewCBCEncrypter(...).CryptBlocks into dst[at..] */
  method CryptBlocks(c: Suite, key: seq<byte>, iv: Block, src: seq<byte>, dst: array<byte>, at: nat)
    requires WholeBlocks(src) && at + |src| <= dst.Length
    modifies dst
    ensures dst[..] == Patched(old(dst[..]), at, CbcEncrypt(c, key, iv, src))
  {
    hide Patched, XorBlock;
    ghost var s, goal := dst[..], CbcEncrypt(c, key, iv, src);
    ghost var done: seq<byte> := [];
    var last: Block := iv;
    var i := 0;
    PatchNothing(s, at);
    assert src[0..] == src && goal == [] + goal;
    while i < |src|
      invariant i <= |src| && i % BLOCK == 0 && |done| == i
      invariant goal == done + CbcEncrypt(c, key, last, src[i..])
      invariant dst[..] == Patched(s, at, done)
    {
      last := BlockStep(c, key, last, src, i, done);
      PatchMore(s, at, done, last);
      var _ := CopyInto(dst, at + i, last);
      done := done + last;
      i := i + BLOCK;
    }
    assert src[i..] == [] && done + [] == done;
  }

  method BlockStep(c: Suite, key: seq<byte>, last: Block, src: seq<byte>, i: nat, ghost done: seq<byte>)
    returns (next: Block)
    requires WholeBlocks(src) && i < |src| && i % BLOCK == 0
    ensures i + BLOCK <= |src|
    ensures done + CbcEncrypt(c, key, last, src[i..]) == (done + next) + CbcEncrypt(c, key, next, src[i + BLOCK..])
  {
    hide XorBlock;
    assert i + BLOCK <= |src| by { NextBlock(i, |src|); }
    next := c.encrypt(key, XorBlock(src[i..i + BLOCK], last));
    assert src[i..] == src[i..i + BLOCK] + src[i + BLOCK..];
    EncryptFirst(c, key, last, src[i..i + BLOCK], src[i + BLOCK..]);
  }

  lemma NextBlock(i: nat, n: nat)
    requires i % BLOCK == 0 && n % BLOCK == 0 && i < n
    ensures i + BLOCK <= n
  {
  }

  lemma PatchMore(s: seq<byte>, at: nat, a: seq<byte>, b: seq<byte>)
    requires at + |a + b| <= |s|
    ensures Patched(Patched(s, at, a), at + |a|, b) == Patched(s, at, a + b)
  {
  }

  class EncryptClosure {
    const c: Suite
    const iv: Block           // what the closure reads from the random source
    var input: seq<byte>      // what is left to read
    var output: seq<byte>

    constructor (c: Suite, input: seq<byte>, iv: Block)
      ensures this.c == c && this.input == input && this.iv == iv && output == []
    {
      this.c, this.input, this.iv, this.output := c, input, iv, [];
    }

    method Run(key: seq<byte>)
      modifies this
      ensures input == [] && output == old(output) + Seal(c, key, iv, old(input))
    {
      hide Patched, CbcEncrypt, Pad;
      var derivedKey := c.sha512(key);
      var plaintext := input;
      input := [];
      var paddedIn := Pad(plaintext);
      var text := new byte[BLOCK + |paddedIn| + MAC];
      ghost var s := text[..];
      PatchNothing(s, 0);
      PatchJoin(s, [], iv);
      var _ := CopyInto(text, 0, iv);
      ghost var body := CbcEncrypt(c, derivedKey[..32], iv, paddedIn);
      PatchJoin(s, iv, body);
      CryptBlocks(c, derivedKey[..32], iv, paddedIn, text, BLOCK);
      assert [] + iv == iv;
      PatchedFront(s, iv + body);
      var mac := c.hmac(derivedKey[32..], text[..text.Length - MAC]);
      PatchJoin(s, iv + body, mac);
      var _ := CopyInto(text, text.Length - MAC, mac);
      PatchAll(s, iv + body + mac);
      output := output + text[..];
    }
  }

  lemma PatchedFront(s: seq<byte>, t: seq<byte>)
    requires |t| <= |s|
    ensures Patched(s, 0, t)[..|t|] == t
  {
  }

  class DecryptClosure {
    const c: Suite
    var input: seq<byte>      // what is left to read
    var output: seq<byte>

    constructor (c: Suite, input: seq<byte>)
      ensures this.c == c && this.input == input && output == []
    {
      this.c, this.input, this.output := c, input, [];
    }

    method Run(key: seq<byte>) returns (error: Option<CipherError>)
      modifies this
      ensures input == []
      ensures match Open(c, key, old(input))
              case Plain(p) => error == None && output == old(output) + p
              case Refused(e) => error == Some(e) && output == old(output)
    {
      hide Unpad, CbcDecrypt;
      var text := input;
      input := [];
      if |text| < BLOCK + BLOCK + MAC {
        return Some(InputTooShort);
      }
      if (|text| - BLOCK - MAC) % BLOCK != 0 {
        return Some(InvalidPadding);
      }
      var derivedKey, end := c.sha512(key), |text| - MAC;
      if text[end..] != c.hmac(derivedKey[32..], text[..end]) {
        return Some(InvalidMAC);
      }
      var paddedOut := CbcDecrypt(c, derivedKey[..32], text[..BLOCK], text[BLOCK..end]);
      match Unpad(paddedOut)
      case Refused(e) =>
        return Some(e);
      case Plain(p) =>
        output := output + p;
        return None;
    }
  }
}
