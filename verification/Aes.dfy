/** AES in CBC mode with PKCS#7 padding: the meaning of `wally_aes_cbc` in src/aes.c,
    after section 6.2 of NIST SP 800-38A and section 6.3 of RFC 5652. */
module Aes {
  import opened Common
  import opened Words

  const BLOCK_LEN: nat := 16

  type Block = b: Bytes | |b| == BLOCK_LEN witness Zeros(BLOCK_LEN)

  /** The block cipher: encryption and decryption of one block under a key. */
  datatype Cipher = Cipher(enc: (Bytes, Block) -> Block, dec: (Bytes, Block) -> Block)

  /** Under every key the two are inverse. */
  ghost predicate Lawful(c: Cipher) {
    && (forall k: Bytes, b: Block :: c.dec(k, c.enc(k, b)) == b)
    && (forall k: Bytes, b: Block :: c.enc(k, c.dec(k, b)) == b)
  }

  predicate ValidKeyLen(n: nat) {
    n == 16 || n == 24 || n == 32
  }

  // ----- exclusive or

  lemma EightBits()
    ensures Pow(2, 8) == 256
  {
  }

  function XorByte(a: Byte, b: Byte): Byte {
    var w := Xor(Bits(a, 8), Bits(b, 8));
    FromBitsBound(w);
    EightBits();
    FromBits(w)
  }

  lemma XorByteTwice(a: Byte, b: Byte)
    ensures XorByte(XorByte(a, b), b) == a
  {
    EightBits();
    var w := Xor(Bits(a, 8), Bits(b, 8));
    BitsFromBits(w);
    assert Xor(w, Bits(b, 8)) == Bits(a, 8);
    FromBitsBits(a, 8);
  }

  lemma XorCommutes(a: Byte, b: Byte)
    ensures XorByte(a, b) == XorByte(b, a)
  {
    assert Xor(Bits(a, 8), Bits(b, 8)) == Xor(Bits(b, 8), Bits(a, 8));
  }

  function XorBlock(a: Block, b: Block): (x: Block)
    ensures forall i :: 0 <= i < BLOCK_LEN ==> x[i] == XorByte(a[i], b[i])
  {
    seq(BLOCK_LEN, i requires 0 <= i < BLOCK_LEN => XorByte(a[i], b[i]))
  }

  lemma XorBlockTwice(a: Block, b: Block)
    ensures XorBlock(XorBlock(a, b), b) == a
  {
    forall i | 0 <= i < BLOCK_LEN ensures XorBlock(XorBlock(a, b), b)[i] == a[i] {
      XorByteTwice(a[i], b[i]);
    }
  }

  // ----- chaining

  predicate Whole(x: Bytes) {
    |x| % BLOCK_LEN == 0
  }

  lemma WholeRest(x: Bytes)
    requires Whole(x) && x != []
    ensures |x| >= BLOCK_LEN && Whole(x[BLOCK_LEN..])
  {
  }

  function EncBlocks(c: Cipher, key: Bytes, iv: Block, x: Bytes): (y: Bytes)
    requires Whole(x)
    ensures |y| == |x|
    decreases |x|
  {
    if x == [] then [] else
      WholeRest(x);
      var b := c.enc(key, XorBlock(x[..BLOCK_LEN], iv));
      b + EncBlocks(c, key, b, x[BLOCK_LEN..])
  }

  function DecBlocks(c: Cipher, key: Bytes, iv: Block, y: Bytes): (x: Bytes)
    requires Whole(y)
    ensures |x| == |y|
    decreases |y|
  {
    if y == [] then [] else
      WholeRest(y);
      XorBlock(c.dec(key, y[..BLOCK_LEN]), iv) + DecBlocks(c, key, y[..BLOCK_LEN], y[BLOCK_LEN..])
  }

  /** Decrypting the blocks undoes encrypting them. */
  lemma {:induction false} DecEncBlocks(c: Cipher, key: Bytes, iv: Block, x: Bytes)
    requires Lawful(c) && Whole(x)
    ensures Whole(EncBlocks(c, key, iv, x)) && DecBlocks(c, key, iv, EncBlocks(c, key, iv, x)) == x
    decreases |x|
  {
    if x != [] {
      WholeRest(x);
      var d := XorBlock(x[..BLOCK_LEN], iv);
      var b := c.enc(key, d);
      var y := EncBlocks(c, key, iv, x);
      assert y[..BLOCK_LEN] == b && y[BLOCK_LEN..] == EncBlocks(c, key, b, x[BLOCK_LEN..]);
      assert c.dec(key, b) == d;
      XorBlockTwice(x[..BLOCK_LEN], iv);
      DecEncBlocks(c, key, b, x[BLOCK_LEN..]);
    }
  }

  /** Encrypting the blocks undoes decrypting them. */
  lemma {:induction false} EncDecBlocks(c: Cipher, key: Bytes, iv: Block, y: Bytes)
    requires Lawful(c) && Whole(y)
    ensures Whole(DecBlocks(c, key, iv, y)) && EncBlocks(c, key, iv, DecBlocks(c, key, iv, y)) == y
    decreases |y|
  {
    if y != [] {
      WholeRest(y);
      var b := y[..BLOCK_LEN];
      var x := DecBlocks(c, key, iv, y);
      assert x[..BLOCK_LEN] == XorBlock(c.dec(key, b), iv) && x[BLOCK_LEN..] == DecBlocks(c, key, b, y[BLOCK_LEN..]);
      XorBlockTwice(c.dec(key, b), iv);
      assert c.enc(key, c.dec(key, b)) == b;
      EncDecBlocks(c, key, b, y[BLOCK_LEN..]);
    }
  }

  // ----- padding

  /** The padding's length, which is also each of its bytes. */
  function PadLength(n: nat): (k: Byte)
    ensures 1 <= k <= BLOCK_LEN && (n + k) % BLOCK_LEN == 0
  {
    BLOCK_LEN - n % BLOCK_LEN
  }

  function Padding(n: nat): (p: Bytes)
    ensures |p| == PadLength(n)
  {
    seq(PadLength(n), _ => PadLength(n))
  }

  function Pad(p: Bytes): (x: Bytes)
    ensures Whole(x) && |x| == (|p| / BLOCK_LEN + 1) * BLOCK_LEN
  {
    p + Padding(|p|)
  }

  /** The bytes of the last block that its last byte says are not padding; the byte is
      reduced to the block's length, and the rest of the padding is not looked at. */
  function Remainder(last: Byte): (r: nat)
    ensures r < BLOCK_LEN
  {
    var r := BLOCK_LEN - last % BLOCK_LEN;
    if r == BLOCK_LEN then 0 else r
  }

  function Unpad(x: Bytes): (p: Bytes)
    requires |x| >= BLOCK_LEN
    ensures |p| < |x|
  {
    x[..|x| - BLOCK_LEN + Remainder(x[|x| - 1])]
  }

  lemma UnpadPad(p: Bytes)
    ensures |Pad(p)| >= BLOCK_LEN && Unpad(Pad(p)) == p
  {
    assert Pad(p)[|Pad(p)| - 1] == PadLength(|p|);
  }

  // ----- the mode

  function CbcEncrypt(c: Cipher, key: Bytes, iv: Block, p: Bytes): (y: Bytes)
    ensures Whole(y) && |y| == (|p| / BLOCK_LEN + 1) * BLOCK_LEN
  {
    EncBlocks(c, key, iv, Pad(p))
  }

  function CbcDecrypt(c: Cipher, key: Bytes, iv: Block, y: Bytes): (p: Bytes)
    requires Whole(y) && y != []
    ensures |p| < |y|
  {
    WholeRest(y);
    Unpad(DecBlocks(c, key, iv, y))
  }

  /** Decryption recovers every plaintext, the empty one included. */
  lemma CbcRoundTrip(c: Cipher, key: Bytes, iv: Block, p: Bytes)
    requires Lawful(c)
    ensures CbcDecrypt(c, key, iv, CbcEncrypt(c, key, iv, p)) == p
  {
    DecEncBlocks(c, key, iv, Pad(p));
    UnpadPad(p);
  }

  /** The last byte is the padding's length, and the padding is copies of it. */
  predicate ProperlyPadded(x: Bytes) {
    && Whole(x) && x != []
    && 1 <= x[|x| - 1] <= BLOCK_LEN <= |x|
    && forall i :: |x| - x[|x| - 1] <= i < |x| ==> x[i] == x[|x| - 1]
  }

  lemma PaddedEnds(p: Bytes)
    ensures ProperlyPadded(Pad(p))
  {
  }

  lemma PadLengthUnique(n: nat, k: Byte)
    requires 1 <= k <= BLOCK_LEN && (n + k) % BLOCK_LEN == 0
    ensures PadLength(n) == k
  {
  }

  lemma ProperPaddingIsPad(x: Bytes)
    requires ProperlyPadded(x)
    ensures Pad(Unpad(x)) == x
  {
    var k := x[|x| - 1];
    var p := Unpad(x);
    assert |p| == |x| - k;
    PadLengthUnique(|p|, k);
    assert x[|p|..] == Padding(|p|);
  }

  /** A ciphertext is the encryption of what it decrypts to exactly when its blocks decrypt
      to a text that ends in proper padding. */
  lemma CiphertextComesBack(c: Cipher, key: Bytes, iv: Block, y: Bytes)
    requires Lawful(c) && Whole(y) && y != []
    ensures CbcEncrypt(c, key, iv, CbcDecrypt(c, key, iv, y)) == y
            <==> ProperlyPadded(DecBlocks(c, key, iv, y))
  {
    var x := DecBlocks(c, key, iv, y);
    EncDecBlocks(c, key, iv, y);
    if CbcEncrypt(c, key, iv, Unpad(x)) == y {
      DecEncBlocks(c, key, iv, Pad(Unpad(x)));
      PaddedEnds(Unpad(x));
    }
    if ProperlyPadded(x) {
      ProperPaddingIsPad(x);
    }
  }

  /** Under any cipher and key there are ciphertexts that do not come back: an encryption of
      zero blocks, whose last byte is no padding, decrypts all the same. */
  lemma ImproperPadding(c: Cipher, key: Bytes, iv: Block)
    requires Lawful(c)
    ensures var y := EncBlocks(c, key, iv, Zeros(2 * BLOCK_LEN));
            Whole(y) && y != [] && CbcEncrypt(c, key, iv, CbcDecrypt(c, key, iv, y)) != y
  {
    DecEncBlocks(c, key, iv, Zeros(2 * BLOCK_LEN));
    CiphertextComesBack(c, key, iv, EncBlocks(c, key, iv, Zeros(2 * BLOCK_LEN)));
  }
}
