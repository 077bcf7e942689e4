/** CBC as section 6.2 of NIST SP 800-38A defines it, block by block, and the padding of
    section 6.3 of RFC 5652. */
module AesStandard {
  import opened Common
  import opened Words
  import opened BitNumbers
  import opened Aes
  import opened AesCbc

  /** The `i`th of sixteen-byte blocks. */
  function Nth(x: Bytes, i: nat): Block
    requires 16 * i + 16 <= |x|
  {
    x[16 * i..16 * i + 16]
  }

  /** Each byte is the exclusive or of the two. */
  predicate IsXor(x: Block, a: Block, b: Block) {
    forall j :: 0 <= j < 16 ==> x[j] == BitXor(a[j], b[j])
  }

  /** Every plaintext block is mixed with the ciphertext block before it, or at first with the
      vector, and then encrypted. */
  ghost predicate IsCbc(c: Cipher, key: Bytes, iv: Block, x: Bytes, y: Bytes) {
    && |x| == |y| && |x| % 16 == 0
    && forall i: nat :: 16 * i + 16 <= |x| ==>
         exists mixed: Block :: IsXor(mixed, Nth(x, i), if i == 0 then iv else Nth(y, i - 1))
                                && Nth(y, i) == c.enc(key, mixed)
  }

  /** `k` bytes of value `k` complete the last block, 1 to 16 of them. */
  predicate IsPadded(p: Bytes, x: Bytes) {
    var k := 16 - |p| % 16;
    |x| == |p| + k && x[..|p|] == p && forall i :: |p| <= i < |x| ==> x[i] == k
  }

  lemma XorByteIsBitXor(a: Byte, b: Byte)
    ensures XorByte(a, b) == BitXor(a, b)
  {
    EightBits();
    XorIsBitXor(Bits(a, 8), Bits(b, 8));
    FromBitsBits(a, 8);
    FromBitsBits(b, 8);
  }

  lemma XorBlockIsXor(a: Block, b: Block)
    ensures IsXor(XorBlock(a, b), a, b)
  {
    forall j | 0 <= j < 16 ensures XorBlock(a, b)[j] == BitXor(a[j], b[j]) {
      XorByteIsBitXor(a[j], b[j]);
    }
  }

  lemma NthIsBlockAt(x: Bytes, i: nat)
    requires 16 * i + 16 <= |x|
    ensures Nth(x, i) == BlockAt(x, i)
  {
  }

  lemma {:induction false} EncBlockAt(c: Cipher, key: Bytes, iv: Block, x: Bytes, i: nat)
    requires Whole(x) && BLOCK_LEN * (i + 1) <= |x|
    ensures BlockAt(EncBlocks(c, key, iv, x), i) ==
            c.enc(key, XorBlock(BlockAt(x, i), BlockBefore(iv, EncBlocks(c, key, iv, x), i)))
    decreases i
  {
    WholeRest(x);
    var y, z := EncBlocks(c, key, iv, x), x[BLOCK_LEN..];
    var b := c.enc(key, XorBlock(x[..BLOCK_LEN], iv));
    assert y[..BLOCK_LEN] == b && y[BLOCK_LEN..] == EncBlocks(c, key, b, z);
    if i > 0 {
      EncBlockAt(c, key, b, z, i - 1);
      BlocksOfRest(x, i);
      BlocksOfRest(y, i);
      if i > 1 {
        BlocksOfRest(y, i - 1);
      }
    }
  }

  /** Encryption is that of the padded plaintext. */
  lemma EncryptIsCbc(c: Cipher, key: Bytes, iv: Block, p: Bytes)
    ensures exists x: Bytes :: IsPadded(p, x) && IsCbc(c, key, iv, x, CbcEncrypt(c, key, iv, p))
  {
    var x, y := Pad(p), CbcEncrypt(c, key, iv, p);
    forall i: nat | 16 * i + 16 <= |x|
      ensures exists mixed: Block :: IsXor(mixed, Nth(x, i), if i == 0 then iv else Nth(y, i - 1))
                                     && Nth(y, i) == c.enc(key, mixed)
    {
      EncBlockAt(c, key, iv, x, i);
      NthIsBlockAt(x, i);
      NthIsBlockAt(y, i);
      XorBlockIsXor(BlockAt(x, i), BlockBefore(iv, y, i));
      assert i > 0 ==> Nth(y, i - 1) == BlockAt(y, i - 1);
    }
    assert IsCbc(c, key, iv, x, y);
    assert IsPadded(p, x);
  }

  /** Every ciphertext block is decrypted and mixed with the one before it, or with the vector. */
  ghost predicate IsCbcDecryption(c: Cipher, key: Bytes, iv: Block, y: Bytes, x: Bytes) {
    && |x| == |y| && |x| % 16 == 0
    && forall i: nat :: 16 * i + 16 <= |x| ==>
         IsXor(Nth(x, i), c.dec(key, Nth(y, i)), if i == 0 then iv else Nth(y, i - 1))
  }

  /** The padding taken off: as many bytes as the last one says, modulo 16, with 16 for 0. */
  predicate IsUnpadded(x: Bytes, p: Bytes) {
    && |x| >= 16
    && var k := x[|x| - 1] % 16;
       p == x[..|x| - if k == 0 then 16 else k]
  }

  /** Decryption yields what is left of the decrypted blocks. */
  lemma DecryptIsCbc(c: Cipher, key: Bytes, iv: Block, y: Bytes)
    requires Whole(y) && y != []
    ensures exists x: Bytes :: IsCbcDecryption(c, key, iv, y, x) && IsUnpadded(x, CbcDecrypt(c, key, iv, y))
  {
    WholeRest(y);
    var x := DecBlocks(c, key, iv, y);
    forall i: nat | 16 * i + 16 <= |x|
      ensures IsXor(Nth(x, i), c.dec(key, Nth(y, i)), if i == 0 then iv else Nth(y, i - 1))
    {
      DecBlockAt(c, key, iv, y, i);
      NthIsBlockAt(x, i);
      NthIsBlockAt(y, i);
      XorBlockIsXor(c.dec(key, BlockAt(y, i)), BlockBefore(iv, y, i));
      assert i > 0 ==> Nth(y, i - 1) == BlockAt(y, i - 1);
    }
    assert IsCbcDecryption(c, key, iv, y, x);
    assert IsUnpadded(x, CbcDecrypt(c, key, iv, y));
  }
}
