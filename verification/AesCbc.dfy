/** `wally_aes_cbc` over its buffers: src/aes.c lines 108-221. The input and the output
    do not overlap. */
module AesCbc {
  import opened Common
  import opened Aes
  import opened Buffers

  /** The flags argument: `AES_FLAG_ENCRYPT`, `AES_FLAG_DECRYPT`, or anything else. */
  datatype Flag = Encrypt | Decrypt | Other

  /** `are_valid_aes_cbc_args` for an output of `len` bytes. */
  predicate ValidArgs(key: Bytes, iv: Bytes, bytes: Bytes, flag: Flag, len: nat) {
    && ValidKeyLen(|key|) && flag != Other && |iv| == BLOCK_LEN
    && (flag == Encrypt ==> len % BLOCK_LEN == 0)
    && (flag == Decrypt ==> Whole(bytes))
  }

  /** What the call computes. */
  function Output(c: Cipher, key: Bytes, iv: Block, bytes: Bytes, flag: Flag): Bytes
    requires flag == Decrypt ==> Whole(bytes) && bytes != []
  {
    if flag == Decrypt then CbcDecrypt(c, key, iv, bytes) else CbcEncrypt(c, key, iv, bytes)
  }

  // ----- blocks

  /** The `i`th block of a text. */
  function BlockAt(x: Bytes, i: nat): Block
    requires BLOCK_LEN * (i + 1) <= |x|
  {
    x[BLOCK_LEN * i..BLOCK_LEN * (i + 1)]
  }

  /** The block before the `i`th, the first one's being the initialization vector. */
  function BlockBefore(iv: Block, x: Bytes, i: nat): Block
    requires BLOCK_LEN * i <= |x|
  {
    if i == 0 then iv else BlockAt(x, i - 1)
  }

  lemma BlocksOfRest(y: Bytes, i: nat)
    requires i > 0 && BLOCK_LEN * (i + 1) <= |y|
    ensures BlockAt(y[BLOCK_LEN..], i - 1) == BlockAt(y, i)
  {
    SliceOfDrop(y, BLOCK_LEN, BLOCK_LEN * (i - 1), BLOCK_LEN * i);
  }

  lemma {:induction false} DecBlockAt(c: Cipher, key: Bytes, iv: Block, y: Bytes, i: nat)
    requires Whole(y) && BLOCK_LEN * (i + 1) <= |y|
    ensures BlockAt(DecBlocks(c, key, iv, y), i) == XorBlock(c.dec(key, BlockAt(y, i)), BlockBefore(iv, y, i))
    decreases i
  {
    var x, z := DecBlocks(c, key, iv, y), y[BLOCK_LEN..];
    WholeRest(y);
    if i > 0 {
      DecBlockAt(c, key, y[..BLOCK_LEN], z, i - 1);
      assert x[BLOCK_LEN..] == DecBlocks(c, key, y[..BLOCK_LEN], z);
      BlocksOfRest(x, i);
      BlocksOfRest(y, i);
      if i > 1 {
        BlocksOfRest(y, i - 1);
      }
    }
  }

  /** Encryption of what is left after `i` blocks. */
  lemma EncNext(c: Cipher, key: Bytes, iv: Block, x: Bytes, i: nat)
    requires Whole(x) && BLOCK_LEN * (i + 1) <= |x|
    ensures Whole(x[BLOCK_LEN * i..]) && Whole(x[BLOCK_LEN * (i + 1)..])
    ensures var b := c.enc(key, XorBlock(BlockAt(x, i), iv));
            EncBlocks(c, key, iv, x[BLOCK_LEN * i..]) == b + EncBlocks(c, key, b, x[BLOCK_LEN * (i + 1)..])
  {
    var z := x[BLOCK_LEN * i..];
    assert z[..BLOCK_LEN] == BlockAt(x, i) && z[BLOCK_LEN..] == x[BLOCK_LEN * (i + 1)..];
  }

  // ----- loops over a block

  /** `buf[n] = a[n] ^ b[n]` */
  method Mix(buf: array<Byte>, at: nat, a: Block, b: Block)
    requires at + BLOCK_LEN <= buf.Length
    modifies buf
    ensures buf[at..at + BLOCK_LEN] == XorBlock(a, b)
    ensures Outside(buf[..], old(buf[..]), at, at + BLOCK_LEN)
  {
    for n := 0 to BLOCK_LEN
      invariant buf[at..at + n] == XorBlock(a, b)[..n]
      invariant Outside(buf[..], old(buf[..]), at, at + BLOCK_LEN)
    {
      buf[at + n] := XorByte(a[n], b[n]);
      assert buf[at..at + n + 1] == buf[at..at + n] + [XorByte(a[n], b[n])];
    }
  }

  /** Lines 210-214: the last block, completed with padding. */
  method MixLast(buf: array<Byte>, tail: Bytes, iv: Block)
    requires buf.Length == BLOCK_LEN && |tail| < BLOCK_LEN
    modifies buf
    ensures |tail + Padding(|tail|)| == BLOCK_LEN && buf[..] == XorBlock(tail + Padding(|tail|), iv)
  {
    ghost var last: Block := tail + Padding(|tail|);
    ghost var mixed := XorBlock(last, iv);
    var n := 0;
    while n < |tail|
      invariant n <= |tail| && buf[..n] == mixed[..n]
    {
      assert last[n] == tail[n];
      buf[n] := XorByte(tail[n], iv[n]);
      assert buf[..n + 1] == buf[..n] + [mixed[n]];
      n := n + 1;
    }
    var remainder: Byte := 16 - |tail|;
    while n < BLOCK_LEN
      invariant |tail| <= n <= BLOCK_LEN && buf[..n] == mixed[..n]
    {
      assert last[n] == remainder;
      buf[n] := XorByte(remainder, iv[n]);
      assert buf[..n + 1] == buf[..n] + [mixed[n]];
      n := n + 1;
    }
  }

  // ----- encryption

  lemma PadTail(p: Bytes)
    ensures var k := |p| / BLOCK_LEN;
            && BLOCK_LEN * k <= |p| && |Pad(p)| == BLOCK_LEN * (k + 1)
            && BlockAt(Pad(p), k) == p[BLOCK_LEN * k..] + Padding(|p[BLOCK_LEN * k..]|)
  {
    var k := |p| / BLOCK_LEN;
    assert Padding(|p|) == Padding(|p[BLOCK_LEN * k..]|);
    assert Pad(p)[BLOCK_LEN * k..] == p[BLOCK_LEN * k..] + Padding(|p|);
  }

  lemma PadBlock(p: Bytes, i: nat)
    requires BLOCK_LEN * (i + 1) <= |p|
    ensures BLOCK_LEN * (i + 1) <= |Pad(p)| && BlockAt(Pad(p), i) == BlockAt(p, i)
  {
  }

  /** The output so far and the encryption of what is left make up the ciphertext. */
  predicate Encrypted(c: Cipher, key: Bytes, iv: Block, x: Bytes, done: Bytes, i: nat, chain: Block) {
    && Whole(x) && BLOCK_LEN * i <= |x| && |done| == BLOCK_LEN * i && Whole(x[BLOCK_LEN * i..])
    && EncBlocks(c, key, iv, x) == done + EncBlocks(c, key, chain, x[BLOCK_LEN * i..])
  }

  lemma EncryptedNext(c: Cipher, key: Bytes, iv: Block, x: Bytes, done: Bytes, i: nat, chain: Block)
    requires Encrypted(c, key, iv, x, done, i, chain) && BLOCK_LEN * (i + 1) <= |x|
    ensures var b := c.enc(key, XorBlock(BlockAt(x, i), chain)); Encrypted(c, key, iv, x, done + b, i + 1, b)
  {
    EncNext(c, key, chain, x, i);
    var b := c.enc(key, XorBlock(BlockAt(x, i), chain));
    assert (done + b) + EncBlocks(c, key, b, x[BLOCK_LEN * (i + 1)..]) ==
           done + (b + EncBlocks(c, key, b, x[BLOCK_LEN * (i + 1)..]));
  }

  /** Appending a block to the output. */
  method PutNext(out: array<Byte>, at: nat, size: nat, b: Block, ghost end: nat)
    requires at + size + BLOCK_LEN <= end <= out.Length
    modifies out
    ensures out[at..at + (size + BLOCK_LEN)] == old(out[at..at + size]) + b
    ensures Outside(out[..], old(out[..]), at, end)
  {
    ghost var before := out[..];
    Copy(out, at + size, b);
    ghost var m := at + size;
    OutsideSlice(out[..], before, m, m + BLOCK_LEN, at, m);
    OutsideWider(out[..], before, before, m, m + BLOCK_LEN, at, end);
    assert out[at..m + BLOCK_LEN] == out[at..m] + out[m..m + BLOCK_LEN];
  }

  /** Lines 195-198: one block. */
  method EncryptBlock(c: Cipher, key: Bytes, ghost iv: Block, ghost x: Bytes, i: nat, chainIn: Block, block: Block,
      buf: array<Byte>, out: array<Byte>, at: nat, ghost end: nat) returns (chain: Block)
    requires buf.Length == BLOCK_LEN && buf != out && at + BLOCK_LEN * (i + 1) <= end <= out.Length
    requires Encrypted(c, key, iv, x, out[at..at + BLOCK_LEN * i], i, chainIn)
    requires BLOCK_LEN * (i + 1) <= |x| && block == BlockAt(x, i)
    modifies buf, out
    ensures Encrypted(c, key, iv, x, out[at..at + BLOCK_LEN * (i + 1)], i + 1, chain)
    ensures Outside(out[..], old(out[..]), at, end)
  {
    EncryptedNext(c, key, iv, x, out[at..at + BLOCK_LEN * i], i, chainIn);
    Mix(buf, 0, block, chainIn);
    assert buf[..] == buf[0..BLOCK_LEN];
    chain := c.enc(key, buf[..]);
    PutNext(out, at, BLOCK_LEN * i, chain, end);
  }

  lemma EncryptedAll(c: Cipher, key: Bytes, iv: Block, x: Bytes, done: Bytes, i: nat, chain: Block)
    requires Encrypted(c, key, iv, x, done, i, chain) && |x| == BLOCK_LEN * i
    ensures EncBlocks(c, key, iv, x) == done
  {
    assert x[BLOCK_LEN * i..] == [];
    assert done + [] == done;
  }

  lemma EncryptedNone(c: Cipher, key: Bytes, iv: Block, x: Bytes)
    requires Whole(x)
    ensures Encrypted(c, key, iv, x, [], 0, iv)
  {
    assert x[BLOCK_LEN * 0..] == x;
    assert [] + EncBlocks(c, key, iv, x) == EncBlocks(c, key, iv, x);
  }

  /** Lines 193-207 for encryption: the whole blocks. */
  method EncryptWhole(c: Cipher, key: Bytes, iv: Block, bytes: Bytes, blocks: nat, buf: array<Byte>,
        out: array<Byte>, at: nat, ghost end: nat)
    returns (chain: Block)
    requires BLOCK_LEN * blocks <= |bytes| && buf.Length == BLOCK_LEN && buf != out
    requires at + BLOCK_LEN * blocks <= end <= out.Length
    modifies buf, out
    ensures Encrypted(c, key, iv, Pad(bytes), out[at..at + BLOCK_LEN * blocks], blocks, chain)
    ensures Outside(out[..], old(out[..]), at, end)
  {
    ghost var x, was := Pad(bytes), out[..];
    chain := iv;
    EncryptedNone(c, key, iv, x);
    assert out[at..at] == [];
    for i := 0 to blocks
      invariant Encrypted(c, key, iv, x, out[at..at + BLOCK_LEN * i], i, chain)
      invariant Outside(out[..], was, at, end)
    {
      PadBlock(bytes, i);
      ghost var before := out[..];
      chain := EncryptBlock(c, key, iv, x, i, chain, bytes[BLOCK_LEN * i..BLOCK_LEN * (i + 1)], buf, out, at, end);
      OutsideWider(out[..], before, was, at, end, at, end);
    }
  }

  /** Lines 209-215: the last block, completed with padding. */
  method EncryptLast(c: Cipher, key: Bytes, ghost iv: Block, ghost x: Bytes, i: nat, chain: Block, tail: Bytes,
      buf: array<Byte>, out: array<Byte>, at: nat)
    requires buf.Length == BLOCK_LEN && buf != out && at + BLOCK_LEN * (i + 1) <= out.Length
    requires Encrypted(c, key, iv, x, out[at..at + BLOCK_LEN * i], i, chain)
    requires |x| == BLOCK_LEN * (i + 1) && |tail| < BLOCK_LEN && BlockAt(x, i) == tail + Padding(|tail|)
    modifies buf, out
    ensures out[at..at + BLOCK_LEN * (i + 1)] == EncBlocks(c, key, iv, x)
    ensures Outside(out[..], old(out[..]), at, at + BLOCK_LEN * (i + 1))
  {
    EncryptedNext(c, key, iv, x, out[at..at + BLOCK_LEN * i], i, chain);
    MixLast(buf, tail, chain);
    var last := c.enc(key, buf[..]);
    PutNext(out, at, BLOCK_LEN * i, last, at + BLOCK_LEN * (i + 1));
    EncryptedAll(c, key, iv, x, out[at..at + BLOCK_LEN * (i + 1)], i + 1, last);
  }

  /** Lines 193-216 for encryption. */
  method EncryptBlocks(c: Cipher, key: Bytes, iv: Block, bytes: Bytes, out: array<Byte>, at: nat)
    requires at + (|bytes| / BLOCK_LEN + 1) * BLOCK_LEN <= out.Length
    modifies out
    ensures var y := CbcEncrypt(c, key, iv, bytes);
            out[at..at + |y|] == y && Outside(out[..], old(out[..]), at, at + |y|)
  {
    var buf := new Byte[BLOCK_LEN];
    var blocks := |bytes| / BLOCK_LEN;
    PadTail(bytes);
    ghost var start, end := out[..], at + BLOCK_LEN * (blocks + 1);
    var chain := EncryptWhole(c, key, iv, bytes, blocks, buf, out, at, end);
    ghost var middle := out[..];
    EncryptLast(c, key, iv, Pad(bytes), blocks, chain, bytes[BLOCK_LEN * blocks..], buf, out, at);
    OutsideWider(out[..], middle, start, at, end, at, end);
  }

  // ----- decryption

  lemma LastBlock(x: Bytes, n: nat)
    requires |x| == BLOCK_LEN * (n + 1)
    ensures x[|x| - BLOCK_LEN..] == BlockAt(x, n)
    ensures n > 0 ==> x[|x| - 2 * BLOCK_LEN..|x| - BLOCK_LEN] == BlockAt(x, n - 1)
  {
  }

  lemma XorBlockCommutes(a: Block, b: Block)
    ensures XorBlock(a, b) == XorBlock(b, a)
  {
    forall i | 0 <= i < BLOCK_LEN ensures XorByte(a[i], b[i]) == XorByte(b[i], a[i]) {
      XorCommutes(a[i], b[i]);
    }
  }

  /** Lines 164-171: the last block decrypted. */
  method DecryptLast(c: Cipher, key: Bytes, iv: Block, y: Bytes, buf: array<Byte>)
    requires buf.Length == BLOCK_LEN && Whole(y) && y != []
    modifies buf
    ensures |y| >= BLOCK_LEN && buf[..] == DecBlocks(c, key, iv, y)[|y| - BLOCK_LEN..]
  {
    var blocks: nat := |y| / BLOCK_LEN - 1;
    var last := y[|y| - BLOCK_LEN..];
    var prev := if blocks == 0 then iv else y[|y| - 2 * BLOCK_LEN..|y| - BLOCK_LEN];
    LastBlock(y, blocks);
    LastBlock(DecBlocks(c, key, iv, y), blocks);
    DecBlockAt(c, key, iv, y, blocks);
    XorBlockCommutes(prev, c.dec(key, last));
    Mix(buf, 0, prev, c.dec(key, last));
    assert buf[..] == buf[0..BLOCK_LEN];
  }

  /** Lines 200-202: one block, decrypted in the output and mixed there. */
  method DecryptBlock(c: Cipher, key: Bytes, chain: Block, block: Block, out: array<Byte>, at: nat)
    requires at + BLOCK_LEN <= out.Length
    modifies out
    ensures out[at..at + BLOCK_LEN] == XorBlock(c.dec(key, block), chain)
    ensures Outside(out[..], old(out[..]), at, at + BLOCK_LEN)
  {
    Copy(out, at, c.dec(key, block));
    Mix(out, at, out[at..at + BLOCK_LEN], chain);
  }

  /** The first blocks of the output, and the end already in place. */
  predicate Decrypted(x: Bytes, out: seq<Byte>, at: nat, i: nat, from: nat, end: nat) {
    && at + BLOCK_LEN * i <= from <= end <= |out| && end - at <= |x|
    && out[at..at + BLOCK_LEN * i] == x[..BLOCK_LEN * i]
    && out[from..end] == x[from - at..end - at]
  }

  lemma DecryptedNext(x: Bytes, before: Bytes, out: Bytes, at: nat, i: nat, from: nat, end: nat)
    requires Decrypted(x, before, at, i, from, end) && at + BLOCK_LEN * (i + 1) <= from
    requires var m := at + BLOCK_LEN * i;
             Outside(out, before, m, m + BLOCK_LEN) && out[m..m + BLOCK_LEN] == BlockAt(x, i)
    ensures Decrypted(x, out, at, i + 1, from, end)
  {
    var m := at + BLOCK_LEN * i;
    OutsideSlice(out, before, m, m + BLOCK_LEN, at, m);
    OutsideSlice(out, before, m, m + BLOCK_LEN, from, end);
    assert out[at..m + BLOCK_LEN] == out[at..m] + out[m..m + BLOCK_LEN];
    assert x[..BLOCK_LEN * (i + 1)] == x[..BLOCK_LEN * i] + BlockAt(x, i);
  }

  /** One iteration of the loop, for decryption. */
  method DecryptNext(c: Cipher, key: Bytes, ghost iv: Block, y: Bytes, i: nat, chain: Block,
      out: array<Byte>, at: nat, ghost from: nat, ghost end: nat) returns (block: Block)
    requires Whole(y) && BLOCK_LEN * (i + 1) <= |y| && chain == BlockBefore(iv, y, i)
    requires Decrypted(DecBlocks(c, key, iv, y), out[..], at, i, from, end) && at + BLOCK_LEN * (i + 1) <= from
    modifies out
    ensures Decrypted(DecBlocks(c, key, iv, y), out[..], at, i + 1, from, end) && block == BlockBefore(iv, y, i + 1)
    ensures Outside(out[..], old(out[..]), at, end)
  {
    ghost var before := out[..];
    block := y[BLOCK_LEN * i..BLOCK_LEN * (i + 1)];
    DecBlockAt(c, key, iv, y, i);
    DecryptBlock(c, key, chain, block, out, at + BLOCK_LEN * i);
    DecryptedNext(DecBlocks(c, key, iv, y), before, out[..], at, i, from, end);
    OutsideWider(out[..], before, before, at + BLOCK_LEN * i, at + BLOCK_LEN * (i + 1), at, end);
  }

  /** Line 191: the end of the text goes where it belongs. */
  method PlaceTail(out: array<Byte>, from: nat, tail: Bytes, ghost at: nat, ghost x: Bytes)
    requires at <= from && from + |tail| <= out.Length && from - at + |tail| <= |x|
    requires tail == x[from - at..from - at + |tail|]
    modifies out
    ensures Decrypted(x, out[..], at, 0, from, from + |tail|)
    ensures Outside(out[..], old(out[..]), at, from + |tail|)
  {
    ghost var start := out[..];
    Copy(out, from, tail);
    OutsideWider(out[..], start, start, from, from + |tail|, at, from + |tail|);
    assert out[at..at + BLOCK_LEN * 0] == x[..BLOCK_LEN * 0];
  }

  lemma DecryptedAll(x: Bytes, out: Bytes, at: nat, i: nat, from: nat, end: nat)
    requires Decrypted(x, out, at, i, from, end) && at + BLOCK_LEN * i == from
    ensures out[at..end] == x[..end - at]
  {
    assert out[at..end] == out[at..from] + out[from..end];
    assert x[..end - at] == x[..from - at] + x[from - at..end - at];
  }

  /** Lines 190-207 for decryption: the end of the text first, then the whole blocks. */
  method DecryptBlocks(c: Cipher, key: Bytes, iv: Block, y: Bytes, blocks: nat, tail: Bytes, out: array<Byte>,
        at: nat, ghost x: Bytes)
    requires |y| == BLOCK_LEN * (blocks + 1) && x == DecBlocks(c, key, iv, y)
    requires |tail| < BLOCK_LEN && tail == x[BLOCK_LEN * blocks..BLOCK_LEN * blocks + |tail|]
    requires at + BLOCK_LEN * blocks + |tail| <= out.Length
    modifies out
    ensures out[at..at + BLOCK_LEN * blocks + |tail|] == x[..BLOCK_LEN * blocks + |tail|]
    ensures Outside(out[..], old(out[..]), at, at + BLOCK_LEN * blocks + |tail|)
  {
    var from := at + BLOCK_LEN * blocks;
    ghost var start, end := out[..], from + |tail|;
    PlaceTail(out, from, tail, at, x);
    var chain := iv;
    for i := 0 to blocks
      invariant Decrypted(x, out[..], at, i, from, end)
      invariant chain == BlockBefore(iv, y, i)
      invariant Outside(out[..], start, at, end)
    {
      ghost var before := out[..];
      chain := DecryptNext(c, key, iv, y, i, chain, out, at, from, end);
      OutsideWider(out[..], before, start, at, end, at, end);
    }
    DecryptedAll(x, out[..], at, blocks, from, end);
  }

  /** Lines 163-182 and 190-207 for decryption: the size first, then the text if it fits. */
  method DecryptAll(c: Cipher, key: Bytes, iv: Block, y: Bytes, out: array<Byte>, at: nat, len: nat)
    returns (written: nat)
    requires Whole(y) && y != [] && at + len <= out.Length
    modifies out
    ensures written == |CbcDecrypt(c, key, iv, y)|
    ensures if written <= len then
              out[at..at + written] == CbcDecrypt(c, key, iv, y) && Outside(out[..], old(out[..]), at, at + written)
            else out[..] == old(out[..])
  {
    var buf := new Byte[BLOCK_LEN];
    DecryptLast(c, key, iv, y, buf);
    var blocks: nat := |y| / BLOCK_LEN - 1;
    var remainder := BLOCK_LEN - buf[BLOCK_LEN - 1] % BLOCK_LEN;
    if remainder == BLOCK_LEN {
      remainder := 0;
    }
    written := blocks * BLOCK_LEN + remainder;
    if len >= written && written != 0 {
      DecryptBlocks(c, key, iv, y, blocks, buf[..remainder], out, at, DecBlocks(c, key, iv, y));
    }
  }

  // ----- the call

  /** `wally_aes_cbc`: `len` bytes at `at` of `out` are the caller's output buffer. */
  method Cbc(c: Cipher, key: Bytes, iv: Bytes, bytes: Bytes, flag: Flag, out: array<Byte>, at: nat, len: nat)
    returns (status: Status, written: nat)
    requires at + len <= out.Length
    requires flag == Decrypt ==> bytes != []
    modifies out
    ensures !ValidArgs(key, iv, bytes, flag, len) ==> status == Invalid && written == 0 && out[..] == old(out[..])
    ensures ValidArgs(key, iv, bytes, flag, len) ==>
              var text := Output(c, key, iv, bytes, flag);
              && status == Ok && written == |text|
              && (if written <= len then
                    out[at..at + written] == text && Outside(out[..], old(out[..]), at, at + written)
                  else out[..] == old(out[..]))
  {
    if !ValidArgs(key, iv, bytes, flag, len) {
      return Invalid, 0;
    }
    status := Ok;
    if flag == Encrypt {
      written := (|bytes| / BLOCK_LEN + 1) * BLOCK_LEN;
      if len >= written {
        EncryptBlocks(c, key, iv, bytes, out, at);
      }
    } else {
      written := DecryptAll(c, key, iv, bytes, out, at, len);
    }
  }

  /** `wally_aes_cbc_get_maximum_length`: room for the output in either direction. */
  method GetMaximumLength(key: Bytes, iv: Bytes, bytes: Bytes, flag: Flag) returns (status: Status, written: nat)
    ensures if ValidArgs(key, iv, bytes, flag, 0) then status == Ok else status == Invalid && written == 0
    ensures status == Ok && flag == Encrypt ==> forall c :: |Output(c, key, iv, bytes, flag)| == written
    ensures status == Ok && flag == Decrypt && bytes != [] ==> forall c :: |Output(c, key, iv, bytes, flag)| < written
  {
    if !ValidArgs(key, iv, bytes, flag, 0) {
      return Invalid, 0;
    }
    status, written := Ok, (|bytes| / BLOCK_LEN + 1) * BLOCK_LEN;
  }
}
