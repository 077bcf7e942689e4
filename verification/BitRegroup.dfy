/** `convert_bits` of src/bech32.c (and its twin in src/blech32.c): regrouping the
    bits of a string of numbers. */
module BitRegroup {
  import opened Common
  import opened Words
  import Radix

  /** The bits of `input` in groups of `outBits`. With padding, zeros complete the last
      group; without, what is left over must be zeros and too short for an input group. */
  function Regroup(input: seq<int>, inBits: nat, outBits: nat, pad: bool): Option<seq<int>>
    requires outBits > 0 && forall i :: 0 <= i < |input| ==> 0 <= input[i]
  {
    var w := Flatten(input, inBits);
    var c, r := Chunk(w, outBits), Rest(w, outBits);
    if pad then Some(if r == [] then c else c + [FromBits(r + Clear(outBits - |r|))])
    else if r == Clear(|r|) && |r| < inBits then Some(c)
    else None
  }

  // ----- bits of shifted words

  lemma DivMod2(n: nat, k: nat)
    ensures n == (n / Pow(2, k)) * Pow(2, k) + n % Pow(2, k) && n % Pow(2, k) < Pow(2, k) && n / Pow(2, k) >= 0
  {
    Radix.DivMod(n, Pow(2, k));
  }

  /** Shifting right drops low bits. */
  lemma BitsShiftRight(n: nat, len: nat, k: nat)
    ensures n / Pow(2, k) >= 0 && Bits(n, len + k) == Bits(n / Pow(2, k), len) + Bits(n, k)
  {
    DivMod2(n, k);
    BitsSplit(n / Pow(2, k), n % Pow(2, k), len, k);
    BitsOfSum(n / Pow(2, k), n % Pow(2, k), k);
  }

  /** Masking keeps the low bits. */
  lemma BitsMask(n: nat, k: nat)
    ensures Bits(n % Pow(2, k), k) == Bits(n, k)
  {
    DivMod2(n, k);
    BitsOfSum(n / Pow(2, k), n % Pow(2, k), k);
  }

  /** Wrapping at 32 bits keeps the low bits. */
  lemma TwoTo32()
    ensures Pow(2, 32) == TWO_32
  {
    PowAdd(2, 16, 16);
    PowAdd(2, 8, 8);
    assert Pow(2, 8) == 256;
  }

  lemma BitsTail(n: nat, len: nat, k: nat)
    ensures Bits(n, len + k)[len..] == Bits(n, k)
  {
    BitsShiftRight(n, len, k);
  }

  lemma BitsWrap(n: nat, k: nat)
    requires k <= 32
    ensures Bits(Wrap32(n), k) == Bits(n, k)
  {
    TwoTo32();
    assert Wrap32(n) == n % Pow(2, 32);
    BitsMask(n, 32);
    BitsTail(n, 32 - k, k);
    BitsTail(Wrap32(n), 32 - k, k);
  }

  lemma BitsOfZero(k: nat)
    ensures Bits(0, k) == Clear(k)
    decreases k
  {
    if k > 0 {
      BitsOfZero(k - 1);
    }
  }

  lemma ShiftLeft(n: nat, len: nat, k: nat)
    ensures Bits(n * Pow(2, k), len + k) == Bits(n, len) + Clear(k)
  {
    BitsSplit(n, 0, len, k);
    BitsOfZero(k);
  }

  // ----- the loop

  /** Lines 152-153: shift in the next input. */
  method ShiftIn(val: nat, bits: nat, x: nat, inBits: nat) returns (newVal: nat)
    requires x < Pow(2, inBits) && bits + inBits <= 32
    ensures Bits(newVal, bits + inBits) == Bits(val, bits) + Bits(x, inBits)
  {
    newVal := Wrap32(val * Pow(2, inBits) + x);
    BitsWrap(val * Pow(2, inBits) + x, bits + inBits);
    BitsSplit(val, x, bits, inBits);
  }

  /** What the output holds so far and the bits still to be emitted. */
  function Pending(out: seq<nat>, val: nat, bits: nat, outBits: nat): Word {
    Flatten(out, outBits) + Bits(val, bits)
  }

  lemma EmitOne(out: seq<nat>, val: nat, bits: nat, outBits: nat, x: nat)
    requires outBits > 0 && Bounded(out, outBits) && x == val / Pow(2, bits) % Pow(2, outBits)
    ensures Bounded(out + [x], outBits)
    ensures Pending(out + [x], val, bits, outBits) == Pending(out, val, bits + outBits, outBits)
  {
    DivMod2(val, bits);
    DivMod2(val / Pow(2, bits), outBits);
    BitsShiftRight(val, outBits, bits);
    BitsMask(val / Pow(2, bits), outBits);
    FlattenAppend(out, [x], outBits);
    FlattenOne(x, outBits);
    assert (Flatten(out, outBits) + Bits(x, outBits)) + Bits(val, bits) ==
           Flatten(out, outBits) + (Bits(x, outBits) + Bits(val, bits));
  }

  /** An output of `capacity` groups has room for `bits` more bits after `n` groups. */
  predicate Fits(capacity: nat, n: nat, bits: nat, width: nat) {
    n <= capacity && n * width + bits <= capacity * width
  }

  lemma FitsOne(capacity: nat, n: nat, bits: nat, width: nat)
    requires bits > 0 && Fits(capacity, n, bits, width)
    ensures n < capacity
    ensures bits >= width ==> Fits(capacity, n + 1, bits - width, width)
  {
    if n >= capacity {
      MulMonotonic(width, capacity, n);
    }
    assert (n + 1) * width == n * width + width;
  }

  /** The output so far, in bounds and with room for what is still to be emitted. */
  predicate Sound(out: array<nat>, at: nat, n: nat, bits: nat, outBits: nat)
    reads out
  {
    at <= out.Length && Fits(out.Length - at, n, bits, outBits) && Bounded(out[at..at + n], outBits)
  }

  /** `out[(*outlen)++] = x`. */
  method Push(out: array<nat>, at: nat, n: nat, x: nat) returns (next: nat)
    requires at + n < out.Length
    modifies out
    ensures next == n + 1 && out[at..at + next] == old(out[at..at + n]) + [x] && out[..at] == old(out[..at])
  {
    out[at + n] := x;
    next := n + 1;
  }

  /** Lines 155-156: one output group. */
  method EmitGroup(out: array<nat>, at: nat, start: nat, val: nat, bitsIn: nat, outBits: nat)
    returns (n: nat, bits: nat)
    requires 0 < outBits <= bitsIn && Sound(out, at, start, bitsIn, outBits)
    modifies out
    ensures bits == bitsIn - outBits && Sound(out, at, n, bits, outBits)
    ensures Pending(out[at..at + n], val, bits, outBits) == old(Pending(out[at..at + start], val, bitsIn, outBits))
    ensures out[..at] == old(out[..at])
  {
    FitsOne(out.Length - at, start, bitsIn, outBits);
    bits := bitsIn - outBits;
    DivMod2(val, bits);
    DivMod2(val / Pow(2, bits), outBits);
    var x: nat := val / Pow(2, bits) % Pow(2, outBits);
    EmitOne(out[at..at + start], val, bits, outBits, x);
    n := Push(out, at, start, x);
  }

  /** Lines 154-157: emit whole output groups. */
  method Emit(out: array<nat>, at: nat, start: nat, val: nat, bitsIn: nat, outBits: nat) returns (n: nat, bits: nat)
    requires outBits > 0 && Sound(out, at, start, bitsIn, outBits)
    modifies out
    ensures bits < outBits && Sound(out, at, n, bits, outBits)
    ensures Pending(out[at..at + n], val, bits, outBits) == old(Pending(out[at..at + start], val, bitsIn, outBits))
    ensures out[..at] == old(out[..at])
  {
    n, bits := start, bitsIn;
    while bits >= outBits
      invariant Sound(out, at, n, bits, outBits)
      invariant Pending(out[at..at + n], val, bits, outBits) == old(Pending(out[at..at + start], val, bitsIn, outBits))
      invariant out[..at] == old(out[..at])
    {
      n, bits := EmitGroup(out, at, n, val, bits, outBits);
    }
  }

  /** Lines 161 and 163: the left-over bits moved to the top of an output group. */
  method TopOfGroup(val: nat, bits: nat, outBits: nat) returns (x: nat)
    requires bits <= outBits <= 32
    ensures x == FromBits(Bits(val, bits) + Clear(outBits - bits)) && x < Pow(2, outBits)
  {
    var k := outBits - bits;
    x := Wrap32(val * Pow(2, k)) % Pow(2, outBits);
    DivMod2(Wrap32(val * Pow(2, k)), outBits);
    BitsMask(Wrap32(val * Pow(2, k)), outBits);
    BitsWrap(val * Pow(2, k), outBits);
    ShiftLeft(val, bits, k);
    FromBitsBits(x, outBits);
  }

  lemma {:induction false} FromBitsZero(w: Word)
    ensures FromBits(w) == 0 <==> w == Clear(|w|)
    decreases |w|
  {
    if w != [] {
      var k := |w| - 1;
      FromBitsZero(w[..k]);
      assert w == w[..k] + [w[k]];
      assert Clear(|w|)[..k] == Clear(k);
      assert w == Clear(|w|) ==> w[..k] == Clear(k) && !w[k];
    }
  }

  /** Lines 152-157: one input. */
  method Take(out: array<nat>, at: nat, start: nat, val: nat, bits: nat, x: nat, inBits: nat, outBits: nat)
    returns (n: nat, newVal: nat, newBits: nat)
    requires 0 < inBits <= 8 && 0 < outBits <= 8 && bits < outBits && x < Pow(2, inBits)
    requires Sound(out, at, start, bits + inBits, outBits)
    modifies out
    ensures newBits < outBits && Sound(out, at, n, newBits, outBits)
    ensures Pending(out[at..at + n], newVal, newBits, outBits) ==
            old(Pending(out[at..at + start], val, bits, outBits)) + Bits(x, inBits)
    ensures out[..at] == old(out[..at])
  {
    newVal := ShiftIn(val, bits, x, inBits);
    ghost var was := Flatten(out[at..at + start], outBits);
    assert (was + Bits(val, bits)) + Bits(x, inBits) == was + (Bits(val, bits) + Bits(x, inBits));
    n, newBits := Emit(out, at, start, newVal, bits + inBits, outBits);
  }

  lemma PendingLength(out: seq<nat>, val: nat, bits: nat, outBits: nat, seen: seq<nat>, inBits: nat)
    requires Pending(out, val, bits, outBits) == Flatten(seen, inBits)
    ensures |out| * outBits + bits == |seen| * inBits
  {
    FlattenLength(out, outBits);
    FlattenLength(seen, inBits);
  }

  /** The bits accounted for so far bound those that the output has to hold. */
  lemma StillFits(capacity: nat, n: nat, bits: nat, i: nat, total: nat, inBits: nat, outBits: nat)
    requires i < total && n <= capacity && n * outBits + bits == i * inBits
    requires total * inBits <= capacity * outBits
    ensures Fits(capacity, n, bits + inBits, outBits)
  {
    MulMonotonic(inBits, i + 1, total);
    assert (i + 1) * inBits == i * inBits + inBits;
  }

  lemma FlattenNext(input: seq<int>, i: nat, width: nat)
    requires i < |input| && Bounded(input, width)
    ensures Flatten(input[..i + 1], width) == Flatten(input[..i], width) + Bits(input[i], width)
  {
    assert input[..i + 1] == input[..i] + [input[i]];
    FlattenAppend(input[..i], [input[i]], width);
    FlattenOne(input[i], width);
  }

  lemma NextFits(out: array<nat>, at: nat, n: nat, val: nat, bits: nat, input: seq<nat>, i: nat, inBits: nat,
        outBits: nat)
    requires i < |input| && Sound(out, at, n, bits, outBits) && |input| * inBits <= (out.Length - at) * outBits
    requires Pending(out[at..at + n], val, bits, outBits) == Flatten(input[..i], inBits)
    ensures Sound(out, at, n, bits + inBits, outBits)
  {
    PendingLength(out[at..at + n], val, bits, outBits, input[..i], inBits);
    StillFits(out.Length - at, n, bits, i, |input|, inBits, outBits);
  }

  /** Lines 151-158: all of the input, leaving less than an output group over. */
  method ShiftAll(out: array<nat>, at: nat, input: seq<nat>, inBits: nat, outBits: nat)
    returns (n: nat, val: nat, bits: nat)
    requires 0 < inBits <= 8 && 0 < outBits <= 8 && Bounded(input, inBits)
    requires at <= out.Length && |input| * inBits <= (out.Length - at) * outBits
    modifies out
    ensures bits < outBits && Sound(out, at, n, bits, outBits)
    ensures Pending(out[at..at + n], val, bits, outBits) == Flatten(input, inBits)
    ensures out[..at] == old(out[..at])
  {
    n, val, bits := 0, 0, 0;
    for i := 0 to |input|
      invariant bits < outBits && Sound(out, at, n, bits, outBits)
      invariant Pending(out[at..at + n], val, bits, outBits) == Flatten(input[..i], inBits)
      invariant out[..at] == old(out[..at])
    {
      FlattenNext(input, i, inBits);
      NextFits(out, at, n, val, bits, input, i, inBits, outBits);
      n, val, bits := Take(out, at, n, val, bits, input[i], inBits, outBits);
    }
    assert input[..|input|] == input;
  }

  lemma ZerosOnTop(r: Word, k: nat)
    ensures r + Clear(k) == Clear(|r| + k) <==> r == Clear(|r|)
  {
    assert (r + Clear(k))[..|r|] == r && Clear(|r| + k)[..|r|] == Clear(|r|);
  }

  /** What the groups emitted and the bits left over make of the input. */
  lemma LeftOver(out: seq<nat>, val: nat, bits: nat, outBits: nat, input: seq<nat>, inBits: nat, top: nat)
    requires 0 < outBits && bits < outBits && Bounded(out, outBits)
    requires Pending(out, val, bits, outBits) == Flatten(input, inBits)
    requires top == FromBits(Bits(val, bits) + Clear(outBits - bits))
    ensures Regroup(input, inBits, outBits, true) == Some(if bits == 0 then out else out + [top])
    ensures Regroup(input, inBits, outBits, false) == if top == 0 && bits < inBits then Some(out) else None
  {
    var r := Bits(val, bits);
    ChunkFlatten(out, r, outBits);
    FromBitsZero(r + Clear(outBits - bits));
    ZerosOnTop(r, outBits - bits);
  }

  /** Lines 159-166: the left-over bits. */
  method Complete(out: array<nat>, at: nat, start: nat, outBits: nat, val: nat, bits: nat, inBits: nat, pad: bool)
    returns (ok: bool, n: nat)
    requires bits < outBits <= 32 && Sound(out, at, start, bits, outBits)
    modifies out
    ensures at + n <= out.Length && out[..at] == old(out[..at])
    ensures var top := FromBits(Bits(val, bits) + Clear(outBits - bits));
            if pad then
              ok && out[at..at + n] ==
                    if bits == 0 then old(out[at..at + start]) else old(out[at..at + start]) + [top]
            else ok == (top == 0 && bits < inBits) && out[at..at + n] == old(out[at..at + start])
  {
    n := start;
    var top := TopOfGroup(val, bits, outBits);
    if pad {
      if bits > 0 {
        FitsOne(out.Length - at, n, bits, outBits);
        n := Push(out, at, n, top);
      }
    } else if top != 0 || bits >= inBits {
      return false, n;
    }
    ok := true;
  }

  /** `convert_bits`, appending at `at` of an output that holds as many bits as the input. */
  method ConvertBits(out: array<nat>, at: nat, outBits: nat, input: seq<nat>, inBits: nat, pad: bool)
    returns (ok: bool, n: nat)
    requires 0 < inBits <= 8 && 0 < outBits <= 8 && Bounded(input, inBits)
    requires at <= out.Length && |input| * inBits <= (out.Length - at) * outBits
    modifies out
    ensures at + n <= out.Length && out[..at] == old(out[..at])
    ensures Regroup(input, inBits, outBits, pad) == if ok then Some(out[at..at + n]) else None
  {
    var val, bits;
    n, val, bits := ShiftAll(out, at, input, inBits, outBits);
    LeftOver(out[at..at + n], val, bits, outBits, input, inBits, FromBits(Bits(val, bits) + Clear(outBits - bits)));
    ok, n := Complete(out, at, n, outBits, val, bits, inBits, pad);
  }

  // ----- regrouping is a bijection

  lemma PowersOfTwo()
    ensures Pow(2, 5) == 32 && Pow(2, 8) == 256
  {
  }

  /** The zeros that complete the last group. */
  function Padding(w: Word, width: nat): (k: nat)
    requires width > 0
    ensures k < width
  {
    if Rest(w, width) == [] then 0 else width - |Rest(w, width)|
  }

  lemma AppendGroup(c: seq<int>, g: Word, width: nat)
    requires Bounded(c, width) && |g| == width
    ensures Bounded(c + [FromBits(g)], width)
    ensures Flatten(c + [FromBits(g)], width) == Flatten(c, width) + g
  {
    FromBitsBound(g);
    FlattenAppend(c, [FromBits(g)], width);
    FlattenOne(FromBits(g), width);
    BitsFromBits(g);
  }

  lemma PaddedWord(w: Word, width: nat)
    requires width > 0
    ensures var c, r, k := Chunk(w, width), Rest(w, width), Padding(w, width);
            if r == [] then Bounded(c, width) && Flatten(c, width) == w + Clear(k)
            else Bounded(c + [FromBits(r + Clear(k))], width)
                 && Flatten(c + [FromBits(r + Clear(k))], width) == w + Clear(k)
  {
    var c, r, k := Chunk(w, width), Rest(w, width), Padding(w, width);
    ChunkAndRest(w, width);
    if r == [] {
      assert Flatten(c, width) + [] == Flatten(c, width) && w + Clear(0) == w;
    } else {
      AppendGroup(c, r + Clear(k), width);
      assert Flatten(c, width) + (r + Clear(k)) == (Flatten(c, width) + r) + Clear(k);
    }
  }

  /** The bits of the padded regrouping: those of the input, and less than a group of zeros. */
  lemma PaddedBits(input: seq<int>, inBits: nat, outBits: nat)
    requires outBits > 0 && Bounded(input, inBits)
    ensures var w, out := Flatten(input, inBits), Regroup(input, inBits, outBits, true).value;
            Bounded(out, outBits) && Flatten(out, outBits) == w + Clear(Padding(w, outBits))
  {
    PaddedWord(Flatten(input, inBits), outBits);
  }

  lemma FlattenInjective(s: seq<int>, t: seq<int>, width: nat)
    requires width > 0 && Bounded(s, width) && Bounded(t, width) && Flatten(s, width) == Flatten(t, width)
    ensures s == t
  {
    ChunkFlatten(s, [], width);
    ChunkFlatten(t, [], width);
  }

  /** Regrouping bytes as symbols and back gives the bytes. */
  lemma BytesRoundTrip(b: seq<int>)
    requires Bounded(b, 8)
    ensures Bounded(Regroup(b, 8, 5, true).value, 5)
    ensures Regroup(Regroup(b, 8, 5, true).value, 5, 8, false) == Some(b)
  {
    var w := Flatten(b, 8);
    var k := Padding(w, 5);
    PaddedBits(b, 8, 5);
    ChunkFlatten(b, Clear(k), 8);
  }

  /** Two ways of completing the same bits to whole groups with less than a group coincide. */
  lemma SamePadding(d: seq<int>, e: seq<int>, u: Word, r: Word, k: nat)
    requires Bounded(d, 5) && Bounded(e, 5) && |r| < 5 && k < 5 && r == Clear(|r|)
    requires Flatten(d, 5) == u + r && Flatten(e, 5) == u + Clear(k)
    ensures Flatten(d, 5) == Flatten(e, 5)
  {
    FlattenLength(d, 5);
    FlattenLength(e, 5);
    assert |r| == k;
  }

  /** Symbols that regroup without padding are exactly what their bytes regroup to. */
  lemma SymbolsRoundTrip(d: seq<int>)
    requires Bounded(d, 5) && Regroup(d, 5, 8, false).Some?
    ensures var b := Regroup(d, 5, 8, false).value;
            Bounded(b, 8) && Regroup(b, 8, 5, true) == Some(d)
  {
    var w := Flatten(d, 5);
    var b, r := Chunk(w, 8), Rest(w, 8);
    ChunkAndRest(w, 8);
    var e := Regroup(b, 8, 5, true).value;
    PaddedBits(b, 8, 5);
    SamePadding(d, e, Flatten(b, 8), r, Padding(Flatten(b, 8), 5));
    FlattenInjective(d, e, 5);
  }

  /** How many symbols the bytes take. */
  lemma SymbolCount(b: seq<int>)
    requires Bounded(b, 8)
    ensures |Regroup(b, 8, 5, true).value| == (8 * |b| + 4) / 5
  {
    var w := Flatten(b, 8);
    var e := Regroup(b, 8, 5, true).value;
    PaddedBits(b, 8, 5);
    FlattenLength(b, 8);
    FlattenLength(e, 5);
  }
}
