/** The checksum registers of src/bech32.c and src/blech32.c: the 'Bech32' section of
    BIP173, the 'Bech32m' section of BIP350, and Elements' 60-bit variant. A register
    is the word of its 30 (60) bits. */
module Polymod {
  import opened Common
  import opened Words
  import opened BitRegroup

  type Symbol = d: int | 0 <= d < 32

  /** Bech32 is src/bech32.c, Blech32 is src/blech32.c. */
  datatype Code = Bech32 | Blech32
  {
    /** The number of checksum symbols. */
    function Symbols(): nat {
      if Bech32? then 6 else 12
    }

    /** The register's width: five bits a checksum symbol. */
    function Len(): nat {
      if Bech32? then 30 else 60
    }

    /** What the top bits of the register feed back. */
    function Generator(i: nat): nat
      requires i < 5
    {
      if Bech32? then
        if i == 0 then 0x3b6a57b2 else if i == 1 then 0x26508e6d else if i == 2 then 0x1ea119fa
        else if i == 3 then 0x3d4233dd else 0x2a1462b3
      else
        if i == 0 then 0x7d52fba40bd886 else if i == 1 then 0x5e8dbf1a03950c else if i == 2 then 0x1c3a3c74072a18
        else if i == 3 then 0x385d72fa0e5139 else 0x7093e5a608865b
    }

    /** `CHECKSUM_BECH32`, `CHECKSUM_BECH32M` and their blech32 counterparts. */
    function Constant(m: bool): nat {
      if !m then 1 else if Bech32? then 0x2bc830a3 else 0x455972a3350f7a1
    }
  }

  function Odd(a: bool, b: bool): bool {
    a != b
  }

  /** The sum of the generator bits `g` selected by the bits `b`. */
  function Select(b: seq<bool>, g: seq<bool>): bool
    requires |b| == |g| == 5
  {
    Odd(b[0] && g[0], Odd(b[1] && g[1], Odd(b[2] && g[2], Odd(b[3] && g[3], b[4] && g[4]))))
  }

  /** Five generator words as wide as the register. */
  predicate Generators(g: seq<Word>, len: nat) {
    |g| == 5 && len >= 5 && forall i :: 0 <= i < 5 ==> |g[i]| == len
  }

  /** Bit `k` of the generators, last generator first. */
  function Column(g: seq<Word>, len: nat, k: nat): (c: seq<bool>)
    requires Generators(g, len) && k < len
    ensures |c| == 5
  {
    [g[4][k], g[3][k], g[2][k], g[1][k], g[0][k]]
  }

  /** Shift the register by a symbol and add the generators that the top five bits
      select: the last of these selects the first generator. */
  function ShiftAndAdd(g: seq<Word>, s: Word): (w: Word)
    requires Generators(g, |s|)
    ensures |w| == |s|
  {
    seq(|s|, k requires 0 <= k < |s| => Odd(k + 5 < |s| && s[k + 5], Select(s[..5], Column(g, |s|, k))))
  }

  function GeneratorWords(code: Code): (g: seq<Word>)
    ensures Generators(g, code.Len())
  {
    seq(5, i requires 0 <= i < 5 => Bits(code.Generator(i), code.Len()))
  }

  /** `bech32_polymod_step` and `blech32_polymod_step`. */
  function Step(code: Code, s: Word): (w: Word)
    requires |s| == code.Len()
    ensures |w| == code.Len()
  {
    ShiftAndAdd(GeneratorWords(code), s)
  }

  /** A symbol as a register. */
  function SymbolWord(code: Code, d: Symbol): (w: Word)
    ensures |w| == code.Len()
  {
    Clear(code.Len() - 5) + Bits(d, 5)
  }

  /** The register after one more symbol. */
  function Feed(code: Code, s: Word, d: Symbol): (w: Word)
    requires |s| == code.Len()
    ensures |w| == code.Len()
  {
    Xor(Step(code, s), SymbolWord(code, d))
  }

  function Absorb(code: Code, s: Word, ds: seq<Symbol>): (w: Word)
    requires |s| == code.Len()
    ensures |w| == code.Len()
    decreases |ds|
  {
    if ds == [] then s else Feed(code, Absorb(code, s, ds[..|ds| - 1]), ds[|ds| - 1])
  }

  // ----- the step is linear and injective

  lemma SelectXor(a: seq<bool>, b: seq<bool>, g: seq<bool>)
    requires |a| == |b| == |g| == 5
    ensures Select(Xor(a, b), g) == Odd(Select(a, g), Select(b, g))
  {
  }

  lemma ShiftAndAddXor(g: seq<Word>, a: Word, b: Word)
    requires |a| == |b| && Generators(g, |a|)
    ensures ShiftAndAdd(g, Xor(a, b)) == Xor(ShiftAndAdd(g, a), ShiftAndAdd(g, b))
  {
    assert Xor(a, b)[..5] == Xor(a[..5], b[..5]);
    forall k | 0 <= k < |a| ensures ShiftAndAdd(g, Xor(a, b))[k] == Odd(ShiftAndAdd(g, a)[k], ShiftAndAdd(g, b)[k]) {
      SelectXor(a[..5], b[..5], Column(g, |a|, k));
    }
  }

  lemma StepXor(code: Code, a: Word, b: Word)
    requires |a| == code.Len() && |b| == code.Len()
    ensures Step(code, Xor(a, b)) == Xor(Step(code, a), Step(code, b))
  {
    ShiftAndAddXor(GeneratorWords(code), a, b);
  }

  function One(b: bool): nat {
    if b then 1 else 0
  }

  function Append(n: nat, b: bool): nat {
    2 * n + One(b)
  }

  lemma BitsUnfold(m: nat, len: nat)
    requires len > 0
    ensures Bits(m, len) == Bits(m / 2, len - 1) + [m % 2 == 1]
  {
  }

  lemma OneBit(n: nat, w: Word, b: bool)
    requires Bits(n, |w|) == w
    ensures Bits(Append(n, b), |w| + 1) == w + [b]
  {
    var m := Append(n, b);
    assert m / 2 == n && m % 2 == One(b);
    BitsUnfold(m, |w| + 1);
  }

  /** Five low bits. */
  lemma FiveBits(h: nat, b: seq<bool>)
    requires |b| == 5
    ensures Bits(Append(Append(Append(Append(Append(h, b[0]), b[1]), b[2]), b[3]), b[4]), 5) == b
  {
    OneBit(h, [], b[0]);
    OneBit(Append(h, b[0]), b[..1], b[1]);
    OneBit(Append(Append(h, b[0]), b[1]), b[..2], b[2]);
    OneBit(Append(Append(Append(h, b[0]), b[1]), b[2]), b[..3], b[3]);
    OneBit(Append(Append(Append(Append(h, b[0]), b[1]), b[2]), b[3]), b[..4], b[4]);
    assert b[..4] + [b[4]] == b;
  }

  /** The low bits of the generators decide whether the step loses anything: row `j`
      gives bit `j` of the last symbol of each, last generator first. */
  function LowBits(code: Code, j: nat): (g: seq<bool>)
    requires j < 5
    ensures |g| == 5
  {
    if code.Bech32? then
      [[true, true, true, false, true],
       [false, true, true, true, false],
       [false, true, false, true, false],
       [true, false, true, false, true],
       [true, true, false, true, false]][j]
    else
      [[true, true, true, false, false],
       [true, true, true, true, false],
       [false, false, false, true, true],
       [true, false, false, false, true],
       [true, true, false, false, false]][j]
  }

  function GeneratorLow(code: Code, i: nat): (b: seq<bool>)
    requires i < 5
    ensures |b| == 5
  {
    [LowBits(code, 0)[4 - i], LowBits(code, 1)[4 - i], LowBits(code, 2)[4 - i], LowBits(code, 3)[4 - i],
     LowBits(code, 4)[4 - i]]
  }

  lemma GeneratorSplits(code: Code, i: nat)
    requires i < 5
    ensures var b := GeneratorLow(code, i);
            var h := code.Generator(i) / 32;
            Append(Append(Append(Append(Append(h, b[0]), b[1]), b[2]), b[3]), b[4]) == code.Generator(i)
  {
  }

  lemma GeneratorTail(code: Code, i: nat)
    requires i < 5
    ensures Bits(code.Generator(i), code.Len())[code.Len() - 5..] == GeneratorLow(code, i)
  {
    BitsTail(code.Generator(i), code.Len() - 5, 5);
    GeneratorSplits(code, i);
    FiveBits(code.Generator(i) / 32, GeneratorLow(code, i));
  }

  lemma ColumnLow(code: Code, j: nat)
    requires j < 5
    ensures Column(GeneratorWords(code), code.Len(), code.Len() - 5 + j) == LowBits(code, j)
  {
    var n := code.Len() - 5;
    forall i | 0 <= i < 5 ensures GeneratorWords(code)[i][n + j] == LowBits(code, j)[4 - i] {
      GeneratorTail(code, i);
      assert GeneratorWords(code)[i][n..][j] == GeneratorWords(code)[i][n + j];
    }
  }

  /** No selection but the empty one leaves the five low bits clear. */
  lemma LowBitsIndependent(code: Code, b: seq<bool>)
    requires |b| == 5
    requires !Select(b, LowBits(code, 0)) && !Select(b, LowBits(code, 1)) && !Select(b, LowBits(code, 2))
    requires !Select(b, LowBits(code, 3)) && !Select(b, LowBits(code, 4))
    ensures b == Clear(5)
  {
  }

  /** A register whose top symbol is zero is only shifted. */
  lemma ShiftOnly(g: seq<Word>, s: Word)
    requires Generators(g, |s|) && s[..5] == Clear(5)
    ensures ShiftAndAdd(g, s) == s[5..] + Clear(5)
  {
  }

  lemma StepShiftOnly(code: Code, s: Word)
    requires |s| == code.Len() && s[..5] == Clear(5)
    ensures Step(code, s) == s[5..] + Clear(5)
  {
    ShiftOnly(GeneratorWords(code), s);
  }

  lemma TopIsClear(code: Code, s: Word)
    requires |s| == code.Len() && Step(code, s) == Clear(code.Len())
    ensures s[..5] == Clear(5)
  {
    forall j | 0 <= j < 5 ensures !Select(s[..5], LowBits(code, j)) {
      ColumnLow(code, j);
      assert !Step(code, s)[code.Len() - 5 + j];
    }
    LowBitsIndependent(code, s[..5]);
  }

  /** Only the zero register steps to zero. */
  lemma StepKernel(code: Code, s: Word)
    requires |s| == code.Len() && Step(code, s) == Clear(code.Len())
    ensures s == Clear(code.Len())
  {
    TopIsClear(code, s);
    StepShiftOnly(code, s);
    assert forall k :: 5 <= k < code.Len() ==> s[k] == (s[5..] + Clear(5))[k - 5];
    assert forall k :: 0 <= k < 5 ==> s[k] == s[..5][k];
  }

  lemma XorClear(a: Word, b: Word)
    requires |a| == |b|
    ensures Xor(a, b) == Clear(|a|) <==> a == b
  {
    if Xor(a, b) == Clear(|a|) {
      forall i | 0 <= i < |a| ensures a[i] == b[i] {
        assert !Xor(a, b)[i];
      }
    }
  }

  lemma StepInjective(code: Code, a: Word, b: Word)
    requires |a| == code.Len() && |b| == code.Len() && Step(code, a) == Step(code, b)
    ensures a == b
  {
    StepXor(code, a, b);
    XorClear(Step(code, a), Step(code, b));
    StepKernel(code, Xor(a, b));
    XorClear(a, b);
  }

  lemma XorCancels(a: Word, b: Word, c: Word)
    requires |a| == |b| == |c|
    ensures Xor(a, c) == Xor(b, c) ==> a == b
    ensures Xor(a, b) == c <==> Xor(a, c) == b
    ensures Xor(Xor(a, b), c) == Xor(a, Xor(b, c))
    ensures Xor(a, b) == Xor(b, a)
  {
    if Xor(a, c) == Xor(b, c) {
      forall i | 0 <= i < |a| ensures a[i] == b[i] {
        assert Xor(a, c)[i] == Xor(b, c)[i];
      }
    }
    if Xor(a, b) == c {
      assert Xor(a, c) == b;
    }
    if Xor(a, c) == b {
      assert Xor(a, b) == c;
    }
  }

  // ----- absorbing symbols

  lemma {:induction false} AbsorbAppend(code: Code, s: Word, ds: seq<Symbol>, es: seq<Symbol>)
    requires |s| == code.Len()
    ensures Absorb(code, s, ds + es) == Absorb(code, Absorb(code, s, ds), es)
    decreases |es|
  {
    if es == [] {
      assert ds + es == ds;
    } else {
      var k := |es| - 1;
      assert ds + es == (ds + es[..k]) + [es[k]];
      assert (ds + es)[..|ds + es| - 1] == ds + es[..k];
      AbsorbAppend(code, s, ds, es[..k]);
    }
  }

  /** Different registers stay different whatever they absorb. */
  lemma {:induction false} AbsorbInjective(code: Code, a: Word, b: Word, ds: seq<Symbol>)
    requires |a| == code.Len() && |b| == code.Len() && Absorb(code, a, ds) == Absorb(code, b, ds)
    ensures a == b
    decreases |ds|
  {
    if ds != [] {
      var k := |ds| - 1;
      var x, y := Absorb(code, a, ds[..k]), Absorb(code, b, ds[..k]);
      XorCancels(Step(code, x), Step(code, y), SymbolWord(code, ds[k]));
      StepInjective(code, x, y);
      AbsorbInjective(code, a, b, ds[..k]);
    }
  }

  lemma SymbolWordInjective(code: Code, d: Symbol, e: Symbol)
    requires SymbolWord(code, d) == SymbolWord(code, e)
    ensures d == e
  {
    var n := code.Len() - 5;
    assert SymbolWord(code, d)[n..] == Bits(d, 5) && SymbolWord(code, e)[n..] == Bits(e, 5);
    FromBitsBits(d, 5);
    FromBitsBits(e, 5);
  }

  /** One changed symbol changes the final register. */
  lemma OneSymbolMatters(code: Code, s: Word, ds: seq<Symbol>, i: nat, e: Symbol)
    requires |s| == code.Len() && i < |ds| && e != ds[i]
    ensures Absorb(code, s, ds[i := e]) != Absorb(code, s, ds)
  {
    var t := Absorb(code, s, ds[..i]);
    assert ds == (ds[..i] + [ds[i]]) + ds[i + 1..];
    assert ds[i := e] == (ds[..i] + [e]) + ds[i + 1..];
    AbsorbAppend(code, s, ds[..i] + [ds[i]], ds[i + 1..]);
    AbsorbAppend(code, s, ds[..i] + [e], ds[i + 1..]);
    assert (ds[..i] + [ds[i]])[..i] == ds[..i] && (ds[..i] + [e])[..i] == ds[..i];
    if Absorb(code, s, ds[i := e]) == Absorb(code, s, ds) {
      AbsorbInjective(code, Feed(code, t, e), Feed(code, t, ds[i]), ds[i + 1..]);
      XorCancels(Step(code, t), SymbolWord(code, e), Feed(code, t, e));
      XorCancels(Step(code, t), SymbolWord(code, ds[i]), Feed(code, t, ds[i]));
      SymbolWordInjective(code, e, ds[i]);
    }
  }
}
