/** The checksums of bech32 and blech32 strings: src/bech32.c lines 55-145 and
    src/blech32.c lines 58-147. */
module Checksums {
  import opened Common
  import opened Words
  import opened BitRegroup
  import opened Polymod

  // ----- prefixes

  predicate PrintableChars(s: string) {
    forall i :: 0 <= i < |s| ==> 33 <= s[i] as int <= 126
  }

  function HighBits(s: string): (ds: seq<Symbol>)
    requires PrintableChars(s)
    ensures |ds| == |s|
  {
    seq(|s|, i requires 0 <= i < |s| => s[i] as int / 32)
  }

  function LowBits5(s: string): (ds: seq<Symbol>)
    requires PrintableChars(s)
    ensures |ds| == |s|
  {
    seq(|s|, i requires 0 <= i < |s| => s[i] as int % 32)
  }

  /** What the prefix contributes to the checksum. */
  function Expand(hrp: string): seq<Symbol>
    requires PrintableChars(hrp)
  {
    HighBits(hrp) + [0] + LowBits5(hrp)
  }

  // ----- checksums

  /** The register after the prefix and the data. */
  function Register(code: Code, hrp: string, data: seq<Symbol>): (w: Word)
    requires PrintableChars(hrp)
    ensures |w| == code.Len()
  {
    Absorb(code, Bits(1, code.Len()), Expand(hrp) + data)
  }

  /** Zeros as symbols. */
  function NoSymbols(n: nat): (ds: seq<Symbol>)
    ensures |ds| == n && forall i :: 0 <= i < n ==> ds[i] == 0
  {
    Zeros(n)
  }

  lemma FiveBitsBound()
    ensures Pow(2, 5) == 32
  {
  }

  /** The `i`th five bits of a register. */
  function SymbolAt(code: Code, w: Word, i: nat): (d: Symbol)
    requires |w| == code.Len() && i < code.Symbols()
    ensures Bits(d, 5) == w[5 * i..5 * i + 5]
  {
    var g := w[5 * i..5 * i + 5];
    FromBitsBound(g);
    FiveBitsBound();
    BitsFromBits(g);
    FromBits(g)
  }

  /** A register as symbols, highest first. */
  function SymbolsOf(code: Code, w: Word): (ds: seq<Symbol>)
    requires |w| == code.Len()
    ensures |ds| == code.Symbols() && forall i :: 0 <= i < |ds| ==> Bits(ds[i], 5) == w[5 * i..5 * i + 5]
  {
    seq(code.Symbols(), i requires 0 <= i < code.Symbols() => SymbolAt(code, w, i))
  }

  /** The symbols that bring the register to the constant. */
  function Checksum(code: Code, hrp: string, data: seq<Symbol>, m: bool): (ds: seq<Symbol>)
    requires PrintableChars(hrp)
    ensures |ds| == code.Symbols()
  {
    var chk := Absorb(code, Register(code, hrp, data), NoSymbols(code.Symbols()));
    SymbolsOf(code, Xor(chk, Bits(code.Constant(m), code.Len())))
  }

  /** The highest `k` symbols of `y`, at the bottom of an empty register. */
  function Top(code: Code, y: Word, k: nat): (w: Word)
    requires |y| == code.Len() && k <= code.Symbols()
    ensures |w| == code.Len()
  {
    Clear(code.Len() - 5 * k) + y[..5 * k]
  }

  lemma ZeroSymbol(code: Code)
    ensures SymbolWord(code, 0) == Clear(code.Len())
  {
    BitsOfZero(5);
  }

  lemma TopShifted(code: Code, y: Word, k: nat)
    requires |y| == code.Len() && k < code.Symbols()
    ensures Top(code, y, k)[..5] == Clear(5)
    ensures Top(code, y, k)[5..] == Clear(code.Len() - 5 * k - 5) + y[..5 * k]
  {
  }

  lemma FeedTop(code: Code, y: Word, k: nat, d: Symbol)
    requires |y| == code.Len() && k < code.Symbols() && Bits(d, 5) == y[5 * k..5 * k + 5]
    ensures Xor(Step(code, Top(code, y, k)), SymbolWord(code, d)) == Top(code, y, k + 1)
  {
    var t := Top(code, y, k);
    TopShifted(code, y, k);
    StepShiftOnly(code, t);
    assert y[..5 * (k + 1)] == y[..5 * k] + Bits(d, 5);
  }

  lemma XorNothing(a: Word)
    ensures Xor(a, Clear(|a|)) == a
  {
  }

  /** Feeding is linear: a zero symbol on one side, the symbol itself on the other. */
  lemma FeedXor(code: Code, a: Word, t: Word, d: Symbol)
    requires |a| == code.Len() && |t| == code.Len()
    ensures Feed(code, Xor(a, t), d) == Xor(Feed(code, a, 0), Xor(Step(code, t), SymbolWord(code, d)))
  {
    StepXor(code, a, t);
    XorCancels(Step(code, a), Step(code, t), SymbolWord(code, d));
    ZeroSymbol(code);
    XorNothing(Step(code, a));
  }

  lemma XorTwice(a: Word, b: Word)
    requires |a| == |b|
    ensures Xor(a, Xor(a, b)) == b
  {
  }

  lemma AbsorbLast(code: Code, s: Word, ds: seq<Symbol>, k: nat)
    requires |s| == code.Len() && k < |ds|
    ensures Absorb(code, s, ds[..k + 1]) == Feed(code, Absorb(code, s, ds[..k]), ds[k])
  {
    assert ds[..k + 1][..k] == ds[..k];
  }

  /** Absorbing symbols instead of zeros adds them to the register. */
  lemma {:induction false} AbsorbTop(code: Code, s: Word, y: Word, k: nat)
    requires |s| == code.Len() && |y| == code.Len() && k <= code.Symbols()
    ensures Absorb(code, s, SymbolsOf(code, y)[..k]) ==
            Xor(Absorb(code, s, NoSymbols(code.Symbols())[..k]), Top(code, y, k))
    decreases k
  {
    if k == 0 {
      assert Top(code, y, 0) == Clear(code.Len());
      XorNothing(s);
    } else {
      var ds, zs := SymbolsOf(code, y), NoSymbols(code.Symbols());
      AbsorbTop(code, s, y, k - 1);
      AbsorbLast(code, s, ds, k - 1);
      AbsorbLast(code, s, zs, k - 1);
      FeedXor(code, Absorb(code, s, zs[..k - 1]), Top(code, y, k - 1), ds[k - 1]);
      FeedTop(code, y, k - 1, ds[k - 1]);
    }
  }

  lemma TopWhole(code: Code, y: Word)
    requires |y| == code.Len()
    ensures Top(code, y, code.Symbols()) == y
  {
  }

  lemma TakeAll(ds: seq<Symbol>, n: nat)
    requires |ds| == n
    ensures ds[..n] == ds
  {
  }

  lemma AbsorbSymbolsOf(code: Code, s: Word, y: Word)
    requires |s| == code.Len() && |y| == code.Len()
    ensures Absorb(code, s, SymbolsOf(code, y)) == Xor(Absorb(code, s, NoSymbols(code.Symbols())), y)
  {
    AbsorbTop(code, s, y, code.Symbols());
    TakeAll(SymbolsOf(code, y), code.Symbols());
    TakeAll(NoSymbols(code.Symbols()), code.Symbols());
    TopWhole(code, y);
  }

  lemma RegisterAppend(code: Code, hrp: string, data: seq<Symbol>, cs: seq<Symbol>)
    requires PrintableChars(hrp)
    ensures Register(code, hrp, data + cs) == Absorb(code, Register(code, hrp, data), cs)
  {
    assert Expand(hrp) + (data + cs) == (Expand(hrp) + data) + cs;
    AbsorbAppend(code, Bits(1, code.Len()), Expand(hrp) + data, cs);
  }

  /** The checksum always drives the register to the constant. */
  lemma ChecksumIsValid(code: Code, hrp: string, data: seq<Symbol>, m: bool)
    requires PrintableChars(hrp)
    ensures Register(code, hrp, data + Checksum(code, hrp, data, m)) == Bits(code.Constant(m), code.Len())
  {
    var r, cs := Register(code, hrp, data), Checksum(code, hrp, data, m);
    var chk, k := Absorb(code, r, NoSymbols(code.Symbols())), Bits(code.Constant(m), code.Len());
    RegisterAppend(code, hrp, data, cs);
    AbsorbSymbolsOf(code, r, Xor(chk, k));
    XorTwice(chk, k);
  }

  lemma SliceOfSum(a: Word, b: Word)
    requires |a| == 5
    ensures (a + b)[0..5] == a
  {
  }

  lemma SliceAfter(a: Word, b: Word, i: nat)
    requires |a| == 5 && i + 5 <= |b|
    ensures (a + b)[i + 5..i + 10] == b[i..i + 5]
  {
  }

  lemma {:induction false} FlattenAt(s: seq<Symbol>, i: nat)
    requires i < |s|
    ensures 5 * i + 5 <= |Flatten(s, 5)| && Flatten(s, 5)[5 * i..5 * i + 5] == Bits(s[i], 5)
    decreases i
  {
    FlattenLength(s, 5);
    FlattenLength(s[1..], 5);
    if i == 0 {
      SliceOfSum(Bits(s[0], 5), Flatten(s[1..], 5));
    } else {
      FlattenAt(s[1..], i - 1);
      SliceAfter(Bits(s[0], 5), Flatten(s[1..], 5), 5 * (i - 1));
    }
  }

  /** Symbols are determined by the register they spell. */
  lemma SymbolsOfWhole(code: Code, cs: seq<Symbol>)
    requires |cs| == code.Symbols()
    ensures |Flatten(cs, 5)| == code.Len() && SymbolsOf(code, Flatten(cs, 5)) == cs
  {
    FlattenLength(cs, 5);
    var w := Flatten(cs, 5);
    forall i | 0 <= i < |cs| ensures w[5 * i..5 * i + 5] == Bits(cs[i], 5) {
      FlattenAt(cs, i);
    }
    forall i | 0 <= i < |cs| ensures SymbolsOf(code, w)[i] == cs[i] {
      FiveBitsBound();
      FromBitsBits(cs[i], 5);
      FromBitsBits(SymbolsOf(code, w)[i], 5);
    }
  }

  /** Only the checksum drives the register to the constant. */
  lemma ValidIsChecksum(code: Code, hrp: string, data: seq<Symbol>, cs: seq<Symbol>, m: bool)
    requires PrintableChars(hrp) && |cs| == code.Symbols()
    requires Register(code, hrp, data + cs) == Bits(code.Constant(m), code.Len())
    ensures cs == Checksum(code, hrp, data, m)
  {
    var r := Register(code, hrp, data);
    var chk, k := Absorb(code, r, NoSymbols(code.Symbols())), Bits(code.Constant(m), code.Len());
    RegisterAppend(code, hrp, data, cs);
    SymbolsOfWhole(code, cs);
    AbsorbSymbolsOf(code, r, Flatten(cs, 5));
    XorCancels(chk, Flatten(cs, 5), k);
  }

  /** The two constants differ. */
  lemma ConstantsDiffer(code: Code)
    ensures Bits(code.Constant(false), code.Len()) != Bits(code.Constant(true), code.Len())
  {
    PowAdd(2, 15, 15);
    PowAdd(2, 30, 30);
    assert Pow(2, 15) == 32768 by {
      PowAdd(2, 8, 7);
    }
    FromBitsBits(code.Constant(false), code.Len());
    FromBitsBits(code.Constant(true), code.Len());
  }
}
