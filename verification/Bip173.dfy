/** Addresses as the 'Bech32' and 'Segwit address format' sections of BIP173 and BIP350 define
    them, in plain numbers: the checksum by shifts and exclusive or, the program as one number. */
module Bip173 {
  import opened Common
  import opened Words
  import opened BitRegroup
  import opened Radix
  import opened BitNumbers
  import opened Polymod
  import opened Charset
  import opened Checksums
  import opened Bech32
  import opened SegwitAddress

  // ----- the checksum

  function If(bit: nat, g: nat): nat {
    if bit == 1 then g else 0
  }

  /** `top` is the place value of the five bits that leave the register. */
  function StepWith(pre: nat, top: nat, g0: nat, g1: nat, g2: nat, g3: nat, g4: nat): nat
    requires top > 0
  {
    var b := pre / top;
    BitXor(BitXor(BitXor(BitXor(BitXor(pre % top * 32, If(b % 2, g0)), If(b / 2 % 2, g1)), If(b / 4 % 2, g2)),
                  If(b / 8 % 2, g3)), If(b / 16 % 2, g4))
  }

  function PolymodStep(code: Code, pre: nat): nat {
    if code.Bech32? then
      StepWith(pre, 0x200_0000, 0x3b6a57b2, 0x26508e6d, 0x1ea119fa, 0x3d4233dd, 0x2a1462b3)
    else
      StepWith(pre, 0x80_0000_0000_0000, 0x7d52fba40bd886, 0x5e8dbf1a03950c, 0x1c3a3c74072a18, 0x385d72fa0e5139,
               0x7093e5a608865b)
  }

  function PolymodOf(code: Code, values: seq<nat>): nat {
    if values == [] then 1
    else BitXor(PolymodStep(code, PolymodOf(code, values[..|values| - 1])), values[|values| - 1])
  }

  function Chosen(b: bool, g: Word): (w: Word)
    ensures |w| == |g|
  {
    if b then g else Clear(|g|)
  }

  lemma BitOfXors(a: Word, b: Word, c: Word, d: Word, e: Word, f: Word, k: nat)
    requires |a| == |b| == |c| == |d| == |e| == |f| && k < |a|
    ensures Xor(Xor(Xor(Xor(Xor(a, b), c), d), e), f)[k] == (((((a[k] != b[k]) != c[k]) != d[k]) != e[k]) != f[k])
  {
  }

  lemma BitOfStep(g: seq<Word>, s: Word, k: nat)
    requires Generators(g, |s|) && k < |s|
    ensures ShiftAndAdd(g, s)[k] ==
            ((((((k + 5 < |s| && s[k + 5]) != (s[4] && g[0][k])) != (s[3] && g[1][k])) != (s[2] && g[2][k]))
              != (s[1] && g[3][k])) != (s[0] && g[4][k]))
  {
  }

  lemma StepAsXors(g: seq<Word>, s: Word)
    requires Generators(g, |s|)
    ensures ShiftAndAdd(g, s) ==
            Xor(Xor(Xor(Xor(Xor(s[5..] + Clear(5), Chosen(s[4], g[0])), Chosen(s[3], g[1])), Chosen(s[2], g[2])),
                    Chosen(s[1], g[3])), Chosen(s[0], g[4]))
  {
    var w, a, b, c, d, e := s[5..] + Clear(5), Chosen(s[4], g[0]), Chosen(s[3], g[1]), Chosen(s[2], g[2]),
                            Chosen(s[1], g[3]), Chosen(s[0], g[4]);
    forall k | 0 <= k < |s| ensures ShiftAndAdd(g, s)[k] == Xor(Xor(Xor(Xor(Xor(w, a), b), c), d), e)[k] {
      BitOfXors(w, a, b, c, d, e, k);
      BitOfStep(g, s, k);
      assert w[k] == (k + 5 < |s| && s[k + 5]);
    }
  }

  lemma ChosenIsIf(b: bool, g: nat, len: nat, bit: nat)
    requires g < Pow(2, len) && (b <==> bit == 1)
    ensures FromBits(Chosen(b, Bits(g, len))) == If(bit, g)
  {
    FromBitsBits(g, len);
    FromBitsZero(Clear(len));
  }

  /** The five bits that leave the register, and the shifted rest. */
  lemma {:induction false} TopBits(s: Word)
    requires |s| >= 5
    ensures var b := FromBits(s) / Pow(2, |s| - 5);
            && (s[4] <==> b % 2 == 1) && (s[3] <==> b / 2 % 2 == 1) && (s[2] <==> b / 4 % 2 == 1)
            && (s[1] <==> b / 8 % 2 == 1) && (s[0] <==> b / 16 % 2 == 1)
    ensures FromBits(s[5..] + Clear(5)) == FromBits(s) % Pow(2, |s| - 5) * 32
  {
    SplitNumber(s, |s| - 5);
    BitOfNumber(s[..5], 0);
    BitOfNumber(s[..5], 1);
    BitOfNumber(s[..5], 2);
    BitOfNumber(s[..5], 3);
    BitOfNumber(s[..5], 4);
    ShiftedNumber(s[5..], 5);
    PowersOfTwo();
  }

  lemma {:induction false} StepNumber(s: Word, g0: nat, g1: nat, g2: nat, g3: nat, g4: nat, top: nat)
    requires |s| >= 5 && top == Pow(2, |s| - 5)
    requires g0 < Pow(2, |s|) && g1 < Pow(2, |s|) && g2 < Pow(2, |s|) && g3 < Pow(2, |s|) && g4 < Pow(2, |s|)
    ensures var n := |s|;
            var g := [Bits(g0, n), Bits(g1, n), Bits(g2, n), Bits(g3, n), Bits(g4, n)];
            Generators(g, n) && FromBits(ShiftAndAdd(g, s)) == StepWith(FromBits(s), top, g0, g1, g2, g3, g4)
  {
    var n, b := |s|, FromBits(s) / top;
    var g := [Bits(g0, n), Bits(g1, n), Bits(g2, n), Bits(g3, n), Bits(g4, n)];
    TopBits(s);
    StepAsXors(g, s);
    var w0 := Xor(s[5..] + Clear(5), Chosen(s[4], g[0]));
    var w1 := Xor(w0, Chosen(s[3], g[1]));
    var w2 := Xor(w1, Chosen(s[2], g[2]));
    var w3 := Xor(w2, Chosen(s[1], g[3]));
    ChosenIsIf(s[4], g0, n, b % 2);
    XorIsBitXor(s[5..] + Clear(5), Chosen(s[4], g[0]));
    ChosenIsIf(s[3], g1, n, b / 2 % 2);
    XorIsBitXor(w0, Chosen(s[3], g[1]));
    ChosenIsIf(s[2], g2, n, b / 4 % 2);
    XorIsBitXor(w1, Chosen(s[2], g[2]));
    ChosenIsIf(s[1], g3, n, b / 8 % 2);
    XorIsBitXor(w2, Chosen(s[1], g[3]));
    ChosenIsIf(s[0], g4, n, b / 16 % 2);
    XorIsBitXor(w3, Chosen(s[0], g[4]));
  }

  lemma Widths()
    ensures Pow(2, 25) == 0x200_0000 && Pow(2, 30) == 0x4000_0000
    ensures Pow(2, 55) == 0x80_0000_0000_0000 && Pow(2, 60) == 0x1000_0000_0000_0000
  {
    assert Pow(2, 5) == 32;
    PowAdd(2, 5, 5);
    PowAdd(2, 10, 10);
    PowAdd(2, 20, 5);
    PowAdd(2, 25, 5);
    PowAdd(2, 30, 25);
    PowAdd(2, 55, 5);
  }

  lemma {:induction false} Bech32Generators()
    ensures GeneratorWords(Bech32) == [Bits(0x3b6a57b2, 30), Bits(0x26508e6d, 30), Bits(0x1ea119fa, 30),
                                       Bits(0x3d4233dd, 30), Bits(0x2a1462b3, 30)]
  {
  }

  lemma {:induction false} Blech32Generators()
    ensures GeneratorWords(Blech32) == [Bits(0x7d52fba40bd886, 60), Bits(0x5e8dbf1a03950c, 60),
                                        Bits(0x1c3a3c74072a18, 60), Bits(0x385d72fa0e5139, 60),
                                        Bits(0x7093e5a608865b, 60)]
  {
  }

  lemma {:induction false} Bech32Step(s: Word)
    requires |s| == 30
    ensures FromBits(Step(Bech32, s)) == PolymodStep(Bech32, FromBits(s))
  {
    Widths();
    Bech32Generators();
    StepNumber(s, 0x3b6a57b2, 0x26508e6d, 0x1ea119fa, 0x3d4233dd, 0x2a1462b3, 0x200_0000);
  }

  lemma {:induction false} Blech32Step(s: Word)
    requires |s| == 60
    ensures FromBits(Step(Blech32, s)) == PolymodStep(Blech32, FromBits(s))
  {
    Widths();
    Blech32Generators();
    StepNumber(s, 0x7d52fba40bd886, 0x5e8dbf1a03950c, 0x1c3a3c74072a18, 0x385d72fa0e5139, 0x7093e5a608865b,
               0x80_0000_0000_0000);
  }

  /** The step on words is the step on numbers. */
  lemma {:induction false} StepIsPolymodStep(code: Code, s: Word)
    requires |s| == code.Len()
    ensures FromBits(Step(code, s)) == PolymodStep(code, FromBits(s))
  {
    match code
    case Bech32 => Bech32Step(s);
    case Blech32 => Blech32Step(s);
  }

  lemma {:induction false} SymbolNumber(code: Code, d: Symbol)
    ensures FromBits(SymbolWord(code, d)) == d
  {
    PowersOfTwo();
    FromBitsAppend(Clear(code.Len() - 5), Bits(d, 5));
    FromBitsZero(Clear(code.Len() - 5));
    FromBitsBits(d, 5);
  }

  /** The register after some symbols is the checksum's number. */
  lemma {:induction false} AbsorbIsPolymod(code: Code, ds: seq<Symbol>)
    ensures FromBits(Absorb(code, Bits(1, code.Len()), ds)) == PolymodOf(code, ds)
    decreases |ds|
  {
    var start := Bits(1, code.Len());
    if ds == [] {
      Widths();
      FromBitsBits(1, code.Len());
    } else {
      var before := Absorb(code, start, ds[..|ds| - 1]);
      AbsorbIsPolymod(code, ds[..|ds| - 1]);
      StepIsPolymodStep(code, before);
      SymbolNumber(code, ds[|ds| - 1]);
      XorIsBitXor(Step(code, before), SymbolWord(code, ds[|ds| - 1]));
    }
  }

  // ----- addresses

  /** The five high bits of each character, a zero, and the five low bits of each. */
  function ExpandPrefix(hrp: string): seq<nat> {
    seq(|hrp|, i requires 0 <= i < |hrp| => hrp[i] as int / 32) + [0]
    + seq(|hrp|, i requires 0 <= i < |hrp| => hrp[i] as int % 32)
  }

  predicate Spells(s: string, ds: seq<Symbol>) {
    |s| == |ds| && forall i :: 0 <= i < |ds| ==> s[i] == "qpzry9x8gf2tvdw0s3jn54khce6mua7l"[ds[i]]
  }

  /** What the checksum has to come to. */
  function Target(code: Code, version: nat): nat {
    if version == 0 then 1 else if code.Bech32? then 0x2bc830a3 else 0x455972a3350f7a1
  }

  /** The symbols are the program's bits, most significant first, with fewer than five zeros. */
  predicate Carries(d: seq<Symbol>, bytes: Bytes) {
    var pad := 5 * |d| - 8 * |bytes|;
    0 <= pad < 5 && Value(32, d) == Value(256, bytes) * Pow(2, pad)
  }

  /** The symbols after the separator: the version, the program and the checksum. */
  ghost predicate AddressData(code: Code, hrp: string, version: nat, bytes: Bytes, ds: seq<Symbol>) {
    && |ds| >= 1 + code.Symbols() && ds[0] == version
    && Carries(ds[1..|ds| - code.Symbols()], bytes)
    && PolymodOf(code, ExpandPrefix(hrp) + ds) == Target(code, version)
  }

  ghost predicate IsAddress(code: Code, hrp: string, version: nat, bytes: Bytes, s: string) {
    && |s| > |hrp| && s[..|hrp| + 1] == hrp + "1"
    && exists ds: seq<Symbol> :: Spells(s[|hrp| + 1..], ds) && AddressData(code, hrp, version, bytes, ds)
  }

  lemma SymbolsSpelled(ds: seq<Symbol>)
    ensures Spells(ToChars(ds), ds)
  {
  }

  lemma {:induction false} RegisterIsPolymod(code: Code, hrp: string, ds: seq<Symbol>)
    requires PrintableChars(hrp)
    ensures FromBits(Register(code, hrp, ds)) == PolymodOf(code, ExpandPrefix(hrp) + ds)
  {
    assert Expand(hrp) == ExpandPrefix(hrp);
    AbsorbIsPolymod(code, Expand(hrp) + ds);
  }

  lemma {:induction false} TargetIs(code: Code, version: nat)
    ensures FromBits(Bits(code.Constant(version != 0), code.Len())) == Target(code, version)
  {
    Widths();
    FromBitsBits(code.Constant(version != 0), code.Len());
  }

  lemma BytesAreBounded(bytes: Bytes)
    ensures Bounded(bytes, 8) && Pow(2, 8) == 256 && Pow(2, 5) == 32
  {
    PowersOfTwo();
  }

  lemma {:induction false} RegroupedCarries(bytes: Bytes, d: seq<Symbol>)
    requires Regroup(bytes, 8, 5, true) == Some(d)
    ensures Carries(d, bytes)
  {
    var w := Flatten(bytes, 8);
    var pad := Padding(w, 5);
    BytesAreBounded(bytes);
    PaddedBits(bytes, 8, 5);
    FlattenLength(bytes, 8);
    FlattenLength(d, 5);
    FlattenIsValue(bytes, 8);
    FlattenIsValue(d, 5);
    ShiftedNumber(w, pad);
  }

  lemma {:induction false} CarriedIsRegrouped(bytes: Bytes, d: seq<Symbol>)
    requires Carries(d, bytes)
    ensures Regroup(bytes, 8, 5, true) == Some(d)
  {
    BytesAreBounded(bytes);
    BytesRoundTrip(bytes);
    var e := Regroup(bytes, 8, 5, true).value;
    RegroupedCarries(bytes, e);
    assert |e| == |d|;
    ValueInjective(32, d, e);
  }

  /** The symbols that an encoding spells. */
  function EncodedSymbols(code: Code, hrp: string, version: nat, bytes: Bytes): (ds: seq<Symbol>)
    requires EncodeAddress(code, hrp, version, bytes).Some?
    ensures |ds| == |DataSymbols(version, bytes)| + code.Symbols()
  {
    DataSymbolsFacts(version, bytes);
    DataSymbols(version, bytes) + Checksum(code, hrp, DataSymbols(version, bytes), version != 0)
  }

  lemma EncodedString(code: Code, hrp: string, version: nat, bytes: Bytes)
    requires EncodeAddress(code, hrp, version, bytes).Some?
    ensures EncodeAddress(code, hrp, version, bytes) ==
            Some(hrp + "1" + ToChars(EncodedSymbols(code, hrp, version, bytes)))
    ensures PrintableChars(hrp)
  {
  }

  lemma EncodedRegister(code: Code, hrp: string, version: nat, bytes: Bytes)
    requires EncodeAddress(code, hrp, version, bytes).Some? && PrintableChars(hrp)
    ensures var ds := EncodedSymbols(code, hrp, version, bytes);
            Register(code, hrp, ds) == Bits(code.Constant(version != 0), code.Len())
  {
    DataSymbolsFacts(version, bytes);
    ChecksumIsValid(code, hrp, DataSymbols(version, bytes), version != 0);
  }

  lemma EncodedProgram(code: Code, hrp: string, version: nat, bytes: Bytes)
    requires EncodeAddress(code, hrp, version, bytes).Some?
    ensures var ds := EncodedSymbols(code, hrp, version, bytes);
            |ds| >= 1 + code.Symbols() && ds[0] == version && Carries(ds[1..|ds| - code.Symbols()], bytes)
  {
    var ds := EncodedSymbols(code, hrp, version, bytes);
    var d := ds[1..|ds| - code.Symbols()];
    assert d == DataSymbols(version, bytes)[1..] == Regroup(bytes, 8, 5, true).value;
    RegroupedCarries(bytes, d);
  }

  lemma EncodedData(code: Code, hrp: string, version: nat, bytes: Bytes)
    requires EncodeAddress(code, hrp, version, bytes).Some?
    ensures AddressData(code, hrp, version, bytes, EncodedSymbols(code, hrp, version, bytes))
  {
    EncodedString(code, hrp, version, bytes);
    EncodedProgram(code, hrp, version, bytes);
    EncodedRegister(code, hrp, version, bytes);
    RegisterIsPolymod(code, hrp, EncodedSymbols(code, hrp, version, bytes));
    TargetIs(code, version);
  }

  lemma IsAddressOf(code: Code, hrp: string, version: nat, bytes: Bytes, ds: seq<Symbol>, s: string)
    requires AddressData(code, hrp, version, bytes, ds) && s == hrp + "1" + ToChars(ds)
    ensures IsAddress(code, hrp, version, bytes, s)
  {
    SymbolsSpelled(ds);
    assert s[|hrp| + 1..] == ToChars(ds);
  }

  /** What the encoders write is an address of the program. */
  lemma EncodedIsAddress(code: Code, hrp: string, version: nat, bytes: Bytes, s: string)
    requires EncodeAddress(code, hrp, version, bytes) == Some(s)
    ensures IsAddress(code, hrp, version, bytes, s)
  {
    EncodedString(code, hrp, version, bytes);
    EncodedData(code, hrp, version, bytes);
    IsAddressOf(code, hrp, version, bytes, EncodedSymbols(code, hrp, version, bytes), s);
  }

  lemma SpelledIs(s: string, ds: seq<Symbol>)
    requires Spells(s, ds)
    ensures s == ToChars(ds)
  {
    SymbolsSpelled(ds);
  }

  lemma CheckedRegister(code: Code, hrp: string, version: nat, ds: seq<Symbol>)
    requires PrintableChars(hrp) && PolymodOf(code, ExpandPrefix(hrp) + ds) == Target(code, version)
    ensures Register(code, hrp, ds) == Bits(code.Constant(version != 0), code.Len())
  {
    RegisterIsPolymod(code, hrp, ds);
    TargetIs(code, version);
    BitsFromBits(Register(code, hrp, ds));
    BitsFromBits(Bits(code.Constant(version != 0), code.Len()));
  }

  lemma ProgramIsEncoded(version: nat, bytes: Bytes, ds: seq<Symbol>, n: nat)
    requires 1 <= n <= |ds| && ds[0] == version && Carries(ds[1..n], bytes)
    ensures ds[..n] == DataSymbols(version, bytes)
  {
    CarriedIsRegrouped(bytes, ds[1..n]);
    assert ds[..n] == [ds[0]] + ds[1..n];
  }

  lemma ChecksumOfRegister(code: Code, hrp: string, version: nat, ds: seq<Symbol>, n: nat)
    requires PrintableChars(hrp) && n + code.Symbols() == |ds|
    requires Register(code, hrp, ds) == Bits(code.Constant(version != 0), code.Len())
    ensures ds[n..] == Checksum(code, hrp, ds[..n], version != 0)
  {
    assert ds[..n] + ds[n..] == ds;
    ValidIsChecksum(code, hrp, ds[..n], ds[n..], version != 0);
  }

  lemma ChecksumIsEncoded(code: Code, hrp: string, version: nat, ds: seq<Symbol>, n: nat)
    requires PrintableChars(hrp) && n + code.Symbols() == |ds|
    requires PolymodOf(code, ExpandPrefix(hrp) + ds) == Target(code, version)
    ensures ds[n..] == Checksum(code, hrp, ds[..n], version != 0)
  {
    CheckedRegister(code, hrp, version, ds);
    ChecksumOfRegister(code, hrp, version, ds, n);
  }

  lemma JoinedIsEncoded(code: Code, hrp: string, version: nat, bytes: Bytes, ds: seq<Symbol>, n: nat)
    requires EncodeAddress(code, hrp, version, bytes).Some? && PrintableChars(hrp) && n <= |ds|
    requires ds[..n] == DataSymbols(version, bytes) && ds[n..] == Checksum(code, hrp, ds[..n], version != 0)
    ensures ds == EncodedSymbols(code, hrp, version, bytes)
  {
    assert ds == ds[..n] + ds[n..];
  }

  lemma EncodedPrefix(code: Code, hrp: string, version: nat, bytes: Bytes)
    requires EncodeAddress(code, hrp, version, bytes).Some?
    ensures PrintableChars(hrp)
  {
  }

  lemma DataIsEncoded(code: Code, hrp: string, version: nat, bytes: Bytes, ds: seq<Symbol>)
    requires EncodeAddress(code, hrp, version, bytes).Some? && AddressData(code, hrp, version, bytes, ds)
    ensures ds == EncodedSymbols(code, hrp, version, bytes)
  {
    var n := |ds| - code.Symbols();
    EncodedPrefix(code, hrp, version, bytes);
    ProgramIsEncoded(version, bytes, ds, n);
    ChecksumIsEncoded(code, hrp, version, ds, n);
    JoinedIsEncoded(code, hrp, version, bytes, ds, n);
  }

  lemma Assembled(s: string, hrp: string, t: string)
    requires |s| > |hrp| && s[..|hrp| + 1] == hrp + "1" && s[|hrp| + 1..] == t
    ensures s == hrp + "1" + t
  {
    assert s == s[..|hrp| + 1] + s[|hrp| + 1..];
  }

  lemma SpelledAddress(code: Code, hrp: string, version: nat, bytes: Bytes, s: string) returns (ds: seq<Symbol>)
    requires IsAddress(code, hrp, version, bytes, s)
    ensures AddressData(code, hrp, version, bytes, ds) && s == hrp + "1" + ToChars(ds)
  {
    ds :| Spells(s[|hrp| + 1..], ds) && AddressData(code, hrp, version, bytes, ds);
    SpelledIs(s[|hrp| + 1..], ds);
    Assembled(s, hrp, ToChars(ds));
  }

  /** Nothing else is. */
  lemma AddressIsEncoded(code: Code, hrp: string, version: nat, bytes: Bytes, s: string)
    requires EncodeAddress(code, hrp, version, bytes).Some? && IsAddress(code, hrp, version, bytes, s)
    ensures EncodeAddress(code, hrp, version, bytes) == Some(s)
  {
    var ds := SpelledAddress(code, hrp, version, bytes, s);
    DataIsEncoded(code, hrp, version, bytes, ds);
    EncodedString(code, hrp, version, bytes);
  }

  lemma AddressLength(code: Code, hrp: string, version: nat, bytes: Bytes, s: string)
    requires IsAddress(code, hrp, version, bytes, s)
    ensures |s| == |hrp| + 1 + code.Symbols() + 1 + (8 * |bytes| + 4) / 5
  {
    var ds := SpelledAddress(code, hrp, version, bytes, s);
  }

  /** The sizes of program a version allows; a confidential one has 33 bytes in front. */
  predicate AllowedSize(code: Code, version: nat, size: nat) {
    if code.Bech32? then version <= 16 && 2 <= size <= 40 && (version == 0 ==> size == 20 || size == 32)
    else version <= 16 && 2 <= size <= 65 && (version == 0 ==> size == 33 + 20 || size == 33 + 32)
  }

  /** A prefix that may stand before the separator. */
  predicate GoodPrefix(hrp: string) {
    forall i :: 0 <= i < |hrp| ==> 33 <= hrp[i] as int <= 126 && !('A' <= hrp[i] <= 'Z')
  }

  /** `s` is an address of BIP173 or BIP350 (or of their confidential counterparts). */
  ghost predicate Bip173Address(code: Code, hrp: string, version: nat, bytes: Bytes, s: string) {
    && AllowedSize(code, version, |bytes|) && GoodPrefix(hrp) && |s| <= (if code.Bech32? then 90 else 1000)
    && IsAddress(code, hrp, version, bytes, s)
  }

  lemma Conditions(code: Code, hrp: string, version: nat, size: nat)
    ensures AllowedSize(code, version, size) <==> Allowed(code, version, size)
    ensures GoodPrefix(hrp) <==> PrintableChars(hrp) && NoUpper(hrp)
  {
  }

  lemma EncodedFits(code: Code, hrp: string, version: nat, bytes: Bytes, s: string)
    requires EncodeAddress(code, hrp, version, bytes) == Some(s)
    ensures Bip173Address(code, hrp, version, bytes, s)
  {
    EncodesExactly(code, hrp, version, bytes);
    Conditions(code, hrp, version, |bytes|);
    EncodedIsAddress(code, hrp, version, bytes, s);
    AddressLength(code, hrp, version, bytes, s);
  }

  lemma FitsIsEncoded(code: Code, hrp: string, version: nat, bytes: Bytes, s: string)
    requires Bip173Address(code, hrp, version, bytes, s)
    ensures EncodeAddress(code, hrp, version, bytes) == Some(s)
  {
    AddressLength(code, hrp, version, bytes, s);
    Conditions(code, hrp, version, |bytes|);
    EncodesExactly(code, hrp, version, bytes);
    AddressIsEncoded(code, hrp, version, bytes, s);
  }

  /** The encoders write exactly the addresses of BIP173 and BIP350, and refuse what has none. */
  lemma EncodesBip173(code: Code, hrp: string, version: nat, bytes: Bytes, s: string)
    ensures EncodeAddress(code, hrp, version, bytes) == Some(s) <==> Bip173Address(code, hrp, version, bytes, s)
  {
    if EncodeAddress(code, hrp, version, bytes) == Some(s) {
      EncodedFits(code, hrp, version, bytes, s);
    } else if Bip173Address(code, hrp, version, bytes, s) {
      FitsIsEncoded(code, hrp, version, bytes, s);
    }
  }

  /** No string mixes lower and upper case. */
  predicate OneCase(s: string) {
    || (forall i :: 0 <= i < |s| ==> !('A' <= s[i] <= 'Z'))
    || (forall i :: 0 <= i < |s| ==> !('a' <= s[i] <= 'z'))
  }

  lemma DecodeAddressFoldsCase(code: Code, hrp: string, addr: string)
    ensures DecodeAddress(code, hrp, addr) ==
            if OneCase(addr) then DecodeAddress(code, hrp, LowerString(addr)) else None
  {
    assert OneCase(addr) <==> NoUpper(addr) || NoLower(addr);
    DecodeFoldsCase(code, addr, MaxLength(code));
  }

  /** An address is accepted exactly when it is in one case and its lower-case form is one of
      BIP173 or BIP350, under a prefix that is not empty. */
  lemma DecodesBip173(code: Code, hrp: string, addr: string, version: nat, bytes: Bytes)
    ensures DecodeAddress(code, hrp, addr) == Some(Program(version, bytes)) <==>
            hrp != "" && OneCase(addr) && Bip173Address(code, hrp, version, bytes, LowerString(addr))
  {
    DecodeAddressFoldsCase(code, hrp, addr);
    if DecodeAddress(code, hrp, addr) == Some(Program(version, bytes)) {
      AddressIsCanonical(code, hrp, addr);
      EncodedFits(code, hrp, version, bytes, LowerString(addr));
    }
    if hrp != "" && Bip173Address(code, hrp, version, bytes, LowerString(addr)) {
      FitsIsEncoded(code, hrp, version, bytes, LowerString(addr));
      DecodeEncodeAddress(code, hrp, version, bytes);
    }
  }
}
