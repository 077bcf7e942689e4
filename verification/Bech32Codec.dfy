/** The loops of `bech32_encode`, `bech32_decode`, `blech32_encode` and `blech32_decode`,
    proved to compute Bech32.Encode and Bech32.Decode. */
module Bech32Codec {
  import opened Buffers
  import opened Common
  import opened Words
  import opened Polymod
  import opened Charset
  import opened Checksums
  import opened Bech32

  // ----- one more symbol

  lemma AbsorbSnoc(code: Code, s: Word, ds: seq<Symbol>, d: Symbol)
    requires |s| == code.Len()
    ensures Absorb(code, s, ds + [d]) == Feed(code, Absorb(code, s, ds), d)
  {
    assert (ds + [d])[..|ds|] == ds;
  }

  lemma FeedZero(code: Code, s: Word)
    requires |s| == code.Len()
    ensures Feed(code, s, 0) == Step(code, s)
  {
    ZeroSymbol(code);
    XorNothing(Step(code, s));
  }

  /** The register after the prefix, in the two passes the code makes over it. */
  lemma RegisterInPasses(code: Code, hrp: string, data: seq<Symbol>)
    requires PrintableChars(hrp)
    ensures var high := Absorb(code, Bits(1, code.Len()), HighBits(hrp));
            Register(code, hrp, data) == Absorb(code, Absorb(code, Step(code, high), LowBits5(hrp)), data)
  {
    var start, high := Bits(1, code.Len()), Absorb(code, Bits(1, code.Len()), HighBits(hrp));
    AbsorbAppend(code, start, Expand(hrp), data);
    AbsorbAppend(code, start, HighBits(hrp) + [0], LowBits5(hrp));
    AbsorbSnoc(code, start, HighBits(hrp), 0);
    FeedZero(code, high);
  }

  // ----- encoding

  lemma CharsSnoc(s: string, i: nat)
    requires i < |s|
    ensures PrintableChars(s[..i + 1]) <==> PrintableChars(s[..i]) && 33 <= s[i] as int <= 126
    ensures NoUpper(s[..i + 1]) <==> NoUpper(s[..i]) && !IsUpper(s[i])
    ensures NoLower(s[..i + 1]) <==> NoLower(s[..i]) && !IsLower(s[i])
  {
    assert s[..i + 1] == s[..i] + [s[i]];
  }

  lemma HighBitsSnoc(p: string, i: nat)
    requires i < |p| && PrintableChars(p[..i + 1])
    ensures PrintableChars(p[..i]) && 33 <= p[i] as int <= 126
    ensures HighBits(p[..i + 1]) == HighBits(p[..i]) + [p[i] as int / 32]
  {
    assert p[..i] == p[..i + 1][..i] && p[i] == p[..i + 1][i];
  }

  lemma LowBitsSnoc(p: string, i: nat)
    requires i < |p| && PrintableChars(p)
    ensures PrintableChars(p[..i]) && PrintableChars(p[..i + 1])
    ensures LowBits5(p[..i + 1]) == LowBits5(p[..i]) + [p[i] as int % 32]
  {
  }

  /** Lines 58-66: check the prefix and absorb its high bits. */
  method ScanPrefix(code: Code, hrp: string) returns (ok: bool, chk: Word)
    ensures ok <==> PrintableChars(hrp) && NoUpper(hrp)
    ensures ok ==> chk == Absorb(code, Bits(1, code.Len()), HighBits(hrp))
  {
    chk := Bits(1, code.Len());
    for i := 0 to |hrp|
      invariant PrintableChars(hrp[..i]) && NoUpper(hrp[..i])
      invariant chk == Absorb(code, Bits(1, code.Len()), HighBits(hrp[..i]))
    {
      var ch := hrp[i];
      if !(33 <= ch as int <= 126) || IsUpper(ch) {
        return false, chk;
      }
      CharsSnoc(hrp, i);
      HighBitsSnoc(hrp, i);
      AbsorbSnoc(code, Bits(1, code.Len()), HighBits(hrp[..i]), ch as int / 32);
      chk := Feed(code, chk, ch as int / 32);
    }
    assert hrp[..|hrp|] == hrp;
    ok := true;
  }

  /** Lines 69-72: absorb the prefix's low bits and copy it. */
  method WritePrefix(output: array<char>, code: Code, hrp: string, start: Word) returns (chk: Word)
    requires |start| == code.Len() && PrintableChars(hrp) && |hrp| <= output.Length
    modifies output
    ensures chk == Absorb(code, start, LowBits5(hrp))
    ensures output[..|hrp|] == hrp
  {
    chk := start;
    for i := 0 to |hrp|
      invariant PrintableChars(hrp[..i]) && chk == Absorb(code, start, LowBits5(hrp[..i]))
      invariant output[..i] == hrp[..i]
    {
      LowBitsSnoc(hrp, i);
      AbsorbSnoc(code, start, LowBits5(hrp[..i]), hrp[i] as int % 32);
      chk := Feed(code, chk, hrp[i] as int % 32);
      output[i] := hrp[i];
    }
    assert hrp[..|hrp|] == hrp;
  }

  lemma ToCharsSnoc(ds: seq<Symbol>, d: Symbol)
    ensures ToChars(ds + [d]) == ToChars(ds) + [CharOf(d)]
  {
  }

  lemma DataSnoc(code: Code, start: Word, data: seq<nat>, i: nat)
    requires i < |data| && AllSymbols(data[..i]) && data[i] < 32 && |start| == code.Len()
    ensures AllSymbols(data[..i + 1]) && ToChars(data[..i + 1]) == ToChars(data[..i]) + [CharOf(data[i])]
    ensures Absorb(code, start, data[..i + 1]) == Feed(code, Absorb(code, start, data[..i]), data[i])
  {
    assert data[..i + 1] == data[..i] + [data[i]];
    AbsorbSnoc(code, start, data[..i], data[i]);
    ToCharsSnoc(data[..i], data[i]);
  }

  lemma OneMore(s: string, at: nat, i: nat, x: string, c: char)
    requires at + i < |s| && s[at..at + i] == x && s[at + i] == c
    ensures s[at..at + i + 1] == x + [c]
  {
  }

  /** Lines 74-78: absorb the data and write its characters. */
  method WriteData(output: array<char>, at: nat, code: Code, data: seq<nat>, start: Word) returns (ok: bool, chk: Word)
    requires |start| == code.Len() && at + |data| <= output.Length
    modifies output
    ensures ok <==> AllSymbols(data)
    ensures ok ==> chk == Absorb(code, start, data) && output[at..at + |data|] == ToChars(data)
    ensures output[..at] == old(output[..at])
  {
    chk := start;
    for i := 0 to |data|
      invariant AllSymbols(data[..i]) && chk == Absorb(code, start, data[..i])
      invariant output[at..at + i] == ToChars(data[..i]) && output[..at] == old(output[..at])
    {
      if data[i] >= 32 {
        return false, chk;
      }
      DataSnoc(code, start, data, i);
      chk := Feed(code, chk, data[i]);
      output[at + i] := CharOf(data[i]);
      OneMore(output[..], at, i, ToChars(data[..i]), CharOf(data[i]));
    }
    assert data[..|data|] == data;
    ok := true;
  }

  /** Lines 79-81: room for the checksum. */
  method AbsorbZeros(code: Code, start: Word) returns (chk: Word)
    requires |start| == code.Len()
    ensures chk == Absorb(code, start, NoSymbols(code.Symbols()))
  {
    chk := start;
    for i := 0 to code.Symbols()
      invariant chk == Absorb(code, start, NoSymbols(i))
    {
      assert NoSymbols(i + 1) == NoSymbols(i) + [0];
      AbsorbSnoc(code, start, NoSymbols(i), 0);
      FeedZero(code, chk);
      chk := Step(code, chk);
    }
  }

  /** What the buffer holds as a C string. */
  predicate Holds(buffer: array<char>, s: string)
    reads buffer
  {
    |s| < buffer.Length && buffer[..|s|] == s && buffer[|s|] == '\0'
  }

  lemma ToCharsAppend(ds: seq<Symbol>, es: seq<Symbol>)
    ensures ToChars(ds + es) == ToChars(ds) + ToChars(es)
  {
  }

  /** Lines 83-86: write the checksum and the terminator. */
  method WriteChecksum(output: array<char>, at: nat, code: Code, w: Word, ghost front: string)
    requires |w| == code.Len() && at + code.Symbols() < output.Length
    requires at == |front| && output[..at] == front
    modifies output
    ensures Holds(output, front + ToChars(SymbolsOf(code, w)))
  {
    ghost var cs := ToChars(SymbolsOf(code, w));
    for i := 0 to code.Symbols()
      invariant output[at..at + i] == cs[..i] && output[..at] == front
    {
      output[at + i] := CharOf(SymbolAt(code, w, i));
      assert output[at..at + i + 1] == output[at..at + i] + [CharOf(SymbolAt(code, w, i))];
    }
    Adjacent(output[..], 0, front, cs);
    assert output[..at + |cs|] == output[0..at + |cs|];
    output[at + code.Symbols()] := '\0';
  }

  lemma Assembled(hrp: string, data: seq<Symbol>, cs: seq<Symbol>)
    ensures (hrp + "1" + ToChars(data)) + ToChars(cs) == hrp + "1" + ToChars(data + cs)
  {
    ToCharsAppend(data, cs);
  }

  /** The five pieces of an encoding. */
  method WriteAll(output: array<char>, code: Code, hrp: string, data: seq<nat>, high: Word, m: bool) returns (ok: bool)
    requires PrintableChars(hrp) && |hrp| + 1 + |data| + code.Symbols() < output.Length
    requires high == Absorb(code, Bits(1, code.Len()), HighBits(hrp))
    modifies output
    ensures ok <==> AllSymbols(data)
    ensures ok ==> Holds(output, hrp + "1" + ToChars(data + Checksum(code, hrp, data, m)))
  {
    var chk := WritePrefix(output, code, hrp, Step(code, high));
    var n := |hrp|;
    output[n] := '1';
    n := n + 1;
    ghost var front := hrp + "1";
    assert output[..|front|] == front;
    ok, chk := WriteData(output, n, code, data, chk);
    if ok {
      RegisterInPasses(code, hrp, data);
      chk := AbsorbZeros(code, chk);
      chk := Xor(chk, Bits(code.Constant(m), code.Len()));
      ghost var middle := front + ToChars(data);
      Adjacent(output[..], 0, front, ToChars(data));
      n := n + |data|;
      WriteChecksum(output, n, code, chk, middle);
      Assembled(hrp, data, Checksum(code, hrp, data, m));
    }
  }

  /** `bech32_encode` and `blech32_encode`. */
  method EncodeString(output: array<char>, code: Code, hrp: string, data: seq<nat>, max: nat, m: bool)
    returns (ok: bool)
    requires output.Length > max
    modifies output
    ensures ok <==> Encode(code, hrp, data, max, m).Some?
    ensures ok ==> Holds(output, Encode(code, hrp, data, max, m).value)
  {
    var high;
    ok, high := ScanPrefix(code, hrp);
    if !ok || |hrp| + code.Symbols() + 1 + |data| > max {
      return false;
    }
    ok := WriteAll(output, code, hrp, data, high, m);
  }

  // ----- decoding

  lemma {:induction false} DataLengthBack(s: string, n: nat)
    requires n < |s| && NoOnes(s[|s| - n..])
    ensures DataLength(s) == n + DataLength(s[..|s| - n])
    decreases n
  {
    if n > 0 {
      var t := s[..|s| - 1];
      assert s[|s| - n..][n - 1] == s[|s| - 1];
      assert t[|t| - (n - 1)..] == s[|s| - n..][..n - 1];
      DataLengthBack(t, n - 1);
      assert t[..|t| - (n - 1)] == s[..|s| - n];
    } else {
      assert s[..|s|] == s;
    }
  }

  /** Lines 98-101: the last '1'. */
  method FindSeparator(s: string) returns (n: nat)
    requires s != ""
    ensures n == DataLength(s)
  {
    n := 0;
    while n < |s| && s[|s| - 1 - n] != '1'
      invariant n <= |s| && NoOnes(s[|s| - n..])
    {
      n := n + 1;
    }
    if n < |s| {
      DataLengthBack(s, n);
    } else {
      DataLengthBack(s, n - 1);
    }
  }

  /** What the loop over the prefix has seen and copied. */
  predicate Folded(code: Code, buffer: string, p: string, i: nat, chk: Word, lower: bool, upper: bool)
    requires i <= |p|
  {
    && i <= |buffer| && PrintableChars(p[..i])
    && buffer[..i] == LowerPrefix(p[..i])
    && chk == Absorb(code, Bits(1, code.Len()), HighBits(LowerPrefix(p[..i])))
    && lower == !NoLower(p[..i]) && upper == !NoUpper(p[..i])
  }

  lemma LowerSnoc(p: string, i: nat)
    requires i < |p|
    ensures LowerString(p[..i + 1]) == LowerString(p[..i]) + [ToLower(p[i])]
  {
  }

  lemma FoldedNext(code: Code, before: string, buffer: string, p: string, i: nat, chk: Word, lower: bool, upper: bool)
    requires i < |p| && i < |before| == |buffer| && 33 <= p[i] as int <= 126
    requires Folded(code, before, p, i, chk, lower, upper)
    requires buffer == before[i := ToLower(p[i])]
    ensures |chk| == code.Len() && ToLower(p[i]) as int <= 126
    ensures Folded(code, buffer, p, i + 1, Feed(code, chk, ToLower(p[i]) as int / 32), lower || IsLower(p[i]),
                   upper || IsUpper(p[i]))
  {
    var c := ToLower(p[i]);
    CharsSnoc(p, i);
    HighBitsSnoc(p, i);
    LowerSnoc(p, i);
    assert HighBits(LowerPrefix(p[..i + 1])) == HighBits(LowerPrefix(p[..i])) + [c as int / 32];
    AbsorbSnoc(code, Bits(1, code.Len()), HighBits(LowerPrefix(p[..i])), c as int / 32);
    assert buffer[..i + 1] == before[..i] + [c];
  }

  /** Lines 107-121: check the prefix, fold its case, absorb its high bits. */
  method ReadPrefix(hrp: array<char>, code: Code, p: string) returns (ok: bool, chk: Word, lower: bool, upper: bool)
    requires |p| < hrp.Length
    modifies hrp
    ensures ok <==> PrintableChars(p)
    ensures ok ==> Holds(hrp, LowerPrefix(p)) && lower == !NoLower(p) && upper == !NoUpper(p)
    ensures ok ==> chk == Absorb(code, Bits(1, code.Len()), HighBits(LowerPrefix(p)))
  {
    chk, lower, upper := Bits(1, code.Len()), false, false;
    for i := 0 to |p|
      invariant Folded(code, hrp[..], p, i, chk, lower, upper)
    {
      var ch := p[i];
      if !(33 <= ch as int <= 126) {
        return false, chk, lower, upper;
      }
      ghost var before, wasLower, wasUpper := hrp[..], lower, upper;
      if IsLower(ch) {
        lower := true;
      } else if IsUpper(ch) {
        upper := true;
        ch := ToLower(ch);
      }
      hrp[i] := ch;
      FoldedNext(code, before, hrp[..], p, i, chk, wasLower, wasUpper);
      chk := Feed(code, chk, ch as int / 32);
    }
    assert p[..|p|] == p;
    hrp[|p|] := '\0';
    ok := true;
  }

  lemma SameLowBits(p: string)
    requires PrintableChars(p)
    ensures LowBits5(LowerPrefix(p)) == LowBits5(p)
  {
  }

  /** Lines 123-125: the low bits do not depend on the case. */
  method ReadLowBits(code: Code, p: string, start: Word) returns (chk: Word)
    requires |start| == code.Len() && PrintableChars(p)
    ensures chk == Absorb(code, start, LowBits5(LowerPrefix(p)))
  {
    chk := start;
    for i := 0 to |p|
      invariant PrintableChars(p[..i]) && chk == Absorb(code, start, LowBits5(p[..i]))
    {
      LowBitsSnoc(p, i);
      AbsorbSnoc(code, start, LowBits5(p[..i]), p[i] as int % 32);
      chk := Feed(code, chk, p[i] as int % 32);
    }
    assert p[..|p|] == p;
    SameLowBits(p);
  }

  lemma InCharsetSnoc(d: string, i: nat)
    requires i < |d|
    ensures InCharset(d[..i + 1]) <==> InCharset(d[..i]) && IsData(d[i])
  {
    assert d[..i + 1] == d[..i] + [d[i]];
  }

  lemma AbsorbPayload(code: Code, start: Word, d: string, i: nat)
    requires |start| == code.Len() && i < |d| && InCharset(d[..i + 1]) && InCharset(d[..i])
    ensures ToSymbols(d[..i + 1]) == ToSymbols(d[..i]) + [CharsetRev(d[i])]
    ensures Absorb(code, start, ToSymbols(d[..i + 1])) ==
            Feed(code, Absorb(code, start, ToSymbols(d[..i])), CharsetRev(d[i]))
  {
    var v: Symbol := CharsetRev(d[i]);
    assert d[..i + 1] == d[..i] + [d[i]];
    assert ToSymbols(d[..i + 1]) == ToSymbols(d[..i]) + [v];
    AbsorbSnoc(code, start, ToSymbols(d[..i]), v);
  }

  /** Line 128: `charset_rev`. */
  method Lookup(c: char) returns (v: int)
    ensures v == CharsetRev(c)
  {
    TableIsInverse(c);
    v := TableRev(c);
  }

  /** What the loop over the payload has seen. */
  predicate Seen(d: string, i: nat, lower: bool, upper: bool)
    requires i <= |d|
  {
    InCharset(d[..i]) && lower == !NoLower(d[..i]) && upper == !NoUpper(d[..i])
  }

  lemma SeenNext(d: string, i: nat, lower: bool, upper: bool)
    requires i < |d| && Seen(d, i, lower, upper)
    ensures InCharset(d[..i])
    ensures IsData(d[i]) ==> Seen(d, i + 1, lower || IsLower(d[i]), upper || IsUpper(d[i]))
    ensures IsData(d[i]) <==> InCharset(d[..i + 1])
    ensures !IsData(d[i]) ==> !InCharset(d)
  {
    CharsSnoc(d, i);
    InCharsetSnoc(d, i);
  }

  /** The buffer holds the symbols seen so far, but for the checksum's. */
  predicate Kept(buffer: seq<nat>, d: string, i: nat, keep: nat)
    requires i <= |d| && keep <= |d|
  {
    var k := if i < keep then i else keep;
    k <= |buffer| && InCharset(d[..k]) && buffer[..k] == ToSymbols(d[..k])
  }

  /** Lines 134-137: absorb a symbol, and store it unless it is of the checksum. */
  method ReadSymbol(data: array<nat>, code: Code, d: string, i: nat, v: Symbol, start: Word, chkIn: Word)
    returns (chk: Word)
    requires |start| == code.Len() && i < |d| && code.Symbols() <= |d| <= data.Length + code.Symbols()
    requires InCharset(d[..i]) && InCharset(d[..i + 1]) && v == CharsetRev(d[i])
    requires chkIn == Absorb(code, start, ToSymbols(d[..i]))
    requires Kept(data[..], d, i, |d| - code.Symbols())
    modifies data
    ensures chk == Absorb(code, start, ToSymbols(d[..i + 1]))
    ensures Kept(data[..], d, i + 1, |d| - code.Symbols())
  {
    AbsorbPayload(code, start, d, i);
    chk := Feed(code, chkIn, v);
    if i + code.Symbols() < |d| {
      data[i] := v;
      assert data[..i + 1] == data[..i] + [v];
    }
  }

  /** Lines 127-139: absorb the payload, keep all but the checksum. */
  method ReadPayload(data: array<nat>, code: Code, d: string, start: Word)
    returns (ok: bool, chk: Word, lower: bool, upper: bool)
    requires |start| == code.Len() && code.Symbols() <= |d| <= data.Length + code.Symbols()
    modifies data
    ensures ok <==> InCharset(d)
    ensures ok ==> chk == Absorb(code, start, ToSymbols(d)) && lower == !NoLower(d) && upper == !NoUpper(d)
    ensures ok ==> data[..|d| - code.Symbols()] == ToSymbols(d)[..|d| - code.Symbols()]
  {
    chk, lower, upper := start, false, false;
    for i := 0 to |d|
      invariant Seen(d, i, lower, upper)
      invariant chk == Absorb(code, start, ToSymbols(d[..i]))
      invariant Kept(data[..], d, i, |d| - code.Symbols())
    {
      var v := Lookup(d[i]);
      SeenNext(d, i, lower, upper);
      if IsLower(d[i]) { lower := true; }
      if IsUpper(d[i]) { upper := true; }
      if v == -1 {
        return false, chk, lower, upper;
      }
      chk := ReadSymbol(data, code, d, i, v, start, chk);
    }
    assert d[..|d|] == d;
    ok := true;
  }

  lemma CasesOfSum(a: string, b: string)
    ensures NoLower(a + b) <==> NoLower(a) && NoLower(b)
    ensures NoUpper(a + b) <==> NoUpper(a) && NoUpper(b)
  {
    assert forall i :: 0 <= i < |a| ==> (a + b)[i] == a[i];
    assert forall i :: 0 <= i < |b| ==> (a + b)[|a| + i] == b[i];
  }

  lemma CasesOfParts(s: string)
    requires 1 + DataLength(s) < |s|
    ensures NoLower(s) <==> NoLower(Prefix(s)) && NoLower(Payload(s))
    ensures NoUpper(s) <==> NoUpper(Prefix(s)) && NoUpper(Payload(s))
  {
    Rejoin(s);
    CasesOfSum(Prefix(s), "1");
    CasesOfSum(Prefix(s) + "1", Payload(s));
  }

  /** What the two parts must satisfy. */
  predicate GoodParts(p: string, d: string) {
    PrintableChars(p) && InCharset(d) && ((NoUpper(p) && NoUpper(d)) || (NoLower(p) && NoLower(d)))
  }

  lemma DecodeIsFinish(code: Code, s: string, max: nat)
    requires 8 <= |s| <= max && Separated(code, s) && PrintableChars(Prefix(s)) && InCharset(Payload(s))
    ensures Decode(code, s, max) ==
            if NoUpper(s) || NoLower(s) then Finish(code, LowerPrefix(Prefix(s)), ToSymbols(Payload(s))) else None
  {
  }

  /** Decoding is separating, and finishing with two good parts. */
  lemma DecodeOfParts(code: Code, s: string, max: nat)
    ensures Decode(code, s, max) ==
            if 8 <= |s| <= max && Separated(code, s) && GoodParts(Prefix(s), Payload(s)) then
              Finish(code, LowerPrefix(Prefix(s)), ToSymbols(Payload(s)))
            else None
  {
    if 8 <= |s| <= max && Separated(code, s) {
      CasesOfParts(s);
      if PrintableChars(Prefix(s)) && InCharset(Payload(s)) {
        DecodeIsFinish(code, s, max);
      }
    }
  }

  /** Lines 107-144: what follows the separation. */
  method DecodeParts(hrp: array<char>, data: array<nat>, code: Code, p: string, d: string) returns (ok: bool, m: bool)
    requires |p| < hrp.Length && code.Symbols() <= |d| <= data.Length + code.Symbols()
    modifies hrp, data
    ensures ok <==> GoodParts(p, d) && Finish(code, LowerPrefix(p), ToSymbols(d)).Some?
    ensures ok ==> var x := Finish(code, LowerPrefix(p), ToSymbols(d)).value;
            Holds(hrp, x.hrp) && data[..|d| - code.Symbols()] == x.data && m == x.m
  {
    m := false;
    var chk, lower, upper, lower', upper';
    ok, chk, lower, upper := ReadPrefix(hrp, code, p);
    if !ok {
      return;
    }
    chk := ReadLowBits(code, p, Step(code, chk));
    ok, chk, lower', upper' := ReadPayload(data, code, d, chk);
    if !ok || ((lower || lower') && (upper || upper')) {
      return false, m;
    }
    RegisterInPasses(code, LowerPrefix(p), ToSymbols(d));
    m := chk == Bits(code.Constant(true), code.Len());
    ok := chk == Bits(code.Constant(false), code.Len()) || m;
  }

  /** `bech32_decode` and `blech32_decode`. */
  method DecodeString(hrp: array<char>, data: array<nat>, code: Code, input: string, max: nat)
    returns (ok: bool, dataLen: nat, m: bool)
    requires hrp.Length + code.Symbols() >= max && data.Length + code.Symbols() + 2 >= max
    modifies hrp, data
    ensures ok <==> Decode(code, input, max).Some?
    ensures ok ==> var x := Decode(code, input, max).value;
            Holds(hrp, x.hrp) && dataLen == |x.data| <= data.Length && data[..dataLen] == x.data && m == x.m
  {
    dataLen, m := 0, false;
    DecodeOfParts(code, input, max);
    if |input| < 8 || |input| > max {
      return false, dataLen, m;
    }
    dataLen := FindSeparator(input);
    if 1 + dataLen >= |input| || dataLen < code.Symbols() {
      return false, dataLen, m;
    }
    var p, d := input[..|input| - (1 + dataLen)], input[|input| - dataLen..];
    assert p == Prefix(input) && d == Payload(input);
    dataLen := dataLen - code.Symbols();
    ok, m := DecodeParts(hrp, data, code, p, d);
  }
}
