/** Bech32, Bech32m, Blech32 and Blech32m strings: the meaning of `bech32_encode`,
    `bech32_decode` and of their twins in src/blech32.c. */
module Bech32 {
  import opened Common
  import opened Words
  import opened Polymod
  import opened Charset
  import opened Checksums

  /** A decoded string; `m` tells which of the two checksum constants it carried. */
  datatype Message = Message(hrp: string, data: seq<Symbol>, m: bool)

  predicate AllSymbols(data: seq<int>) {
    forall i :: 0 <= i < |data| ==> 0 <= data[i] < 32
  }

  predicate Encodable(code: Code, hrp: string, data: seq<int>, max: nat) {
    && PrintableChars(hrp) && NoUpper(hrp)
    && |hrp| + 1 + code.Symbols() + |data| <= max
    && AllSymbols(data)
  }

  function Encode(code: Code, hrp: string, data: seq<int>, max: nat, m: bool): Option<string> {
    if Encodable(code, hrp, data, max) then
      Some(hrp + "1" + ToChars(data + Checksum(code, hrp, data, m)))
    else None
  }

  /** The number of characters after the last '1', or all if there is none. */
  function DataLength(s: string): (n: nat)
    ensures n <= |s|
  {
    if s == "" || s[|s| - 1] == '1' then 0 else 1 + DataLength(s[..|s| - 1])
  }

  /** The separator leaves a prefix before it and room for a checksum after it. */
  predicate Separated(code: Code, s: string) {
    1 + DataLength(s) < |s| && DataLength(s) >= code.Symbols()
  }

  function Prefix(s: string): string
    requires 1 + DataLength(s) < |s|
  {
    s[..|s| - 1 - DataLength(s)]
  }

  function Payload(s: string): (d: string)
    requires 1 + DataLength(s) < |s|
    ensures |d| == DataLength(s)
  {
    s[|s| - DataLength(s)..]
  }

  predicate WellFormed(code: Code, s: string, max: nat) {
    && 8 <= |s| <= max
    && Separated(code, s)
    && PrintableChars(Prefix(s)) && InCharset(Payload(s))
    && (NoUpper(s) || NoLower(s))
  }

  function LowerPrefix(p: string): (hrp: string)
    requires PrintableChars(p)
    ensures PrintableChars(hrp) && NoUpper(hrp) && |hrp| == |p|
  {
    LowerString(p)
  }

  /** Check and remove the checksum. */
  function Finish(code: Code, hrp: string, ds: seq<Symbol>): Option<Message>
    requires PrintableChars(hrp) && |ds| >= code.Symbols()
  {
    var chk := Register(code, hrp, ds);
    if chk == Bits(code.Constant(true), code.Len()) then Some(Message(hrp, ds[..|ds| - code.Symbols()], true))
    else if chk == Bits(code.Constant(false), code.Len()) then Some(Message(hrp, ds[..|ds| - code.Symbols()], false))
    else None
  }

  function Decode(code: Code, s: string, max: nat): Option<Message> {
    if WellFormed(code, s, max) then Finish(code, LowerPrefix(Prefix(s)), ToSymbols(Payload(s))) else None
  }

  // ----- splitting at the last '1'

  predicate NoOnes(d: string) {
    forall i :: 0 <= i < |d| ==> d[i] != '1'
  }

  lemma {:induction false} DataLengthOf(p: string, d: string)
    requires NoOnes(d)
    ensures DataLength(p + "1" + d) == |d|
    decreases |d|
  {
    var s := p + "1" + d;
    if d == "" {
      assert s == p + "1";
    } else {
      assert s[..|s| - 1] == p + "1" + d[..|d| - 1];
      DataLengthOf(p, d[..|d| - 1]);
    }
  }

  lemma {:induction false} SplitOf(p: string, d: string)
    requires NoOnes(d) && p != ""
    ensures DataLength(p + "1" + d) == |d| && Prefix(p + "1" + d) == p && Payload(p + "1" + d) == d
  {
    DataLengthOf(p, d);
  }

  lemma {:induction false} DataLengthSeparates(s: string)
    requires DataLength(s) < |s|
    ensures s[|s| - 1 - DataLength(s)] == '1'
    decreases |s|
  {
    if s[|s| - 1] != '1' {
      DataLengthSeparates(s[..|s| - 1]);
    }
  }

  lemma CutAt(s: string, k: nat)
    requires k < |s|
    ensures s == s[..k] + [s[k]] + s[k + 1..]
  {
  }

  lemma {:induction false} Rejoin(s: string)
    requires 1 + DataLength(s) < |s|
    ensures s == Prefix(s) + "1" + Payload(s)
  {
    DataLengthSeparates(s);
    CutAt(s, |s| - 1 - DataLength(s));
  }

  lemma InCharsetHasNoOnes(d: string)
    requires InCharset(d)
    ensures NoOnes(d)
  {
    forall i | 0 <= i < |d| ensures d[i] != '1' {
      OneIsNotData(d[i]);
    }
  }

  lemma NoUpperIsLower(s: string)
    requires NoUpper(s)
    ensures LowerString(s) == s
  {
  }

  // ----- encoding and decoding are inverse

  lemma FinishChecksum(code: Code, hrp: string, data: seq<Symbol>, m: bool)
    requires PrintableChars(hrp)
    ensures Finish(code, hrp, data + Checksum(code, hrp, data, m)) == Some(Message(hrp, data, m))
  {
    var cs := Checksum(code, hrp, data, m);
    ChecksumIsValid(code, hrp, data, m);
    ConstantsDiffer(code);
    assert (data + cs)[..|data + cs| - code.Symbols()] == data;
  }

  lemma EncodedIsWellFormed(code: Code, hrp: string, ds: seq<Symbol>, max: nat)
    requires PrintableChars(hrp) && NoUpper(hrp) && hrp != ""
    requires |ds| >= code.Symbols() && |hrp| + 1 + |ds| <= max
    ensures var s := hrp + "1" + ToChars(ds);
            WellFormed(code, s, max) && Prefix(s) == hrp && Payload(s) == ToChars(ds)
  {
    SymbolsOfChars(ds);
    SplitOf(hrp, ToChars(ds));
    assert NoUpper(hrp + "1" + ToChars(ds));
  }

  /** What encodes, under a prefix that is not empty, decodes to the same prefix, data and variant. */
  lemma DecodeEncode(code: Code, hrp: string, data: seq<int>, max: nat, m: bool)
    requires hrp != "" && Encode(code, hrp, data, max, m).Some?
    ensures Decode(code, Encode(code, hrp, data, max, m).value, max) == Some(Message(hrp, data, m))
  {
    var ds := data + Checksum(code, hrp, data, m);
    EncodedIsWellFormed(code, hrp, ds, max);
    SymbolsOfChars(ds);
    NoUpperIsLower(hrp);
    FinishChecksum(code, hrp, data, m);
  }

  lemma FinishIsChecksum(code: Code, hrp: string, ds: seq<Symbol>)
    requires PrintableChars(hrp) && |ds| >= code.Symbols() && Finish(code, hrp, ds).Some?
    ensures var x := Finish(code, hrp, ds).value;
            x.hrp == hrp && ds == x.data + Checksum(code, hrp, x.data, x.m)
  {
    var k := |ds| - code.Symbols();
    var x := Finish(code, hrp, ds).value;
    assert ds == ds[..k] + ds[k..];
    ValidIsChecksum(code, hrp, ds[..k], ds[k..], x.m);
  }

  lemma LowerOfSum(a: string, b: string)
    ensures LowerString(a + b) == LowerString(a) + LowerString(b)
  {
  }

  lemma {:induction false} LowerOfParts(s: string)
    requires 1 + DataLength(s) < |s|
    ensures LowerString(s) == LowerString(Prefix(s)) + "1" + LowerString(Payload(s))
  {
    Rejoin(s);
    LowerOfSum(Prefix(s) + "1", Payload(s));
    LowerOfSum(Prefix(s), "1");
    NoUpperIsLower("1");
  }

  lemma EncodeIs(code: Code, hrp: string, data: seq<Symbol>, max: nat, m: bool, ds: seq<Symbol>)
    requires PrintableChars(hrp) && NoUpper(hrp) && |hrp| + 1 + |ds| <= max
    requires ds == data + Checksum(code, hrp, data, m)
    ensures Encode(code, hrp, data, max, m) == Some(hrp + "1" + ToChars(ds))
  {
  }

  /** What decodes is, but for its case, the encoding of what it decodes to. */
  lemma EncodeDecode(code: Code, s: string, max: nat)
    requires Decode(code, s, max).Some?
    ensures var x := Decode(code, s, max).value;
            x.hrp != "" && Encode(code, x.hrp, x.data, max, x.m) == Some(LowerString(s))
  {
    var hrp, ds := LowerPrefix(Prefix(s)), ToSymbols(Payload(s));
    var x := Finish(code, hrp, ds).value;
    FinishIsChecksum(code, hrp, ds);
    EncodeIs(code, hrp, x.data, max, x.m, ds);
    CharsOfSymbols(Payload(s));
    LowerOfParts(s);
  }

  // ----- either case

  lemma {:induction false} DataLengthFolds(s: string)
    ensures DataLength(LowerString(s)) == DataLength(s)
    decreases |s|
  {
    if s != "" && s[|s| - 1] != '1' {
      DataLengthFolds(s[..|s| - 1]);
      assert LowerString(s)[..|s| - 1] == LowerString(s[..|s| - 1]);
    }
  }

  lemma LowerOfTake(s: string, n: nat)
    requires n <= |s|
    ensures LowerString(s)[..n] == LowerString(s[..n])
  {
  }

  lemma LowerOfDrop(s: string, n: nat)
    requires n <= |s|
    ensures LowerString(s)[n..] == LowerString(s[n..])
  {
  }

  lemma PartsAre(s: string, n: nat, p: string, d: string)
    requires n == DataLength(s) && 1 + n < |s| && p == s[..|s| - 1 - n] && d == s[|s| - n..]
    ensures Prefix(s) == p && Payload(s) == d
  {
  }

  lemma PartsFold(s: string, t: string, n: nat)
    requires n == DataLength(s) == DataLength(t) && t == LowerString(s) && 1 + n < |s|
    ensures Prefix(t) == LowerString(Prefix(s)) && Payload(t) == LowerString(Payload(s))
  {
    var p, d := s[..|s| - 1 - n], s[|s| - n..];
    LowerOfTake(s, |s| - 1 - n);
    LowerOfDrop(s, |s| - n);
    PartsAre(s, n, p, d);
    PartsAre(t, n, LowerString(p), LowerString(d));
  }

  lemma LowerIsLower(s: string)
    ensures NoUpper(LowerString(s)) && LowerString(LowerString(s)) == LowerString(s)
    ensures PrintableChars(LowerString(s)) <==> PrintableChars(s)
  {
    assert forall i :: 0 <= i < |s| ==> LowerString(s)[i] == ToLower(s[i]);
  }

  lemma SymbolsFold(s: string)
    ensures InCharset(LowerString(s)) <==> InCharset(s)
    ensures InCharset(s) ==> ToSymbols(LowerString(s)) == ToSymbols(s)
  {
    assert forall i :: 0 <= i < |s| ==> CharsetRev(LowerString(s)[i]) == CharsetRev(s[i]);
  }

  /** A string in one case is read like its lower-case form, and one that mixes them is rejected. */
  lemma {:induction false} DecodeFoldsCase(code: Code, s: string, max: nat)
    ensures Decode(code, s, max) == if NoUpper(s) || NoLower(s) then Decode(code, LowerString(s), max) else None
  {
    DataLengthFolds(s);
    LowerIsLower(s);
    if 1 + DataLength(s) < |s| {
      PartsFold(s, LowerString(s), DataLength(s));
      LowerIsLower(Prefix(s));
      SymbolsFold(Payload(s));
    }
  }

  // ----- one changed symbol

  /** The same string with another lower-case symbol at `i`. */
  predicate Substituted(s: string, i: nat, c: char) {
    i < |s| && IsData(c) && !IsUpper(c) && c != s[i]
  }

  lemma {:induction false} SubstitutedParts(s: string, i: nat, c: char)
    requires 1 + DataLength(s) < |s| && |s| - DataLength(s) <= i && Substituted(s, i, c)
    requires InCharset(Payload(s))
    ensures var t := s[i := c];
            DataLength(t) == DataLength(s) && Prefix(t) == Prefix(s)
            && Payload(t) == Payload(s)[i - (|s| - DataLength(s)) := c]
  {
    var d := Payload(s)[i - (|s| - DataLength(s)) := c];
    assert InCharset(d);
    InCharsetHasNoOnes(d);
    Rejoin(s);
    assert s[i := c] == Prefix(s) + "1" + d;
    SplitOf(Prefix(s), d);
  }

  lemma DifferentSymbol(b: char, c: char)
    requires IsData(b) && IsData(c) && !IsUpper(b) && !IsUpper(c) && b != c
    ensures CharsetRev(b) != CharsetRev(c)
  {
    CharOfRev(b);
    CharOfRev(c);
  }

  lemma RegisterChanges(code: Code, hrp: string, ds: seq<Symbol>, j: nat, d: Symbol)
    requires PrintableChars(hrp) && j < |ds| && d != ds[j]
    ensures Register(code, hrp, ds[j := d]) != Register(code, hrp, ds)
  {
    var k := |Expand(hrp)| + j;
    assert Expand(hrp) + ds[j := d] == (Expand(hrp) + ds)[k := d];
    OneSymbolMatters(code, Bits(1, code.Len()), Expand(hrp) + ds, k, d);
  }

  lemma SubstitutedSymbols(s: string, i: nat, c: char)
    requires 1 + DataLength(s) < |s| && |s| - DataLength(s) <= i && Substituted(s, i, c)
    requires InCharset(Payload(s)) && NoUpper(s)
    ensures var t, j := s[i := c], i - (|s| - DataLength(s));
            && DataLength(t) == DataLength(s) && Prefix(t) == Prefix(s) && InCharset(Payload(t))
            && ToSymbols(Payload(t)) == ToSymbols(Payload(s))[j := CharsetRev(c)]
            && ToSymbols(Payload(s))[j] != CharsetRev(c)
  {
    SubstitutedParts(s, i, c);
    DifferentSymbol(Payload(s)[i - (|s| - DataLength(s))], c);
  }

  /** The messages have different constants and agree but for the data symbol at `j`. */
  predicate DifferElsewhere(x: Message, y: Message, j: nat) {
    && y.m != x.m && y.hrp == x.hrp && |y.data| == |x.data|
    && forall k :: 0 <= k < |x.data| && k != j ==> y.data[k] == x.data[k]
  }

  /** Nothing decodes, or a message with the other constant. */
  predicate Disturbed(x: Message, y: Option<Message>, j: nat) {
    y == None || DifferElsewhere(x, y.value, j)
  }

  /** Changing one symbol of the payload changes the variant or spoils the checksum. */
  lemma FinishChanges(code: Code, hrp: string, ds: seq<Symbol>, j: nat, d: Symbol)
    requires PrintableChars(hrp) && |ds| >= code.Symbols() && j < |ds| && d != ds[j]
    requires Finish(code, hrp, ds).Some? && Finish(code, hrp, ds[j := d]).Some?
    ensures var x, y := Finish(code, hrp, ds).value, Finish(code, hrp, ds[j := d]).value;
            DifferElsewhere(x, y, j)
  {
    RegisterChanges(code, hrp, ds, j, d);
  }

  /** Replacing one symbol, checksum included, never decodes with the same constant. */
  lemma OneSubstitution(code: Code, s: string, max: nat, i: nat, c: char)
    requires Decode(code, s, max).Some? && NoUpper(s)
    requires |s| - DataLength(s) <= i && Substituted(s, i, c)
    ensures Disturbed(Decode(code, s, max).value, Decode(code, s[i := c], max), i - (|s| - DataLength(s)))
  {
    SubstitutedSymbols(s, i, c);
    if Decode(code, s[i := c], max).Some? {
      FinishChanges(code, LowerPrefix(Prefix(s)), ToSymbols(Payload(s)), i - (|s| - DataLength(s)), CharsetRev(c));
    }
  }
}
