/** The characters of bech32 and blech32 strings. */
module Charset {
  import opened Polymod

  predicate IsUpper(c: char) {
    'A' <= c <= 'Z'
  }

  predicate IsLower(c: char) {
    'a' <= c <= 'z'
  }

  function ToLower(c: char): char {
    if IsUpper(c) then (c as int + 32) as char else c
  }

  function LowerString(s: string): (t: string)
    ensures |t| == |s| && forall i :: 0 <= i < |s| ==> t[i] == ToLower(s[i])
  {
    seq(|s|, i requires 0 <= i < |s| => ToLower(s[i]))
  }

  /** `charset`: the string "qpzry9x8gf2tvdw0s3jn54khce6mua7l". */
  function CharOf(d: Symbol): char {
    if d == 0 then 'q' else if d == 1 then 'p' else if d == 2 then 'z' else if d == 3 then 'r'
    else if d == 4 then 'y' else if d == 5 then '9' else if d == 6 then 'x' else if d == 7 then '8'
    else if d == 8 then 'g' else if d == 9 then 'f' else if d == 10 then '2' else if d == 11 then 't'
    else if d == 12 then 'v' else if d == 13 then 'd' else if d == 14 then 'w' else if d == 15 then '0'
    else if d == 16 then 's' else if d == 17 then '3' else if d == 18 then 'j' else if d == 19 then 'n'
    else if d == 20 then '5' else if d == 21 then '4' else if d == 22 then 'k' else if d == 23 then 'h'
    else if d == 24 then 'c' else if d == 25 then 'e' else if d == 26 then '6' else if d == 27 then 'm'
    else if d == 28 then 'u' else if d == 29 then 'a' else if d == 30 then '7' else 'l'
  }

  /** The symbol from `d` on whose character is `c`, or -1. */
  function SymbolFrom(d: nat, c: char): (r: int)
    ensures -1 <= r < 32
    decreases 32 - d
  {
    if d >= 32 then -1 else if CharOf(d) == c then d else SymbolFrom(d + 1, c)
  }

  /** The symbol a character stands for in either case; -1 if none. */
  function CharsetRev(c: char): (d: int)
    ensures -1 <= d < 32
  {
    SymbolFrom(0, ToLower(c))
  }

  predicate IsData(c: char) {
    CharsetRev(c) != -1
  }

  lemma CharsDiffer(d: Symbol, e: Symbol)
    requires CharOf(d) == CharOf(e)
    ensures d == e
  {
  }

  lemma {:induction false} SymbolFromFinds(d: nat, e: Symbol)
    requires d <= e
    ensures SymbolFrom(d, CharOf(e)) == e
    decreases e - d
  {
    if d < e {
      if CharOf(d) == CharOf(e) {
        CharsDiffer(d, e);
      }
      SymbolFromFinds(d + 1, e);
    }
  }

  lemma {:induction false} SymbolFromFound(d: nat, c: char)
    requires SymbolFrom(d, c) != -1
    ensures CharOf(SymbolFrom(d, c)) == c
    decreases 32 - d
  {
    if d < 32 && CharOf(d) != c {
      SymbolFromFound(d + 1, c);
    }
  }

  lemma CharsAreLower(d: Symbol)
    ensures !IsUpper(CharOf(d)) && CharOf(d) != '1' && CharOf(d) != '\0'
  {
  }

  /** The two directions are inverse on lower-case characters. */
  lemma RevOfChar(d: Symbol)
    ensures CharsetRev(CharOf(d)) == d && !IsUpper(CharOf(d)) && CharOf(d) != '1'
  {
    CharsAreLower(d);
    SymbolFromFinds(0, d);
  }

  lemma CharOfRev(c: char)
    requires IsData(c)
    ensures CharOf(CharsetRev(c)) == ToLower(c)
  {
    SymbolFromFound(0, ToLower(c));
  }

  lemma OneIsNotData(c: char)
    requires IsData(c)
    ensures c != '1'
  {
    CharOfRev(c);
    CharsAreLower(CharsetRev(c));
  }

  /** The table `charset_rev`: sixteen characters a row, none before the digits. */
  function TableEntry(i: nat): (d: int)
    requires i < 0x80
  {
    if i < 0x30 then -1
    else if i < 0x40 then [15, -1, 10, 17, 21, 20, 26, 30, 7, 5, -1, -1, -1, -1, -1, -1][i - 0x30]
    else if i < 0x50 then [-1, 29, -1, 24, 13, 25, 9, 8, 23, -1, 18, 22, 31, 27, 19, -1][i - 0x40]
    else if i < 0x60 then [1, 0, 3, 16, 11, 28, 12, 14, 6, 4, 2, -1, -1, -1, -1, -1][i - 0x50]
    else if i < 0x70 then [-1, 29, -1, 24, 13, 25, 9, 8, 23, -1, 18, 22, 31, 27, 19, -1][i - 0x60]
    else [1, 0, 3, 16, 11, 28, 12, 14, 6, 4, 2, -1, -1, -1, -1, -1][i - 0x70]
  }

  /** The entry of a character with the top bit clear. */
  function TableRev(c: char): int {
    if c as int >= 0x80 then -1 else TableEntry(c as int)
  }

  lemma TableFinds(d: Symbol)
    ensures TableRev(CharOf(d)) == d
  {
  }

  lemma UpperLikeLower(c: char)
    ensures TableRev(c) == TableRev(ToLower(c))
  {
  }

  lemma EntryInRange(c: char)
    ensures -1 <= TableRev(c) < 32
  {
  }

  lemma DigitEntry(i: nat)
    requires 0x30 <= i < 0x40 && TableEntry(i) != -1
    ensures CharOf(TableEntry(i)) == i as char
  {
  }

  lemma EarlyLetterEntry(i: nat)
    requires 0x60 <= i < 0x70 && TableEntry(i) != -1
    ensures CharOf(TableEntry(i)) == i as char
  {
  }

  lemma LateLetterEntry(i: nat)
    requires 0x70 <= i < 0x80 && TableEntry(i) != -1
    ensures CharOf(TableEntry(i)) == i as char
  {
  }

  /** Of the characters that are no capitals, the digits and the small letters have entries. */
  lemma EntryIsOf(c: char)
    requires -1 < TableRev(c) < 32 && !IsUpper(c)
    ensures CharOf(TableRev(c)) == c
  {
    var i := c as int;
    if i < 0x40 {
      DigitEntry(i);
    } else if i < 0x70 {
      EarlyLetterEntry(i);
    } else {
      LateLetterEntry(i);
    }
  }

  /** The table, capitals included, inverts the character string. */
  lemma TableIsInverse(c: char)
    ensures TableRev(c) == CharsetRev(c)
  {
    UpperLikeLower(c);
    EntryInRange(c);
    if TableRev(c) != -1 {
      EntryIsOf(ToLower(c));
      SymbolFromFinds(0, TableRev(c));
    } else if IsData(c) {
      CharOfRev(c);
      TableFinds(CharsetRev(c));
    }
  }

  function ToChars(ds: seq<Symbol>): (s: string)
    ensures |s| == |ds| && forall i :: 0 <= i < |ds| ==> s[i] == CharOf(ds[i])
  {
    seq(|ds|, i requires 0 <= i < |ds| => CharOf(ds[i]))
  }

  predicate InCharset(s: string) {
    forall i :: 0 <= i < |s| ==> IsData(s[i])
  }

  function ToSymbols(s: string): (ds: seq<Symbol>)
    requires InCharset(s)
    ensures |ds| == |s| && forall i :: 0 <= i < |s| ==> ds[i] == CharsetRev(s[i])
  {
    seq(|s|, i requires 0 <= i < |s| => CharsetRev(s[i]))
  }

  predicate NoUpper(s: string) {
    forall i :: 0 <= i < |s| ==> !IsUpper(s[i])
  }

  lemma SymbolsOfChars(ds: seq<Symbol>)
    ensures InCharset(ToChars(ds)) && ToSymbols(ToChars(ds)) == ds && NoUpper(ToChars(ds))
    ensures forall i :: 0 <= i < |ds| ==> ToChars(ds)[i] != '1'
  {
    forall i | 0 <= i < |ds|
      ensures IsData(ToChars(ds)[i]) && CharsetRev(ToChars(ds)[i]) == ds[i]
      ensures !IsUpper(ToChars(ds)[i]) && ToChars(ds)[i] != '1'
    {
      RevOfChar(ds[i]);
    }
  }

  lemma CharsOfSymbols(s: string)
    requires InCharset(s)
    ensures ToChars(ToSymbols(s)) == LowerString(s)
  {
    forall i | 0 <= i < |s| ensures ToChars(ToSymbols(s))[i] == LowerString(s)[i] {
      CharOfRev(s[i]);
    }
  }

  predicate NoLower(s: string) {
    forall i :: 0 <= i < |s| ==> !IsLower(s[i])
  }
}
