/** Base58 as a mathematical codec: the meaning of src/base_58.c, and its laws. */
module Base58 {
  import opened Common
  import opened Radix

  /** `byte_to_base58`. */
  function DigitChar(d: nat): char
    requires d < 58
  {
    if d < 9 then (49 + d) as char           // '1'..'9'
    else if d < 17 then (56 + d) as char     // 'A'..'H'
    else if d < 22 then (57 + d) as char     // 'J'..'N'
    else if d < 33 then (58 + d) as char     // 'P'..'Z'
    else if d < 44 then (64 + d) as char     // 'a'..'k'
    else (65 + d) as char                    // 'm'..'z'
  }

  /** `base58_to_byte`, whose entries are digits plus one, zero marking an invalid character. */
  function CharDigitPlusOne(c: char): (d: nat)
    ensures d <= 58
  {
    if '1' <= c <= '9' then c as int - 48
    else if 'A' <= c <= 'H' then c as int - 55
    else if 'J' <= c <= 'N' then c as int - 56
    else if 'P' <= c <= 'Z' then c as int - 57
    else if 'a' <= c <= 'k' then c as int - 63
    else if 'm' <= c <= 'z' then c as int - 64
    else 0
  }

  predicate ValidChars(s: string) {
    forall i :: 0 <= i < |s| ==> CharDigitPlusOne(s[i]) != 0
  }

  function ToDigits(s: string): (ds: seq<int>)
    requires ValidChars(s)
    ensures |ds| == |s| && Digits(58, ds) && forall i :: 0 <= i < |s| ==> ds[i] == CharDigitPlusOne(s[i]) - 1
  {
    seq(|s|, i requires 0 <= i < |s| => CharDigitPlusOne(s[i]) - 1)
  }

  function ToChars(ds: seq<int>): (s: string)
    requires Digits(58, ds)
    ensures |s| == |ds| && forall i :: 0 <= i < |ds| ==> s[i] == DigitChar(ds[i])
  {
    seq(|ds|, i requires 0 <= i < |ds| => DigitChar(ds[i]))
  }

  function Ones(n: nat): (s: string)
    ensures |s| == n && forall i :: 0 <= i < n ==> s[i] == '1'
  {
    seq(n, _ => '1')
  }

  function LeadingOnes(s: string): (n: nat)
    ensures n <= |s| && s[..n] == Ones(n) && (n < |s| ==> s[n] != '1')
  {
    if s == [] || s[0] != '1' then 0 else 1 + LeadingOnes(s[1..])
  }

  function LeadingZeros(b: Bytes): (n: nat)
    ensures n <= |b| && b[..n] == Zeros(n) && (n < |b| ==> b[n] != 0)
  {
    if b == [] || b[0] != 0 then 0 else 1 + LeadingZeros(b[1..])
  }

  /** Every leading zero byte is a '1'; what follows is one number in base 58. */
  function Encode(b: Bytes): string {
    var z := LeadingZeros(b);
    ValueBound(256, b[z..]);
    Ones(z) + ToChars(Minimal(58, Value(256, b[z..])))
  }

  /** The empty string and strings with invalid characters do not decode. */
  function Decode(s: string): Option<Bytes> {
    var n := LeadingOnes(s);
    if s == [] || !ValidChars(s[n..]) then None
    else
      ValueBound(58, ToDigits(s[n..]));
      Some(Zeros(n) + Minimal(256, Value(58, ToDigits(s[n..]))))
  }

  // ----- the alphabet

  lemma CharOfDigit(d: nat)
    requires d < 58
    ensures CharDigitPlusOne(DigitChar(d)) == d + 1
    ensures DigitChar(d) == '1' <==> d == 0
  {
  }

  lemma DigitOfChar(c: char)
    requires CharDigitPlusOne(c) != 0
    ensures DigitChar(CharDigitPlusOne(c) - 1) == c
  {
  }

  lemma DigitsOfChars(ds: seq<int>)
    requires Digits(58, ds)
    ensures ValidChars(ToChars(ds)) && ToDigits(ToChars(ds)) == ds
  {
    forall i | 0 <= i < |ds| ensures CharDigitPlusOne(ToChars(ds)[i]) == ds[i] + 1 {
      CharOfDigit(ds[i]);
    }
  }

  lemma CharsOfDigits(s: string)
    requires ValidChars(s)
    ensures ToChars(ToDigits(s)) == s
  {
    forall i | 0 <= i < |s| ensures ToChars(ToDigits(s))[i] == s[i] {
      DigitOfChar(s[i]);
    }
  }

  // ----- leading zeros and ones

  lemma {:induction false} LeadingOnesUnique(n: nat, t: string)
    requires t == [] || t[0] != '1'
    ensures LeadingOnes(Ones(n) + t) == n
    decreases n
  {
    if n > 0 {
      assert (Ones(n) + t)[1..] == Ones(n - 1) + t;
      LeadingOnesUnique(n - 1, t);
    } else {
      assert Ones(n) + t == t;
    }
  }

  lemma {:induction false} LeadingZerosUnique(n: nat, t: Bytes)
    requires t == [] || t[0] != 0
    ensures LeadingZeros(Zeros(n) + t) == n
    decreases n
  {
    if n > 0 {
      assert (Zeros(n) + t)[1..] == Zeros(n - 1) + t;
      LeadingZerosUnique(n - 1, t);
    } else {
      assert Zeros(n) + t == t;
    }
  }

  // ----- the codec is a bijection

  lemma EncodedDigits(b: Bytes)
    ensures var z := LeadingZeros(b);
            var ds := Minimal(58, (ValueBound(256, b[z..]); Value(256, b[z..])));
            && LeadingOnes(Encode(b)) == z && Encode(b)[z..] == ToChars(ds)
  {
    var z := LeadingZeros(b);
    ValueBound(256, b[z..]);
    var ds := Minimal(58, Value(256, b[z..]));
    if ds != [] {
      CharOfDigit(ds[0]);
    }
    LeadingOnesUnique(z, ToChars(ds));
  }

  lemma EncodeNotEmpty(b: Bytes)
    requires b != []
    ensures Encode(b) != []
  {
    var z := LeadingZeros(b);
    if z == 0 {
      ValueBound(256, b[z..]);
      LeadingDigit(256, b[z..]);
      PowMonotonic(256, 0, |b| - 1);
      assert Minimal(58, Value(256, b[z..])) != [];
    }
  }

  /** Decoding an encoding gives the bytes back. */
  lemma DecodeEncode(b: Bytes)
    requires b != []
    ensures Decode(Encode(b)) == Some(b)
  {
    var z := LeadingZeros(b);
    var t := b[z..];
    ValueBound(256, t);
    var ds := Minimal(58, Value(256, t));
    EncodedDigits(b);
    DigitsOfChars(ds);
    ValueMinimal(58, Value(256, t));
    MinimalValue(256, t);
    assert b == Zeros(z) + t;
    EncodeNotEmpty(b);
  }

  /** A string after its leading ones: no digits, or a first digit that is not zero. */
  lemma RestIsCanonical(s: string)
    requires ValidChars(s) && (s != [] ==> s[0] != '1')
    ensures Value(58, ToDigits(s)) >= 0 && Minimal(58, Value(58, ToDigits(s))) == ToDigits(s)
  {
    if s != [] {
      DigitOfChar(s[0]);
    }
    MinimalValue(58, ToDigits(s));
  }

  lemma EncodeAfterZeros(n: nat, t: Bytes, x: nat)
    requires (t != [] ==> t[0] != 0) && Value(256, t) == x
    ensures Encode(Zeros(n) + t) == Ones(n) + ToChars(Minimal(58, x))
  {
    LeadingZerosUnique(n, t);
    assert (Zeros(n) + t)[n..] == t;
  }

  /** Leading ones and a number without leading zeros are encoded from zeros and the number's bytes. */
  lemma EncodeParts(n: nat, rest: string, x: nat)
    requires ValidChars(rest) && (rest != [] ==> rest[0] != '1') && x == Value(58, ToDigits(rest))
    ensures Encode(Zeros(n) + Minimal(256, x)) == Ones(n) + rest
  {
    RestIsCanonical(rest);
    ValueMinimal(256, x);
    EncodeAfterZeros(n, Minimal(256, x), x);
    CharsOfDigits(rest);
  }

  /** Encoding what a string decodes to gives the string back. */
  lemma EncodeDecode(s: string)
    requires Decode(s).Some?
    ensures Encode(Decode(s).value) == s
  {
    var n := LeadingOnes(s);
    ValueBound(58, ToDigits(s[n..]));
    EncodeParts(n, s[n..], Value(58, ToDigits(s[n..])));
    assert s == Ones(n) + s[n..];
  }

  /** No string decodes to nothing. */
  lemma DecodeNotEmpty(s: string)
    requires Decode(s).Some?
    ensures Decode(s).value != []
  {
    EncodeDecode(s);
    assert Encode([]) == [] by {
      assert Minimal(58, 0) == [];
    }
  }

  // ----- buffer bounds

  lemma FiftyEightToEleven()
    ensures Pow(256, 8) <= Pow(58, 11)
  {
    assert Pow(256, 4) == 4294967296 by { PowAdd(256, 2, 2); }
    PowAdd(256, 4, 4);
    assert Pow(58, 4) == 11316496 by { PowAdd(58, 2, 2); }
    assert Pow(58, 3) == 195112;
    PowAdd(58, 4, 4);
    PowAdd(58, 8, 3);
  }

  /** `floor(138 n / 100) + 1` base-58 digits hold any `n` bytes. */
  lemma EncoderCapacity(n: nat)
    ensures Pow(256, n) <= Pow(58, n * 138 / 100 + 1)
  {
    var m := n * 138 / 100 + 1;
    FiftyEightToEleven();
    PowBaseMonotonic(Pow(256, 8), Pow(58, 11), n);
    PowPow(256, 8, n);
    PowPow(58, 11, n);
    assert 11 * n <= 8 * m;
    PowMonotonic(58, 11 * n, 8 * m);
    PowPow(256, n, 8);
    PowPow(58, m, 8);
    assert 8 * n == n * 8 && 8 * m == m * 8;
    if Pow(58, m) < Pow(256, n) {
      PowBaseStrict(Pow(58, m), Pow(256, n), 8);
      assert false;
    }
  }

  lemma WordsForCharacters(n: nat)
    ensures 6 * n <= 32 * (((n * 6 + 7) / 8 + 3) / 4)
  {
  }

  lemma TwoTo32()
    ensures Pow(2, 6) == 64 && Pow(2, 32) == TWO_32
  {
    assert Pow(2, 8) == 256;
    PowAdd(2, 8, 8);
    PowAdd(2, 16, 16);
  }

  /** Six bits a character, rounded up to words, hold any `n` base-58 digits. */
  lemma DecoderCapacity(n: nat)
    ensures Pow(58, n) <= Pow(TWO_32, ((n * 6 + 7) / 8 + 3) / 4)
  {
    var w := ((n * 6 + 7) / 8 + 3) / 4;
    WordsForCharacters(n);
    TwoTo32();
    PowBaseMonotonic(58, 64, n);
    PowPow(2, 6, n);
    PowPow(2, 32, w);
    PowMonotonic(2, 6 * n, 32 * w);
  }
}
