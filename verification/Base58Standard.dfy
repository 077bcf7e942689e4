/** Base58 and Base58Check by what their strings are: leading ones for leading zero bytes, then
    one number written with the alphabet; and a checksum of four bytes. */
module Base58Standard {
  import opened Common
  import opened Radix
  import opened Base58
  import opened Base58Codec

  // ----- the alphabet

  /** The digits and the letters without 0, O, I and l. */
  const ALPHABET: string := "123456789" + "ABCDEFGH" + "JKLMN" + "PQRSTUVWXYZ" + "abcdefghijk" + "mnopqrstuvwxyz"

  /** Each character is the digit's in the alphabet. */
  predicate Spells(s: string, ds: seq<nat>) {
    |s| == |ds| && forall i :: 0 <= i < |ds| ==> ds[i] < 58 && s[i] == ALPHABET[ds[i]]
  }

  lemma AlphabetIs(d: nat)
    requires d < 58
    ensures DigitChar(d) == ALPHABET[d]
  {
  }

  lemma DigitsSpelled(ds: seq<nat>)
    requires Digits(58, ds)
    ensures Spells(ToChars(ds), ds)
  {
    forall i | 0 <= i < |ds| ensures ToChars(ds)[i] == ALPHABET[ds[i]] {
      AlphabetIs(ds[i]);
    }
  }

  lemma SpelledIs(s: string, ds: seq<nat>)
    requires Spells(s, ds)
    ensures Digits(58, ds) && s == ToChars(ds)
  {
    DigitsSpelled(ds);
  }

  // ----- the strings

  /** The first `n` bytes are zero and written as ones; the rest begin with another byte and
      are the number that the digits write without a leading zero. */
  predicate Writes(s: string, b: Bytes, n: nat, ds: seq<nat>) {
    && n <= |b| && (forall i :: 0 <= i < n ==> b[i] == 0) && (n < |b| ==> b[n] != 0)
    && n <= |s| && (forall i :: 0 <= i < n ==> s[i] == '1') && Spells(s[n..], ds)
    && (ds != [] ==> ds[0] != 0) && PlaceValue(58, ds) == PlaceValue(256, b)
  }

  ghost predicate IsBase58(s: string, b: Bytes) {
    exists n: nat, ds: seq<nat> :: Writes(s, b, n, ds)
  }

  lemma NumberOfRest(b: Bytes, n: nat)
    requires n <= |b| && b[..n] == Zeros(n)
    ensures Value(256, b[n..]) == PlaceValue(256, b)
  {
    assert b == Zeros(n) + b[n..];
    ValueLeadingZeros(256, n, b[n..]);
    PlaceValueIsValue(256, b);
  }

  lemma EncodedIsBase58(b: Bytes)
    ensures IsBase58(Encode(b), b)
  {
    var n := LeadingZeros(b);
    ValueBound(256, b[n..]);
    var ds := Minimal(58, Value(256, b[n..]));
    assert Encode(b)[n..] == ToChars(ds);
    DigitsSpelled(ds);
    NumberOfRest(b, n);
    ValueMinimal(58, Value(256, b[n..]));
    PlaceValueIsValue(58, ds);
    assert forall i :: 0 <= i < n ==> b[i] == b[..n][i];
    assert Writes(Encode(b), b, n, ds);
  }

  lemma WrittenIsEncoded(s: string, b: Bytes, n: nat, ds: seq<nat>)
    requires Writes(s, b, n, ds)
    ensures s == Encode(b)
  {
    SpelledIs(s[n..], ds);
    assert b[..n] == Zeros(n) && b == Zeros(n) + b[n..];
    assert s == Ones(n) + s[n..] by {
      assert s[..n] == Ones(n);
    }
    NumberOfRest(b, n);
    PlaceValueIsValue(58, ds);
    MinimalValue(58, ds);
    EncodeAfterZeros(n, b[n..], Value(256, b[n..]));
  }

  /** The encoding of bytes is the one string that writes them. */
  lemma EncodesExactly(s: string, b: Bytes)
    ensures Encode(b) == s <==> IsBase58(s, b)
  {
    if Encode(b) == s {
      EncodedIsBase58(b);
    }
    if IsBase58(s, b) {
      var n: nat, ds: seq<nat> :| Writes(s, b, n, ds);
      WrittenIsEncoded(s, b, n, ds);
    }
  }

  /** A string decodes to bytes, at least one, exactly when it writes them. */
  lemma DecodesExactly(s: string, b: Bytes)
    ensures Decode(s) == Some(b) <==> b != [] && IsBase58(s, b)
  {
    EncodesExactly(s, b);
    if Decode(s) == Some(b) {
      EncodeDecode(s);
      DecodeNotEmpty(s);
    }
    if b != [] && IsBase58(s, b) {
      DecodeEncode(b);
    }
  }

  // ----- with a checksum

  /** Base58Check: the bytes, then the first four of their double SHA-256. */
  ghost predicate IsBase58Check(sha256d: Bytes -> Bytes32, s: string, b: Bytes) {
    IsBase58(s, b + sha256d(b)[..4])
  }

  lemma EncodesCheckExactly(sha256d: Bytes -> Bytes32, s: string, b: Bytes)
    ensures Encode(WithChecksum(sha256d, b)) == s <==> IsBase58Check(sha256d, s, b)
  {
    EncodesExactly(s, WithChecksum(sha256d, b));
  }

  /** The call succeeds and has written bytes that fit, and what then follows them in the buffer. */
  predicate Yields(r: Decoded, was: Bytes, b: Bytes)
    requires |b| + 4 <= |was|
  {
    r == Decoded(Ok, |b|, b + Zeros(4) + was[|b| + 4..])
  }

  lemma AcceptedYields(sha256d: Bytes -> Bytes32, s: string, was: Bytes)
    requires ToBytesResult(sha256d, s, Flags(true, false), was).ret == Ok
    requires ToBytesResult(sha256d, s, Flags(true, false), was).written <= |was|
    ensures var r := ToBytesResult(sha256d, s, Flags(true, false), was);
            && r.written + 4 <= |was| && 0 < r.written <= |r.buffer|
            && Yields(r, was, r.buffer[..r.written])
            && IsBase58Check(sha256d, s, r.buffer[..r.written])
  {
    AcceptedIsEncoding(sha256d, s, was);
    var r := ToBytesResult(sha256d, s, Flags(true, false), was);
    EncodesCheckExactly(sha256d, s, r.buffer[..r.written]);
    CheckedRoundTrip(sha256d, r.buffer[..r.written], was);
  }

  /** With room for the bytes and their checksum, a string yields bytes, at least one, exactly
      when it writes them with a checksum that is right. */
  lemma DecodesCheckExactly(sha256d: Bytes -> Bytes32, s: string, was: Bytes, b: Bytes)
    requires |b| + 4 <= |was|
    ensures Yields(ToBytesResult(sha256d, s, Flags(true, false), was), was, b) <==>
            b != [] && IsBase58Check(sha256d, s, b)
  {
    var r := ToBytesResult(sha256d, s, Flags(true, false), was);
    if Yields(r, was, b) {
      AcceptedYields(sha256d, s, was);
      assert r.buffer[..|b|] == b;
    }
    if b != [] && IsBase58Check(sha256d, s, b) {
      EncodesCheckExactly(sha256d, s, b);
      CheckedRoundTrip(sha256d, b, was);
    }
  }
}
