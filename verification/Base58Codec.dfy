/** The functions of src/base_58.c over their buffers. */
module Base58Codec {
  import opened Common
  import opened Radix
  import opened Base58
  import opened Base58Loops

  const CHECKSUM_LEN: nat := 4

  /** `BASE58_FLAG_CHECKSUM`, and whether any other bit is set. */
  datatype Flags = Flags(checksum: bool, undefined: bool)

  /** `base58_get_checksum`: the first four bytes of the double SHA-256. */
  function Checksum(sha256d: Bytes -> Bytes32, b: Bytes): Bytes4 {
    sha256d(b)[..4]
  }

  function WithChecksum(sha256d: Bytes -> Bytes32, b: Bytes): Bytes {
    b + Checksum(sha256d, b)
  }

  // ----- encoding

  /** Lines 213-225: the number spelled by `all[zeros..]`, in base 58. */
  method ToBase58(all: Bytes, zeros: nat) returns (bn: array<int>, top: nat)
    requires zeros < |all|
    ensures fresh(bn) && top < bn.Length && Digits(58, bn[top..])
    ensures Value(58, bn[top..]) == Value(256, all[zeros..])
  {
    var bnBytes := (|all| - zeros) * 138 / 100 + 1;
    bn := new int[bnBytes];
    top := bnBytes - 1;
    bn[top] := 0;
    ghost var rest := all[zeros..];
    assert bn[top..] == [0];
    SingleZero(58);
    EncoderCapacity(|rest|);
    for i := zeros to |all|
      invariant top < bn.Length && Digits(58, bn[top..])
      invariant Value(58, bn[top..]) == Value(256, rest[..i - zeros])
    {
      PrefixValue(256, rest, i - zeros);
      top := MultiplyInByte(bn, top, all[i]);
    }
    assert rest[..|rest|] == rest;
  }

  /** Lines 227-228: skip leading zero digits, all but the last. */
  method SkipZeroDigits(bn: array<int>, start: nat) returns (top: nat)
    requires start < bn.Length && Digits(58, bn[start..]) && Value(58, bn[start..]) > 0
    ensures start <= top < bn.Length && bn[top..] == Minimal(58, Value(58, bn[start..]))
  {
    top := start;
    while bn[top] == 0 && top < bn.Length - 1
      invariant start <= top < bn.Length && Digits(58, bn[top..])
      invariant Value(58, bn[top..]) == Value(58, bn[start..])
    {
      assert bn[top..] == [0] + bn[top + 1..];
      ValueCons(58, 0, bn[top + 1..]);
      top := top + 1;
    }
    SingleZero(58);
    assert top == bn.Length - 1 ==> bn[top..] == [bn[top]];
    MinimalValue(58, bn[top..]);
  }

  /** Lines 233-241: the leading ones and the characters of the digits. */
  method WriteChars(zeros: nat, digits: seq<int>) returns (output: string)
    requires Digits(58, digits)
    ensures output == Ones(zeros) + ToChars(digits)
  {
    var buf := new char[zeros + |digits|](_ => '1');
    for i := 0 to |digits|
      invariant forall k :: 0 <= k < zeros ==> buf[k] == '1'
      invariant forall k :: 0 <= k < i ==> buf[zeros + k] == DigitChar(digits[k])
    {
      buf[zeros + i] := DigitChar(digits[i]);
    }
    output := buf[..];
    assert output == Ones(zeros) + ToChars(digits) by {
      assert forall k :: zeros <= k < |output| ==> output[k] == buf[zeros + (k - zeros)];
    }
  }

  /** Lines 204-241: the bytes after the leading zeros. */
  method EncodeRest(all: Bytes, zeros: nat) returns (s: string)
    requires zeros < |all| && all[zeros] != 0 && LeadingZeros(all) == zeros
    ensures s == Encode(all)
  {
    var bn, start := ToBase58(all, zeros);
    LeadingDigit(256, all[zeros..]);
    var top := SkipZeroDigits(bn, start);
    s := WriteChars(zeros, bn[top..]);
  }

  /** `wally_base58_from_bytes`. */
  method FromBytes(sha256d: Bytes -> Bytes32, bytes: Bytes, flags: Flags) returns (ret: Status, output: Option<string>)
    ensures if bytes == [] || flags.undefined then ret == Invalid && output == None
            else ret == Ok && output == Some(Encode(if flags.checksum then WithChecksum(sha256d, bytes) else bytes))
  {
    if bytes == [] || flags.undefined {
      return Invalid, None;
    }
    var all := if flags.checksum then bytes + Checksum(sha256d, bytes) else bytes;
    var zeros := 0;
    while zeros < |all| && all[zeros] == 0
      invariant zeros <= |all| && forall k :: 0 <= k < zeros ==> all[k] == 0
    {
      zeros := zeros + 1;
    }
    assert all == Zeros(zeros) + all[zeros..];
    LeadingZerosUnique(zeros, all[zeros..]);
    if zeros == |all| {
      assert Minimal(58, 0) == [] && all[zeros..] == [];
      return Ok, Some(Ones(zeros) + []);
    }
    var s := EncodeRest(all, zeros);
    return Ok, Some(s);
  }

  // ----- decoding

  /** The bytes of 32-bit words, each big-endian (lines 128-129). */
  function WordBytes(words: seq<int>): (b: Bytes)
    requires Digits(TWO_32, words)
    ensures |b| == 4 * |words|
  {
    if words == [] then [] else WordBytes(words[..|words| - 1]) + Fixed(256, words[|words| - 1], 4)
  }

  lemma ValueAppendWord(b: Bytes, w: nat)
    requires w < TWO_32
    ensures Value(256, b + Fixed(256, w, 4)) == TWO_32 * Value(256, b) + w
  {
    FourBytes();
    ValueFixed(256, w, 4);
    ValueAppend(256, b, Fixed(256, w, 4));
  }

  lemma {:induction false} ValueWordBytes(words: seq<int>)
    requires Digits(TWO_32, words)
    ensures Value(256, WordBytes(words)) == Value(TWO_32, words)
    decreases |words|
  {
    if words != [] {
      var k := |words| - 1;
      ValueWordBytes(words[..k]);
      ValueAppendWord(WordBytes(words[..k]), words[k]);
    }
  }

  lemma NextDigit(chars: string, i: nat)
    requires i < |chars| && ValidChars(chars[..i]) && CharDigitPlusOne(chars[i]) != 0
    ensures ValidChars(chars[..i + 1])
    ensures Value(58, ToDigits(chars[..i + 1])) == 58 * Value(58, ToDigits(chars[..i])) + CharDigitPlusOne(chars[i]) - 1
    ensures Value(58, ToDigits(chars[..i + 1])) < Pow(58, |chars|)
  {
    var ds := ToDigits(chars[..i + 1]);
    assert ds[..i] == ToDigits(chars[..i]) && ds[..i + 1] == ds;
    PrefixValue(58, ds, i);
    PowMonotonic(58, i + 1, |chars|);
  }

  /** Lines 93-108: zero, in enough words for `n` characters. */
  method EmptyWords(n: nat) returns (bn: array<int>, top: nat)
    requires n > 0
    ensures fresh(bn) && top < bn.Length && Digits(TWO_32, bn[top..]) && Value(TWO_32, bn[top..]) == 0
    ensures Pow(58, n) <= Pow(TWO_32, bn.Length)
  {
    var bnWords := ((n * 6 + 7) / 8 + 3) / 4;
    DecoderCapacity(n);
    bn := new int[bnWords];
    top := bnWords - 1;
    bn[top] := 0;
    assert bn[top..] == [0];
    SingleZero(TWO_32);
  }

  /** Lines 107-124: the number spelled by the characters, in 32-bit words; fails at
      the first invalid one. */
  method ToWords(chars: string) returns (ok: bool, bn: array<int>, top: nat)
    requires chars != []
    ensures ok <==> ValidChars(chars)
    ensures fresh(bn) && top < bn.Length && Digits(TWO_32, bn[top..])
    ensures ok ==> Value(TWO_32, bn[top..]) == Value(58, ToDigits(chars))
  {
    bn, top := EmptyWords(|chars|);
    for i := 0 to |chars|
      invariant top < bn.Length && Digits(TWO_32, bn[top..]) && ValidChars(chars[..i])
      invariant Value(TWO_32, bn[top..]) == Value(58, ToDigits(chars[..i]))
    {
      var byte := CharDigitPlusOne(chars[i]);
      if byte == 0 {
        ok := false;
        return;
      }
      NextDigit(chars, i);
      top := MultiplyInDigit(bn, top, byte - 1);
    }
    assert chars[..|chars|] == chars;
    ok := true;
  }

  lemma ZeroByteSkipped(b: seq<int>)
    requires b != [] && b[0] == 0 && Digits(256, b) && Value(256, b) > 0
    ensures b[1..] != [] && Digits(256, b[1..]) && Value(256, b[1..]) == Value(256, b)
  {
    assert b == [0] + b[1..];
    ValueCons(256, 0, b[1..]);
  }

  /** Lines 128-135: the bytes of the words without leading zeros. There is a
      non-zero byte to stop at. */
  method SkipZeroBytes(words: seq<int>) returns (b: Bytes)
    requires Digits(TWO_32, words) && Value(TWO_32, words) > 0
    ensures b == Minimal(256, Value(TWO_32, words))
  {
    var bytes := WordBytes(words);
    ValueWordBytes(words);
    var cp := 0;
    assert bytes[0..] == bytes;
    while bytes[cp] == 0
      invariant cp < |bytes| && Value(256, bytes[cp..]) == Value(TWO_32, words) && Digits(256, bytes[cp..])
      decreases |bytes| - cp
    {
      ZeroByteSkipped(bytes[cp..]);
      assert bytes[cp..][1..] == bytes[cp + 1..];
      cp := cp + 1;
    }
    b := bytes[cp..];
    MinimalValue(256, b);
  }

  /** Lines 137-140: the zeros and the bytes, if there is room for them. */
  method CopyOut(bytesOut: array?<Byte>, len: nat, ones: nat, b: Bytes)
    requires bytesOut != null ==> len <= bytesOut.Length
    modifies bytesOut
    ensures bytesOut != null ==>
              bytesOut[..] ==
              if ones + |b| <= len then Zeros(ones) + b + old(bytesOut[..])[ones + |b|..] else old(bytesOut[..])
  {
    if bytesOut != null && ones + |b| <= len {
      ghost var was := bytesOut[..];
      forall i | 0 <= i < ones {
        bytesOut[i] := 0;
      }
      forall i | 0 <= i < |b| {
        bytesOut[ones + i] := b[i];
      }
      assert bytesOut[..ones] == Zeros(ones) && bytesOut[ones..ones + |b|] == b;
      assert bytesOut[ones + |b|..] == was[ones + |b|..];
      assert bytesOut[..] == bytesOut[..ones] + bytesOut[ones..ones + |b|] + bytesOut[ones + |b|..];
    }
  }

  lemma FirstDigitCounts(s: string)
    requires s != [] && ValidChars(s) && s[0] != '1'
    ensures Value(58, ToDigits(s)) > 0
  {
    DigitOfChar(s[0]);
    LeadingDigit(58, ToDigits(s));
    PowMonotonic(58, 0, |s| - 1);
  }

  /** `base58_decode`: the required length is returned, and the bytes are written when they fit. */
  method DecodeInto(base58: string, bytesOut: array?<Byte>, len: nat) returns (ret: Status, newLen: nat)
    requires bytesOut != null ==> len <= bytesOut.Length
    modifies bytesOut
    ensures match Decode(base58)
            case None => ret == Invalid && newLen == len && (bytesOut != null ==> bytesOut[..] == old(bytesOut[..]))
            case Some(b) =>
              && ret == Ok && newLen == |b|
              && (bytesOut != null ==>
                    bytesOut[..] == if |b| <= len then b + old(bytesOut[..])[|b|..] else old(bytesOut[..]))
  {
    newLen := len;
    if base58 == [] {
      return Invalid, len;
    }
    var ones := 0;
    while ones < |base58| && base58[ones] == '1'
      invariant ones <= |base58| && forall k :: 0 <= k < ones ==> base58[k] == '1'
    {
      ones := ones + 1;
    }
    var rest := base58[ones..];
    assert base58 == Ones(ones) + rest;
    LeadingOnesUnique(ones, rest);
    if rest == [] {
      assert Minimal(256, 0) == [];
      CopyOut(bytesOut, len, ones, []);
      return Ok, ones;
    }
    var ok, bn, top := ToWords(rest);
    if !ok {
      return Invalid, len;
    }
    FirstDigitCounts(rest);
    var b := SkipZeroBytes(bn[top..]);
    CopyOut(bytesOut, len, ones, b);
    return Ok, ones + |b|;
  }

  /** `wally_base58_n_get_length`. */
  method GetLength(str: string, len: nat) returns (ret: Status, written: nat)
    ensures match Decode(str)
            case None => ret == Invalid && written == len
            case Some(b) => ret == Ok && written == |b|
  {
    ret, written := DecodeInto(str, null, len);
  }

  // ----- checksummed decoding

  datatype Decoded = Decoded(ret: Status, written: nat, buffer: Bytes)

  /** What `wally_base58_n_to_bytes` returns and leaves in a buffer holding `was`. */
  function ToBytesResult(sha256d: Bytes -> Bytes32, str: string, flags: Flags, was: Bytes): Decoded {
    var len := |was|;
    if flags.undefined || len == 0 || (flags.checksum && len <= CHECKSUM_LEN) then Decoded(Invalid, 0, was)
    else
      match Decode(str)
      case None => Decoded(Invalid, len, was)
      case Some(b) =>
        if |b| > len then Decoded(Ok, |b|, was)
        else if !flags.checksum then Decoded(Ok, |b|, b + was[|b|..])
        else if |b| <= CHECKSUM_LEN then Decoded(Invalid, |b|, Zeros(len))
        else
          var payload := b[..|b| - CHECKSUM_LEN];
          if b != WithChecksum(sha256d, payload) then Decoded(Invalid, |b|, Zeros(len))
          else Decoded(Ok, |payload|, payload + Zeros(CHECKSUM_LEN) + was[|b|..])
  }

  /** `wally_clear`. */
  method Clear(bytes: array<Byte>, from: nat, len: nat)
    requires from + len <= bytes.Length
    modifies bytes
    ensures bytes[..] == old(bytes[..from]) + Zeros(len) + old(bytes[from + len..])
  {
    forall i | from <= i < from + len {
      bytes[i] := 0;
    }
  }

  /** Lines 289-305: check the trailing checksum and drop it. */
  method CheckAndStrip(sha256d: Bytes -> Bytes32, bytesOut: array<Byte>, length: nat)
    returns (ret: Status, written: nat)
    requires length <= bytesOut.Length
    modifies bytesOut
    ensures var b := old(bytesOut[..length]);
            if length <= CHECKSUM_LEN || b != WithChecksum(sha256d, b[..length - CHECKSUM_LEN]) then
              ret == Invalid && written == length && bytesOut[..] == Zeros(bytesOut.Length)
            else
              && ret == Ok && written == length - CHECKSUM_LEN
              && bytesOut[..] == b[..written] + Zeros(CHECKSUM_LEN) + old(bytesOut[length..])
  {
    ret, written := Ok, length;
    if length <= CHECKSUM_LEN {
      Clear(bytesOut, 0, bytesOut.Length);
      return Invalid, length;
    }
    var offset := length - CHECKSUM_LEN;
    var checksum := Checksum(sha256d, bytesOut[..offset]);
    ghost var b := bytesOut[..length];
    assert b == bytesOut[..offset] + bytesOut[offset..length] && b[..offset] == bytesOut[..offset];
    if bytesOut[offset..length] != checksum {
      Clear(bytesOut, 0, bytesOut.Length);
      return Invalid, length;
    }
    Clear(bytesOut, offset, CHECKSUM_LEN);
    written := offset;
  }

  /** `wally_base58_n_to_bytes`. */
  method ToBytes(sha256d: Bytes -> Bytes32, str: string, flags: Flags, bytesOut: array<Byte>)
    returns (ret: Status, written: nat)
    modifies bytesOut
    ensures Decoded(ret, written, bytesOut[..]) == ToBytesResult(sha256d, str, flags, old(bytesOut[..]))
  {
    var len := bytesOut.Length;
    if flags.undefined || len == 0 {
      return Invalid, 0;
    }
    if flags.checksum && len <= CHECKSUM_LEN {
      return Invalid, 0;
    }
    ghost var was := bytesOut[..];
    ret, written := DecodeInto(str, bytesOut, len);
    if ret == Ok && written > len {
      return;
    }
    if ret == Ok && flags.checksum {
      ghost var b := Decode(str).value;
      assert bytesOut[..written] == b && bytesOut[written..] == was[|b|..];
      ret, written := CheckAndStrip(sha256d, bytesOut, written);
    }
  }

  /** Given room, decoding a checksummed encoding returns the bytes and nothing else changes. */
  lemma CheckedRoundTrip(sha256d: Bytes -> Bytes32, bytes: Bytes, was: Bytes)
    requires bytes != [] && |was| >= |bytes| + CHECKSUM_LEN
    ensures ToBytesResult(sha256d, Encode(WithChecksum(sha256d, bytes)), Flags(true, false), was) ==
            Decoded(Ok, |bytes|, bytes + Zeros(CHECKSUM_LEN) + was[|bytes| + CHECKSUM_LEN..])
  {
    var b := WithChecksum(sha256d, bytes);
    DecodeEncode(b);
    assert b[..|b| - CHECKSUM_LEN] == bytes;
  }

  /** What is left in the buffer of an accepted string. */
  lemma AcceptedPayload(sha256d: Bytes -> Bytes32, str: string, was: Bytes)
    requires ToBytesResult(sha256d, str, Flags(true, false), was).ret == Ok
    requires ToBytesResult(sha256d, str, Flags(true, false), was).written <= |was|
    ensures var r := ToBytesResult(sha256d, str, Flags(true, false), was);
            && 0 < r.written <= |r.buffer|
            && Decode(str) == Some(WithChecksum(sha256d, r.buffer[..r.written]))
  {
    var b := Decode(str).value;
    var payload := b[..|b| - CHECKSUM_LEN];
    assert (payload + (Zeros(CHECKSUM_LEN) + was[|b|..]))[..|payload|] == payload;
    assert payload + Zeros(CHECKSUM_LEN) + was[|b|..] == payload + (Zeros(CHECKSUM_LEN) + was[|b|..]);
  }

  /** Every string accepted with its checksum is the encoding of the bytes it gives. */
  lemma AcceptedIsEncoding(sha256d: Bytes -> Bytes32, str: string, was: Bytes)
    requires ToBytesResult(sha256d, str, Flags(true, false), was).ret == Ok
    requires ToBytesResult(sha256d, str, Flags(true, false), was).written <= |was|
    ensures var r := ToBytesResult(sha256d, str, Flags(true, false), was);
            0 < r.written && str == Encode(WithChecksum(sha256d, r.buffer[..r.written]))
  {
    AcceptedPayload(sha256d, str, was);
    EncodeDecode(str);
  }
}
