/** Segwit addresses and confidential segwit addresses: `segwit_addr_encode`,
    `segwit_addr_decode` and their blech32 counterparts, as functions. */
module SegwitAddress {
  import opened Common
  import opened Words
  import opened BitRegroup
  import opened Polymod
  import opened Charset
  import opened Checksums
  import opened Bech32

  datatype Program = Program(version: nat, bytes: Bytes)

  /** 90, or `WALLY_BLECH32_MAXLEN`. */
  function MaxLength(code: Code): nat {
    if code.Bech32? then 90 else 1000
  }

  /** The most data symbols, the version's included, that a decoded address may have. */
  function MaxData(code: Code): nat {
    if code.Bech32? then 65 else 996
  }

  /** The sizes of program that a version allows; a confidential one starts with a public key. */
  predicate Allowed(code: Code, version: nat, size: nat) {
    && version <= 16
    && 2 <= size <= (if code.Bech32? then 40 else 65)
    && (version == 0 ==> size == (if code.Bech32? then 20 else 53) || size == (if code.Bech32? then 32 else 65))
  }

  /** The version and the program in groups of five bits. */
  function DataSymbols(version: nat, bytes: Bytes): (data: seq<nat>) {
    [version] + Regroup(bytes, 8, 5, true).value
  }

  function EncodeAddress(code: Code, hrp: string, version: nat, bytes: Bytes): Option<string> {
    if Allowed(code, version, |bytes|) then
      Encode(code, hrp, DataSymbols(version, bytes), MaxLength(code), version != 0)
    else None
  }

  function ProgramBytes(d: seq<Symbol>): (b: Option<Bytes>)
    ensures b.Some? == Regroup(d, 5, 8, false).Some?
    ensures b.Some? ==> Regroup(d, 5, 8, false).value == b.value
  {
    PowersOfTwo();
    if Regroup(d, 5, 8, false).Some? then
      SymbolsRoundTrip(d);
      Some(Regroup(d, 5, 8, false).value)
    else None
  }

  /** What a decoded message must satisfy before its program is read. */
  predicate Versioned(code: Code, hrp: string, x: Message) {
    && 1 <= |x.data| <= MaxData(code)
    && x.hrp == hrp
    && x.m == (x.data[0] != 0)
    && x.data[0] <= 16
  }

  function ReadProgram(code: Code, x: Message): Option<Program>
    requires |x.data| >= 1
  {
    match ProgramBytes(x.data[1..])
    case None => None
    case Some(b) => if Allowed(code, x.data[0], |b|) then Some(Program(x.data[0], b)) else None
  }

  function DecodeAddress(code: Code, hrp: string, addr: string): Option<Program> {
    match Decode(code, addr, MaxLength(code))
    case None => None
    case Some(x) => if Versioned(code, hrp, x) then ReadProgram(code, x) else None
  }

  // ----- encoding and decoding are inverse

  lemma DataSymbolsFacts(version: nat, bytes: Bytes)
    requires version <= 16
    ensures AllSymbols(DataSymbols(version, bytes))
    ensures |DataSymbols(version, bytes)| == 1 + (8 * |bytes| + 4) / 5
    ensures Regroup(DataSymbols(version, bytes)[1..], 5, 8, false) == Some(bytes)
  {
    PowersOfTwo();
    BytesRoundTrip(bytes);
    SymbolCount(bytes);
    assert DataSymbols(version, bytes)[1..] == Regroup(bytes, 8, 5, true).value;
  }

  /** Exactly which addresses encode. */
  lemma EncodesExactly(code: Code, hrp: string, version: nat, bytes: Bytes)
    ensures EncodeAddress(code, hrp, version, bytes).Some?
            <==> Allowed(code, version, |bytes|) && PrintableChars(hrp) && NoUpper(hrp)
                 && |hrp| + 1 + code.Symbols() + 1 + (8 * |bytes| + 4) / 5 <= MaxLength(code)
  {
    if version <= 16 {
      DataSymbolsFacts(version, bytes);
    }
  }

  lemma EncodedIsVersioned(code: Code, hrp: string, version: nat, bytes: Bytes)
    requires Allowed(code, version, |bytes|)
    ensures AllSymbols(DataSymbols(version, bytes))
    ensures Versioned(code, hrp, Message(hrp, DataSymbols(version, bytes), version != 0))
    ensures ReadProgram(code, Message(hrp, DataSymbols(version, bytes), version != 0)) == Some(Program(version, bytes))
  {
    DataSymbolsFacts(version, bytes);
  }

  /** Decoding undoes encoding for every prefix that is not empty, version and program. */
  lemma DecodeEncodeAddress(code: Code, hrp: string, version: nat, bytes: Bytes)
    requires hrp != "" && EncodeAddress(code, hrp, version, bytes).Some?
    ensures DecodeAddress(code, hrp, EncodeAddress(code, hrp, version, bytes).value) == Some(Program(version, bytes))
  {
    EncodedIsVersioned(code, hrp, version, bytes);
    DecodeEncode(code, hrp, DataSymbols(version, bytes), MaxLength(code), version != 0);
  }

  lemma EncodedIsLower(code: Code, hrp: string, data: seq<int>, max: nat, m: bool)
    requires Encode(code, hrp, data, max, m).Some?
    ensures NoUpper(Encode(code, hrp, data, max, m).value)
  {
    SymbolsOfChars(data + Checksum(code, hrp, data, m));
  }

  /** Every program of an allowed size has an address under every short lower-case prefix. */
  lemma EveryProgramHasAddress(code: Code, hrp: string, version: nat, bytes: Bytes)
    requires Allowed(code, version, |bytes|) && PrintableChars(hrp) && NoUpper(hrp)
    requires 1 <= |hrp| <= (if code.Bech32? then 18 else 882)
    ensures exists addr :: NoUpper(addr) && DecodeAddress(code, hrp, addr) == Some(Program(version, bytes))
  {
    EncodesExactly(code, hrp, version, bytes);
    DecodeEncodeAddress(code, hrp, version, bytes);
    EncodedIsLower(code, hrp, DataSymbols(version, bytes), MaxLength(code), version != 0);
  }

  lemma ReadProgramSymbols(code: Code, x: Message)
    requires |x.data| >= 1 && ReadProgram(code, x).Some?
    ensures var p := ReadProgram(code, x).value;
            Allowed(code, p.version, |p.bytes|) && DataSymbols(p.version, p.bytes) == x.data
  {
    PowersOfTwo();
    SymbolsRoundTrip(x.data[1..]);
    assert x.data == [x.data[0]] + x.data[1..];
  }

  /** Every accepted address is, but for its case, the encoding of its program. */
  lemma AddressIsCanonical(code: Code, hrp: string, addr: string)
    requires DecodeAddress(code, hrp, addr).Some?
    ensures var p := DecodeAddress(code, hrp, addr).value;
            hrp != "" && Allowed(code, p.version, |p.bytes|)
            && EncodeAddress(code, hrp, p.version, p.bytes) == Some(LowerString(addr))
  {
    EncodeDecode(code, addr, MaxLength(code));
    ReadProgramSymbols(code, Decode(code, addr, MaxLength(code)).value);
  }

  /** Addresses of one program under one prefix differ only in case. */
  lemma OneAddressPerProgram(code: Code, hrp: string, addr: string, other: string)
    requires DecodeAddress(code, hrp, addr).Some?
    requires DecodeAddress(code, hrp, other) == DecodeAddress(code, hrp, addr)
    ensures LowerString(addr) == LowerString(other)
  {
    AddressIsCanonical(code, hrp, addr);
    AddressIsCanonical(code, hrp, other);
  }

  /** The message in an accepted address, and where its data start. */
  lemma AcceptedMessage(code: Code, hrp: string, addr: string)
    requires DecodeAddress(code, hrp, addr).Some?
    ensures Decode(code, addr, MaxLength(code)).Some? && Versioned(code, hrp, Decode(code, addr, MaxLength(code)).value)
    ensures 1 + DataLength(addr) < |addr| && |addr| - DataLength(addr) == |hrp| + 1
  {
  }

  /** A message of the other variant with the same version symbol makes no address. */
  lemma OtherVariantIsRefused(code: Code, hrp: string, x: Message, anyHrp: string, s: string, j: nat)
    requires Versioned(code, hrp, x) && j >= 1
    requires Disturbed(x, Decode(code, s, MaxLength(code)), j)
    ensures DecodeAddress(code, anyHrp, s) == None
  {
    var y := Decode(code, s, MaxLength(code));
    assert y.Some? ==> y.value.data[0] == x.data[0];
  }

  /** A lower-case address with any one symbol after the version replaced by another is rejected. */
  lemma OneErrorIsDetected(code: Code, hrp: string, addr: string, i: nat, c: char, anyHrp: string)
    requires DecodeAddress(code, hrp, addr).Some? && NoUpper(addr)
    requires |hrp| + 2 <= i && Substituted(addr, i, c)
    ensures DecodeAddress(code, anyHrp, addr[i := c]) == None
  {
    AcceptedMessage(code, hrp, addr);
    OneSubstitution(code, addr, MaxLength(code), i, c);
    OtherVariantIsRefused(code, hrp, Decode(code, addr, MaxLength(code)).value, anyHrp, addr[i := c],
                          i - (|addr| - DataLength(addr)));
  }
}
