/** `segwit_addr_encode`, `segwit_addr_decode`, their blech32 counterparts, and the
    functions on witness scripts that src/bech32.c exports, over their buffers. */
module SegwitCodec {
  import opened Common
  import opened Words
  import opened BitRegroup
  import opened Polymod
  import opened Charset
  import opened Checksums
  import opened Bech32
  import opened Bech32Codec
  import opened SegwitAddress
  import opened Script

  /** `data` in the encoders and in the decoders, and the decoders' `hrp_actual`. */
  function EncodeBuffer(code: Code): nat {
    if code.Bech32? then 65 else 1000
  }

  function DecodeBuffer(code: Code): nat {
    if code.Bech32? then 84 else 1000
  }

  /** What a decoder's caller provides for the program. */
  function ProgramBuffer(code: Code): nat {
    if code.Bech32? then 40 else 1000
  }

  lemma BytesAreBounded(bytes: Bytes)
    ensures Bounded(bytes, 8)
  {
    PowersOfTwo();
  }

  /** `segwit_addr_encode` and `blech32_addr_encode`. */
  method WriteAddress(output: array<char>, code: Code, hrp: string, version: nat, bytes: Bytes) returns (ok: bool)
    requires output.Length > MaxLength(code)
    modifies output
    ensures ok <==> EncodeAddress(code, hrp, version, bytes).Some?
    ensures ok ==> Holds(output, EncodeAddress(code, hrp, version, bytes).value)
  {
    var data := new nat[EncodeBuffer(code)];
    if version > 16 || !Allowed(code, version, |bytes|) {
      return false;
    }
    data[0] := version;
    BytesAreBounded(bytes);
    var datalen;
    ok, datalen := ConvertBits(data, 1, 5, bytes, 8, true);
    datalen := datalen + 1;
    assert data[..datalen] == DataSymbols(version, bytes) by {
      assert data[..1][0] == version;
      assert data[..datalen] == data[..1] + data[1..datalen];
    }
    ok := EncodeString(output, code, hrp, data[..datalen], MaxLength(code), version != 0);
  }

  /** Enough buffer for the program of any message that passes the length test. */
  lemma ProgramFits(code: Code, size: nat)
    requires size < MaxData(code)
    ensures size * 5 <= ProgramBuffer(code) * 8
  {
  }

  predicate NoNul(s: string) {
    forall i :: 0 <= i < |s| ==> s[i] != '\0'
  }

  lemma CharsAreNotNul(ds: seq<Symbol>)
    ensures NoNul(ToChars(ds))
  {
    forall i | 0 <= i < |ds| ensures ToChars(ds)[i] != '\0' {
      CharsAreLower(ds[i]);
    }
  }

  lemma EncodedHasNoNul(code: Code, hrp: string, data: seq<int>, max: nat, m: bool)
    requires Encode(code, hrp, data, max, m).Some?
    ensures NoNul(Encode(code, hrp, data, max, m).value)
  {
    CharsAreNotNul(data + Checksum(code, hrp, data, m));
  }

  /** `strlen` */
  method StringLength(buffer: array<char>, ghost s: string) returns (n: nat)
    requires Holds(buffer, s) && NoNul(s)
    ensures n == |s|
  {
    n := 0;
    assert forall k :: 0 <= k < |s| ==> buffer[..|s|][k] == s[k];
    while buffer[n] != '\0'
      invariant n <= |s| && forall k :: 0 <= k < |s| ==> buffer[k] != '\0'
      decreases |s| - n
    {
      n := n + 1;
    }
  }

  function FirstChars(s: string, n: nat): string {
    if |s| <= n then s else s[..n]
  }

  /** `memcmp` on equal lengths in one source, `strncmp` on the first 995 characters in the other. */
  predicate SamePrefix(code: Code, actual: string, hrp: string) {
    if code.Bech32? then |actual| == |hrp| && actual == hrp
    else FirstChars(hrp, MaxLength(code) - 5) == FirstChars(actual, MaxLength(code) - 5)
  }

  /** No decoded prefix is long enough for the bound of the comparison to matter. */
  lemma SamePrefixIsEqual(code: Code, addr: string, hrp: string)
    requires Decode(code, addr, MaxLength(code)).Some?
    ensures var actual := Decode(code, addr, MaxLength(code)).value.hrp;
            PrintableChars(actual) && (SamePrefix(code, actual, hrp) <==> actual == hrp)
  {
    EncodeDecode(code, addr, MaxLength(code));
  }

  lemma BoundedSymbols(d: seq<Symbol>)
    ensures Bounded(d, 5)
  {
    PowersOfTwo();
  }

  lemma AllowedIsTested(code: Code, version: nat, size: nat)
    requires version <= 16
    ensures Allowed(code, version, size) <==>
            !(size < 2 || size > (if code.Bech32? then 40 else 65))
            && !(version == 0 && size != (if code.Bech32? then 20 else 53) && size != (if code.Bech32? then 32 else 65))
  {
  }

  /** Regroup the program and test its size. */
  method ReadData(witdata: array<nat>, code: Code, data: array<nat>, dataLen: nat, ghost x: Message)
    returns (ok: bool, size: nat)
    requires witdata.Length >= ProgramBuffer(code) && witdata != data
    requires 1 <= |x.data| == dataLen <= data.Length && data[..dataLen] == x.data
    requires dataLen <= MaxData(code) && x.data[0] <= 16
    modifies witdata
    ensures size <= witdata.Length
    ensures ReadProgram(code, x).Some? == ok
    ensures ok ==> ReadProgram(code, x).value.bytes == witdata[..size]
  {
    assert data[1..dataLen] == x.data[1..];
    BoundedSymbols(x.data[1..]);
    ProgramFits(code, dataLen - 1);
    ok, size := ConvertBits(witdata, 0, 8, data[1..dataLen], 5, false);
    if !ok {
      return;
    }
    assert ProgramBytes(x.data[1..]) == Some(witdata[..size]);
    AllowedIsTested(code, data[0], size);
    ok := !(size < 2 || size > if code.Bech32? then 40 else 65)
          && !(data[0] == 0 && size != (if code.Bech32? then 20 else 53) && size != if code.Bech32? then 32 else 65);
  }

  /** The tests on a decoded message, and its program. */
  method ReadMessage(witdata: array<nat>, code: Code, hrp: string, hrpActual: string, data: array<nat>, dataLen: nat,
        m: bool, ghost x: Message)
    returns (ok: bool, version: nat, size: nat)
    requires witdata.Length >= ProgramBuffer(code) && witdata != data
    requires dataLen == |x.data| <= data.Length && data[..dataLen] == x.data && m == x.m && hrpActual == x.hrp
    requires SamePrefix(code, hrpActual, hrp) <==> hrpActual == hrp
    modifies witdata
    ensures ok <==> Versioned(code, hrp, x) && ReadProgram(code, x).Some?
    ensures size <= witdata.Length
    ensures ok ==> version == x.data[0] && ReadProgram(code, x).value.bytes == witdata[..size]
  {
    size := 0;
    if dataLen == 0 || dataLen > MaxData(code) {
      return false, 0, size;
    }
    version := data[0];
    assert version == x.data[0];
    if !SamePrefix(code, hrpActual, hrp) || (version == 0 && m) || (version != 0 && !m) || version > 16 {
      return false, version, size;
    }
    ok, size := ReadData(witdata, code, data, dataLen, x);
  }

  /** `segwit_addr_decode` and `blech32_addr_decode`. */
  method ReadAddress(witdata: array<nat>, code: Code, hrp: string, addr: string)
    returns (ok: bool, version: nat, size: nat)
    requires witdata.Length >= ProgramBuffer(code)
    modifies witdata
    ensures ok <==> DecodeAddress(code, hrp, addr).Some?
    ensures size <= witdata.Length
    ensures ok ==> var p := DecodeAddress(code, hrp, addr).value; p.version == version && p.bytes == witdata[..size]
  {
    version, size := 0, 0;
    var data, hrpActual := new nat[DecodeBuffer(code)], new char[DecodeBuffer(code)];
    var dataLen, m;
    ok, dataLen, m := DecodeString(hrpActual, data, code, addr, MaxLength(code));
    if !ok {
      return;
    }
    ghost var x := Decode(code, addr, MaxLength(code)).value;
    SamePrefixIsEqual(code, addr, hrp);
    var n := StringLength(hrpActual, x.hrp);
    ok, version, size := ReadMessage(witdata, code, hrp, hrpActual[..n], data, dataLen, m, x);
  }
}
