/** The exported address functions over their buffers: src/bech32.c lines 207-310 and
    src/blech32.c lines 213-338. */
module ConfidentialCodec {
  import opened Buffers
  import opened Common
  import opened Polymod
  import opened Charset
  import opened Checksums
  import opened Bech32
  import opened Bech32Codec
  import opened Script
  import opened SegwitAddress
  import opened SegwitCodec
  import opened ConfidentialAddress

  /** An address in a local buffer, returned as a copy. */
  method AddressString(code: Code, family: string, version: nat, bytes: Bytes) returns (addr: Option<string>)
    ensures addr == EncodeAddress(code, family, version, bytes)
  {
    var output := new char[MaxLength(code) + 1];
    var ok := WriteAddress(output, code, family, version, bytes);
    if !ok {
      return None;
    }
    EncodedHasNoNul(code, family, DataSymbols(version, bytes), MaxLength(code), version != 0);
    var n := StringLength(output, EncodeAddress(code, family, version, bytes).value);
    addr := Some(output[..n]);
  }

  /** `wally_addr_segwit_from_bytes` */
  method AddrFromBytes(bytes: Bytes, family: string) returns (result: Result<string>)
    ensures result == FromScript(bytes, family)
  {
    if bytes == [] || OpN(bytes[0]).None? {
      return Failed(Invalid);
    }
    var version, push := OpN(bytes[0]).value, PushSize(bytes[1..]);
    if push.None? || (version == 0 && push.value != 20 && push.value != 32) {
      return Failed(Invalid);
    }
    var addr := AddressString(Bech32, family, version, bytes[2..]);
    result := if addr.None? then Failed(Error) else Done(addr.value);
  }

  /** `wally_witness_program_from_bytes_and_version` without hashing or an outer push. */
  method WriteScript(out: array<nat>, at: nat, len: nat, bytes: Bytes, version: nat)
    returns (status: Status, written: nat)
    requires at + len <= out.Length
    modifies out
    ensures if Allowed(Bech32, version, |bytes|) && len >= 2
            then status == Ok && written == |bytes| + 2
                 && (written <= len ==> out[at..at + written] == WitnessScript(version, bytes))
            else status == Invalid && written == 0
    ensures out[..at] == old(out[..at]) && out[at + len..] == old(out[at + len..])
    // A buffer too short for the script gets its first byte, and is left alone otherwise.
    ensures if Allowed(Bech32, version, |bytes|) && len > 0
            then len < |bytes| + 2 ==> out[..] == old(out[..])[at := ValueToOpN(version)]
            else out[..] == old(out[..])
  {
    if version > 16 || len == 0 || (version == 0 && |bytes| != 20 && |bytes| != 32) || |bytes| < 2 || |bytes| > 40 {
      return Invalid, 0;
    }
    out[at] := ValueToOpN(version);
    if len == 1 {
      return Invalid, 0;
    }
    status, written := Ok, |bytes| + 1;
    if len - 1 >= written {
      out[at + 1] := |bytes|;
      Copy(out, at + 2, bytes);
      Adjacent(out[..], at, [ValueToOpN(version), |bytes|], bytes);
    }
    written := written + 1;
  }

  lemma ScriptOfDecoded(addr: string, family: string)
    ensures ScriptOf(addr, family).Some? == DecodeAddress(Bech32, family, addr).Some?
    ensures var p := DecodeAddress(Bech32, family, addr);
            p.Some? ==> family != "" && |addr| >= 8 && Allowed(Bech32, p.value.version, |p.value.bytes|)
                        && ScriptOf(addr, family).value == WitnessScript(p.value.version, p.value.bytes)
  {
    if DecodeAddress(Bech32, family, addr).Some? {
      AddressIsCanonical(Bech32, family, addr);
    }
  }

  /** `wally_addr_segwit_n_to_bytes`: `len` bytes at `at` of `out` are the caller's buffer. */
  method AddrToBytes(out: array<nat>, at: nat, len: nat, addr: string, family: string)
    returns (status: Status, written: nat)
    requires at + len <= out.Length
    modifies out
    ensures var s := ScriptOf(addr, family);
            if s.Some? && len >= 2
            then status == Ok && written == |s.value| && (written <= len ==> out[at..at + written] == s.value)
            else status == Invalid && written == 0
    ensures out[..at] == old(out[..at]) && out[at + len..] == old(out[at + len..])
    ensures var s := ScriptOf(addr, family);
            if s.Some? && len > 0
            then len < |s.value| ==> out[..] == old(out[..])[at := s.value[0]]
            else out[..] == old(out[..])
  {
    ScriptOfDecoded(addr, family);
    if family == "" || |addr| < 8 || len == 0 {
      return Invalid, 0;
    }
    var decoded := new nat[40];
    var ok, version, size := ReadAddress(decoded, Bech32, family, addr);
    if !ok {
      return Invalid, 0;
    }
    status, written := WriteScript(out, at, len, decoded[..size], version);
  }

  /** `wally_addr_segwit_n_get_version` */
  method GetVersion(addr: string, family: string) returns (status: Status, version: nat)
    ensures var p := DecodeAddress(Bech32, family, addr);
            if p.Some? then status == Ok && version == p.value.version else status == Invalid && version == 0
  {
    var program := new nat[42];
    status, version := AddrToBytes(program, 0, 42, addr, family);
    if status == Ok {
      ghost var p := DecodeAddress(Bech32, family, addr).value;
      AddressIsCanonical(Bech32, family, addr);
      WitnessScriptReads(p.version, p.bytes);
      assert program[0] == program[0..version][0];
      var n := OpN(program[0]);
      status := if n.None? then Invalid else Ok;
      version := if n.None? then 0 else n.value;
    }
  }

  /** Lines 234-237 and 268-271: a confidential address that holds a key and a hash. */
  method ReadConfidential(buf: array<nat>, address: string, confidentialFamily: string)
    returns (ok: bool, version: nat, written: nat)
    requires buf.Length == 1000
    modifies buf
    ensures written <= buf.Length
    ensures ok <==> KeyAndProgram(address, confidentialFamily).Some?
    ensures ok ==> var p := KeyAndProgram(address, confidentialFamily).value;
                   version == p.version && buf[..written] == p.bytes && (written == 53 || written == 65)
  {
    ok, version, written := ReadAddress(buf, Blech32, confidentialFamily, address);
    ok := ok && (written == 53 || written == 65);
  }

  /** Lines 239-241: the script is put together over the end of the key. */
  method OverlayScript(buf: array<nat>, version: nat, size: nat, ghost program: Bytes) returns (end: nat)
    requires buf.Length == 1000 && version <= 16 && (size == 53 || size == 65) && buf[..size] == program
    modifies buf
    ensures end == size && buf[31..end] == WitnessScript(version, program[KEY_LEN..])
  {
    var p := 31;
    ghost var bytes := program[KEY_LEN..];
    assert buf[KEY_LEN..size] == bytes;
    var written := size - 33 + 2;
    buf[p] := ValueToOpN(version);
    buf[p + 1] := written - 2;
    Adjacent(buf[..], p, [ValueToOpN(version), |bytes|], bytes);
    end := p + written;
  }

  /** `wally_confidential_addr_to_addr_segwit` */
  method AddrFromConfidential(address: string, confidentialFamily: string, family: string)
    returns (result: Result<string>)
    ensures result == FromConfidential(address, confidentialFamily, family)
  {
    var buf := new nat[1000];
    var ok, version, written := ReadConfidential(buf, address, confidentialFamily);
    if !ok {
      return Failed(Invalid);
    }
    ghost var p := KeyAndProgram(address, confidentialFamily).value;
    var end := OverlayScript(buf, version, written, p.bytes);
    result := AddrFromBytes(buf[31..end], family);
  }

  lemma KeyOfDecoded(address: string, confidentialFamily: string, bytes: seq<nat>)
    requires KeyAndProgram(address, confidentialFamily).Some?
    requires bytes == KeyAndProgram(address, confidentialFamily).value.bytes
    ensures BlindingKey(address, confidentialFamily).Done?
    ensures BlindingKey(address, confidentialFamily).value == bytes[..KEY_LEN]
  {
  }

  /** `wally_confidential_addr_segwit_to_ec_public_key` */
  method KeyFromConfidential(address: string, confidentialFamily: string, out: array<nat>) returns (status: Status)
    modifies out
    ensures if out.Length == KEY_LEN && BlindingKey(address, confidentialFamily).Done?
            then status == Ok && out[..] == BlindingKey(address, confidentialFamily).value
            else status == Invalid && out[..] == old(out[..])
  {
    if out.Length != KEY_LEN {
      return Invalid;
    }
    var buf := new nat[1000];
    var ok, version, written := ReadConfidential(buf, address, confidentialFamily);
    if !ok {
      return Invalid;
    }
    Copy(out, 0, buf[..KEY_LEN]);
    assert out[..] == out[0..KEY_LEN];
    KeyOfDecoded(address, confidentialFamily, buf[..written]);
    status := Ok;
  }

  /** Lines 315-323: the key is copied over the version and push bytes of the script. */
  method OverlayKey(buf: array<nat>, written: nat, key: Bytes33, ghost version: nat, ghost bytes: Bytes)
    returns (op: Byte, end: nat)
    requires buf.Length == 65 && version <= 16 && written == |bytes| + 2 <= 34
    requires buf[31..31 + written] == WitnessScript(version, bytes)
    modifies buf
    ensures OpN(op) == Some(version) && end == KEY_LEN + |bytes| && buf[..end] == key + bytes
  {
    WitnessScriptReads(version, bytes);
    assert buf[31..31 + written][0] == buf[31] && buf[31..31 + written][2..] == buf[33..31 + written];
    op := buf[31];
    Copy(buf, 0, key);
    end := written - 2 + 33;
    assert buf[33..end] == bytes;
    Adjacent(buf[..], 0, key, bytes);
    assert buf[..end] == buf[0..end];
  }

  /** `wally_confidential_addr_from_addr_segwit` */
  method AddrToConfidential(address: string, family: string, confidentialFamily: string, key: Bytes33)
    returns (result: Result<string>)
    ensures result == ToConfidential(address, family, confidentialFamily, key)
  {
    if |confidentialFamily| >= 1000 {
      return Failed(Invalid);
    }
    ToConfidentialParts(address, family, confidentialFamily, key);
    ScriptOfDecoded(address, family);
    var buf := new nat[65];
    var status, written := AddrToBytes(buf, 31, 34, address, family);
    if status != Ok || (written != 22 && written != 34) {
      return Failed(Invalid);
    }
    ghost var p := DecodeAddress(Bech32, family, address).value;
    var op, end := OverlayKey(buf, written, key, p.version, p.bytes);
    var version := OpN(op);
    if version.None? {
      return Failed(Invalid);
    }
    var addr := AddressString(Blech32, confidentialFamily, version.value, buf[..end]);
    result := if addr.None? then Failed(Error) else Done(addr.value);
  }
}
