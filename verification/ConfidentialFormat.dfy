/** Scripts, addresses and confidential addresses by what they hold: a witness script is a version
    and a push, and a confidential address is an address of the blinding key with the program
    behind it. */
module ConfidentialFormat {
  import opened Common
  import opened Polymod
  import opened Checksums
  import opened SegwitAddress
  import opened Script
  import opened ConfidentialAddress
  import opened Bip173

  // ----- scripts

  /** OP_0 is version 0, and OP_1 to OP_16 are the others. */
  predicate IsVersion(op: Byte, version: nat) {
    if version == 0 then op == 0 else version <= 16 && op == 0x50 + version
  }

  function TwoBytes(a: nat, b: nat): nat {
    a + 0x100 * b
  }

  function FourBytes(a: nat, b: nat, c: nat, d: nat): nat {
    a + 0x100 * b + 0x1_0000 * c + 0x100_0000 * d
  }

  /** How many bytes the push at the start of `b` announces: in the opcode up to 75, or in one,
      two or four bytes behind it, the least significant first. All of them must be there. */
  predicate Pushes(b: Bytes, n: nat) {
    && b != []
    && if b[0] < 76 then n == b[0] && 1 + n <= |b|
       else if b[0] == 76 then |b| >= 2 && n == b[1] && 2 + n <= |b|
       else if b[0] == 77 then |b| >= 3 && n == TwoBytes(b[1], b[2]) && 3 + n <= |b|
       else
         && b[0] == 78 && |b| >= 5
         && n == FourBytes(b[1], b[2], b[3], b[4]) && 5 + n <= |b|
  }

  lemma VersionIs(op: Byte, version: nat)
    ensures OpN(op) == Some(version) <==> IsVersion(op, version)
    ensures version <= 16 ==> (ValueToOpN(version) == op <==> IsVersion(op, version))
  {
  }

  lemma {:induction false} LittleEndianIs(b: Bytes)
    ensures |b| == 1 ==> LittleEndian(b) == b[0]
    ensures |b| == 2 ==> LittleEndian(b) == TwoBytes(b[0], b[1])
    ensures |b| == 4 ==> LittleEndian(b) == FourBytes(b[0], b[1], b[2], b[3])
  {
    if |b| == 1 || |b| == 2 || |b| == 4 {
      assert LittleEndian(b[|b|..]) == 0;
      assert LittleEndian(b[|b| - 1..]) == b[|b| - 1];
      if |b| == 2 || |b| == 4 {
        assert LittleEndian(b[|b| - 2..]) == TwoBytes(b[|b| - 2], b[|b| - 1]);
      }
      if |b| == 4 {
        assert b[1..][1..] == b[2..];
        assert LittleEndian(b[1..]) == b[1] + 256 * LittleEndian(b[2..]);
      }
    }
  }

  lemma PushIs(b: Bytes, n: nat)
    ensures PushSize(b) == Some(n) <==> Pushes(b, n)
  {
    if b != [] && b[0] == 76 && |b| >= 2 {
      LittleEndianIs(b[1..2]);
    } else if b != [] && b[0] == 77 && |b| >= 3 {
      LittleEndianIs(b[1..3]);
    } else if b != [] && b[0] == 78 && |b| >= 5 {
      LittleEndianIs(b[1..5]);
    }
  }

  /** A version, and a push that for version 0 is of 20 or 32 bytes. */
  ghost predicate WitnessVersion(script: Bytes, version: nat) {
    && |script| >= 2 && IsVersion(script[0], version)
    && exists n: nat :: Pushes(script[1..], n) && (version == 0 ==> n == 20 || n == 32)
  }

  lemma WitnessVersionIs(script: Bytes, version: nat)
    ensures WitnessVersion(script, version) <==>
            && script != [] && OpN(script[0]) == Some(version) && PushSize(script[1..]).Some?
            && (version == 0 ==> PushSize(script[1..]).value == 20 || PushSize(script[1..]).value == 32)
  {
    if script != [] {
      VersionIs(script[0], version);
      if PushSize(script[1..]).Some? {
        PushIs(script[1..], PushSize(script[1..]).value);
      }
      forall n: nat | Pushes(script[1..], n) ensures PushSize(script[1..]) == Some(n) {
        PushIs(script[1..], n);
      }
    }
  }

  /** A script gives exactly the address of its version and of all that follows the second byte. */
  lemma FromScriptExactly(script: Bytes, family: string, addr: string)
    ensures FromScript(script, family) == Done(addr) <==>
            exists version: nat :: WitnessVersion(script, version) &&
                              Bip173Address(Bech32, family, version, script[2..], addr)
  {
    if script != [] && OpN(script[0]).Some? {
      WitnessVersionIs(script, OpN(script[0]).value);
      if |script| >= 2 {
        EncodesBip173(Bech32, family, OpN(script[0]).value, script[2..], addr);
      }
    }
    forall version: nat | WitnessVersion(script, version) ensures script != [] && OpN(script[0]) == Some(version) {
      WitnessVersionIs(script, version);
    }
  }

  lemma ScriptIs(script: Bytes, version: nat, bytes: Bytes)
    requires version <= 16 && |bytes| < 76
    ensures WitnessScript(version, bytes) == script <==>
            |script| >= 2 && IsVersion(script[0], version) && script[1] == |bytes| && script[2..] == bytes
  {
    if |script| >= 2 {
      VersionIs(script[0], version);
      assert script == [script[0], script[1]] + script[2..];
    }
  }

  /** The script of an address: its version's opcode, one byte with the program's length, and the program. */
  lemma ScriptOfExactly(addr: string, family: string, script: Bytes)
    ensures ScriptOf(addr, family) == Some(script) <==>
            exists p :: DecodeAddress(Bech32, family, addr) == Some(p) && |script| >= 2 &&
                        IsVersion(script[0], p.version) && script[1] == |p.bytes| && script[2..] == p.bytes
  {
    var r := DecodeAddress(Bech32, family, addr);
    if r.Some? {
      AddressIsCanonical(Bech32, family, addr);
      ScriptOfProgram(addr, family, r.value.version, r.value.bytes);
      ScriptIs(script, r.value.version, r.value.bytes);
    }
  }

  // ----- confidential addresses

  /** The confidential address holds the key in front of the address's own program. */
  lemma ToConfidentialExactly(address: string, family: string, confidentialFamily: string, key: Bytes33, c: string)
    ensures ToConfidential(address, family, confidentialFamily, key) == Done(c) <==>
            exists p :: DecodeAddress(Bech32, family, address) == Some(p) && (|p.bytes| == 20 || |p.bytes| == 32) &&
                        Bip173Address(Blech32, confidentialFamily, p.version, key + p.bytes, c)
  {
    var r := DecodeAddress(Bech32, family, address);
    if r.Some? {
      EncodesBip173(Blech32, confidentialFamily, r.value.version, key + r.value.bytes, c);
      if Bip173Address(Blech32, confidentialFamily, r.value.version, key + r.value.bytes, c) {
        AddressLength(Blech32, confidentialFamily, r.value.version, key + r.value.bytes, c);
      }
    }
  }

  /** Its first 33 bytes are the blinding key. */
  lemma BlindingKeyExactly(c: string, confidentialFamily: string, key: Bytes)
    ensures BlindingKey(c, confidentialFamily) == Done(key) <==>
            exists p :: DecodeAddress(Blech32, confidentialFamily, c) == Some(p) &&
                        (|p.bytes| == 33 + 20 || |p.bytes| == 33 + 32) && key == p.bytes[..33]
  {
  }

  /** And the others are the program of its address. */
  lemma FromConfidentialExactly(c: string, confidentialFamily: string, family: string, addr: string)
    ensures FromConfidential(c, confidentialFamily, family) == Done(addr) <==>
            exists p :: DecodeAddress(Blech32, confidentialFamily, c) == Some(p) &&
                        (|p.bytes| == 33 + 20 || |p.bytes| == 33 + 32) &&
                        Bip173Address(Bech32, family, p.version, p.bytes[33..], addr)
  {
    var r := KeyAndProgram(c, confidentialFamily);
    if r.Some? {
      AddressInConfidential(c, confidentialFamily, family);
      EncodesBip173(Bech32, family, r.value.version, r.value.bytes[33..], addr);
    }
  }
}
