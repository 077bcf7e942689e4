/** The exported address functions of src/bech32.c and src/blech32.c: witness scripts
    to and from segwit addresses, and segwit addresses to and from confidential ones. */
module ConfidentialAddress {
  import opened Common
  import opened Polymod
  import opened Charset
  import opened Checksums
  import opened Bech32
  import opened SegwitAddress
  import opened Script

  const KEY_LEN: nat := 33

  datatype Result<+T> = Done(value: T) | Failed(status: Status)

  /** `wally_addr_segwit_from_bytes` */
  function FromScript(script: Bytes, family: string): Result<string> {
    if script == [] || OpN(script[0]).None? || PushSize(script[1..]).None? then Failed(Invalid)
    else
      var version, size := OpN(script[0]).value, PushSize(script[1..]).value;
      if version == 0 && size != 20 && size != 32 then Failed(Invalid)
      else
        match EncodeAddress(Bech32, family, version, script[2..])
        case None => Failed(Error)
        case Some(addr) => Done(addr)
  }

  /** The witness script of an address. */
  function ScriptOf(addr: string, family: string): Option<Bytes> {
    match DecodeAddress(Bech32, family, addr)
    case None => None
    case Some(p) =>
      AddressIsCanonical(Bech32, family, addr);
      Some(WitnessScript(p.version, p.bytes))
  }

  /** The confidential address decoded, when its program is a key and a v0 or v1+ hash. */
  function KeyAndProgram(address: string, confidentialFamily: string): (r: Option<Program>)
    ensures r.Some? ==> |r.value.bytes| > KEY_LEN && r.value.version <= 16
  {
    match DecodeAddress(Blech32, confidentialFamily, address)
    case None => None
    case Some(p) =>
      AddressIsCanonical(Blech32, confidentialFamily, address);
      if |p.bytes| == 53 || |p.bytes| == 65 then Some(p) else None
  }

  /** `wally_confidential_addr_to_addr_segwit` */
  function FromConfidential(address: string, confidentialFamily: string, family: string): Result<string> {
    match KeyAndProgram(address, confidentialFamily)
    case None => Failed(Invalid)
    case Some(p) =>
      if |p.bytes| - KEY_LEN < 76 then FromScript(WitnessScript(p.version, p.bytes[KEY_LEN..]), family)
      else Failed(Invalid)
  }

  /** `wally_confidential_addr_segwit_to_ec_public_key` */
  function BlindingKey(address: string, confidentialFamily: string): Result<Bytes> {
    match KeyAndProgram(address, confidentialFamily)
    case None => Failed(Invalid)
    case Some(p) => Done(p.bytes[..KEY_LEN])
  }

  /** `wally_confidential_addr_from_addr_segwit` */
  function ToConfidential(address: string, family: string, confidentialFamily: string, key: Bytes33): Result<string> {
    if |confidentialFamily| >= 1000 then Failed(Invalid)
    else
      match DecodeAddress(Bech32, family, address)
      case None => Failed(Invalid)
      case Some(p) =>
        if |p.bytes| != 20 && |p.bytes| != 32 then Failed(Invalid)
        else
          match EncodeAddress(Blech32, confidentialFamily, p.version, key + p.bytes)
          case None => Failed(Error)
          case Some(addr) => Done(addr)
  }

  // ----- scripts

  lemma ScriptParts(script: Bytes, family: string)
    requires FromScript(script, family).Done?
    ensures |script| >= 2 && OpN(script[0]).Some? && Allowed(Bech32, OpN(script[0]).value, |script[2..]|)
    ensures EncodeAddress(Bech32, family, OpN(script[0]).value, script[2..]) == Some(FromScript(script, family).value)
  {
  }

  lemma ScriptOfProgram(addr: string, family: string, version: nat, bytes: Bytes)
    requires Allowed(Bech32, version, |bytes|) && DecodeAddress(Bech32, family, addr) == Some(Program(version, bytes))
    ensures ScriptOf(addr, family) == Some(WitnessScript(version, bytes))
  {
  }

  lemma RewrittenScript(script: Bytes)
    requires 2 <= |script| <= 42 && OpN(script[0]).Some?
    ensures WitnessScript(OpN(script[0]).value, script[2..]) == script[1 := |script| - 2]
  {
    OpNInverse(script[0]);
  }

  lemma ScriptOfEncoded(family: string, version: nat, bytes: Bytes, addr: string)
    requires family != "" && EncodeAddress(Bech32, family, version, bytes) == Some(addr)
    requires Allowed(Bech32, version, |bytes|)
    ensures ScriptOf(addr, family) == Some(WitnessScript(version, bytes))
  {
    DecodeEncodeAddress(Bech32, family, version, bytes);
    ScriptOfProgram(addr, family, version, bytes);
  }

  /** A script that gives an address comes back with its push rewritten: the bytes after the
      first two are kept, and the second becomes their number. */
  lemma ScriptRoundTrip(script: Bytes, family: string)
    requires family != "" && FromScript(script, family).Done?
    ensures |script| >= 2 && |script| - 2 <= 40
    ensures ScriptOf(FromScript(script, family).value, family) == Some(script[1 := |script| - 2])
  {
    ScriptParts(script, family);
    ScriptOfEncoded(family, OpN(script[0]).value, script[2..], FromScript(script, family).value);
    RewrittenScript(script);
  }

  lemma SameScript(s: Bytes, b: Byte, r: Option<Bytes>)
    requires |s| >= 2 && r == Some(s[1 := b])
    ensures r == Some(s) <==> s[1] == b
  {
    assert s[1 := b][1] == b;
    assert s[1] == b ==> s[1 := b] == s;
  }

  lemma ScriptComesBack(script: Bytes, family: string, r: Result<string>)
    requires family != "" && r == FromScript(script, family) && r.Done?
    ensures |script| >= 2
    ensures ScriptOf(r.value, family) == Some(script) <==> script[1] == |script| - 2
  {
    ScriptRoundTrip(script, family);
    SameScript(script, |script| - 2, ScriptOf(r.value, family));
  }

  /** The push must be a direct one of all that follows for the script to come back unchanged. */
  lemma ScriptComesBackExactly(script: Bytes, family: string)
    requires family != "" && FromScript(script, family).Done?
    ensures |script| >= 2
    ensures ScriptOf(FromScript(script, family).value, family) == Some(script) <==> script[1] == |script| - 2
  {
    ScriptComesBack(script, family, FromScript(script, family));
  }

  /** The script is accepted, and its address's script is another. */
  predicate Rewritten(script: Bytes, family: string) {
    var r := FromScript(script, family);
    r.Done? && ScriptOf(r.value, family) != Some(script)
  }

  lemma LooseScript(script: Bytes, family: string)
    requires PrintableChars(family) && NoUpper(family) && 0 < |family| <= 70
    requires |script| == 5 && script[0] == 0x51 && PushSize(script[1..]).Some? && script[1] != 3
    ensures Rewritten(script, family)
  {
    EncodesExactly(Bech32, family, 1, script[2..]);
    ScriptComesBackExactly(script, family);
  }

  lemma LoosePushes()
    ensures PushSize([2, 7, 8, 9]) == Some(2) && PushSize([0x4c, 2, 7, 8]) == Some(2)
  {
    assert ([0x4c, 2, 7, 8])[1..2] == [2] && LittleEndian([2]) == 2;
  }

  /** Scripts that are accepted and do not come back: a push of two of the three bytes that
      follow, and a push that gives its size in a byte of its own. */
  lemma LooseScripts(family: string)
    requires PrintableChars(family) && NoUpper(family) && 0 < |family| <= 70
    ensures Rewritten([0x51, 2, 7, 8, 9], family) && Rewritten([0x51, 0x4c, 2, 7, 8], family)
  {
    LoosePushes();
    assert [0x51, 2, 7, 8, 9][1..] == [2, 7, 8, 9] && [0x51, 0x4c, 2, 7, 8][1..] == [0x4c, 2, 7, 8];
    LooseScript([0x51, 2, 7, 8, 9], family);
    LooseScript([0x51, 0x4c, 2, 7, 8], family);
  }

  lemma AddressOfProgram(family: string, version: nat, bytes: Bytes, addr: string)
    requires version <= 16 && |bytes| < 76 && EncodeAddress(Bech32, family, version, bytes) == Some(addr)
    ensures FromScript(WitnessScript(version, bytes), family) == Done(addr)
  {
    WitnessScriptReads(version, bytes);
  }

  /** An accepted address is, but for its case, the address of its script. */
  lemma AddressOfScript(addr: string, family: string)
    requires ScriptOf(addr, family).Some?
    ensures FromScript(ScriptOf(addr, family).value, family) == Done(LowerString(addr))
  {
    var p := DecodeAddress(Bech32, family, addr).value;
    AddressIsCanonical(Bech32, family, addr);
    ScriptOfProgram(addr, family, p.version, p.bytes);
    AddressOfProgram(family, p.version, p.bytes, LowerString(addr));
  }

  // ----- confidential addresses

  lemma ProgramScript(version: nat, bytes: Bytes, family: string)
    requires version <= 16 && (|bytes| == 20 || |bytes| == 32)
    ensures FromScript(WitnessScript(version, bytes), family) ==
            match EncodeAddress(Bech32, family, version, bytes)
            case None => Failed(Error)
            case Some(addr) => Done(addr)
  {
    WitnessScriptReads(version, bytes);
  }

  lemma ToConfidentialParts(address: string, family: string, confidentialFamily: string, key: Bytes33)
    requires |confidentialFamily| < 1000
    ensures var p := DecodeAddress(Bech32, family, address);
            var r := ToConfidential(address, family, confidentialFamily, key);
            if p.None? || (|p.value.bytes| != 20 && |p.value.bytes| != 32) then r == Failed(Invalid)
            else r == match EncodeAddress(Blech32, confidentialFamily, p.value.version, key + p.value.bytes)
                      case None => Failed(Error)
                      case Some(addr) => Done(addr)
  {
  }

  /** Which addresses can be made confidential. */
  lemma ConfidentialExactly(address: string, family: string, confidentialFamily: string, key: Bytes33)
    ensures ToConfidential(address, family, confidentialFamily, key).Done? <==>
            var p := DecodeAddress(Bech32, family, address);
            && p.Some? && (|p.value.bytes| == 20 || |p.value.bytes| == 32)
            && PrintableChars(confidentialFamily) && NoUpper(confidentialFamily)
            && |confidentialFamily| + 14 + (8 * (KEY_LEN + |p.value.bytes|) + 4) / 5 <= 1000
  {
    var p := DecodeAddress(Bech32, family, address);
    if |confidentialFamily| < 1000 {
      ToConfidentialParts(address, family, confidentialFamily, key);
    }
    if p.Some? {
      AddressIsCanonical(Bech32, family, address);
      EncodesExactly(Blech32, confidentialFamily, p.value.version, key + p.value.bytes);
    }
  }

  /** What a confidential address yields is the address of its program, short of the key. */
  lemma AddressInConfidential(c: string, confidentialFamily: string, family: string)
    requires KeyAndProgram(c, confidentialFamily).Some?
    ensures var p := KeyAndProgram(c, confidentialFamily).value;
            FromConfidential(c, confidentialFamily, family) ==
            match EncodeAddress(Bech32, family, p.version, p.bytes[KEY_LEN..])
            case None => Failed(Error)
            case Some(addr) => Done(addr)
  {
    var p := KeyAndProgram(c, confidentialFamily).value;
    ProgramScript(p.version, p.bytes[KEY_LEN..], family);
  }

  lemma ConfidentialEncodes(c: string, confidentialFamily: string)
    requires KeyAndProgram(c, confidentialFamily).Some?
    ensures var p := KeyAndProgram(c, confidentialFamily).value;
            && |confidentialFamily| < 1000 && (|p.bytes| == 53 || |p.bytes| == 65)
            && EncodeAddress(Blech32, confidentialFamily, p.version, p.bytes) == Some(LowerString(c))
  {
    var p := KeyAndProgram(c, confidentialFamily).value;
    AddressIsCanonical(Blech32, confidentialFamily, c);
    EncodesExactly(Blech32, confidentialFamily, p.version, p.bytes);
  }

  lemma MadeOf(c: string, confidentialFamily: string, address: string, family: string, key: Bytes33, p: Program)
    requires |confidentialFamily| < 1000 && DecodeAddress(Bech32, family, address) == Some(p)
    requires |p.bytes| == 20 || |p.bytes| == 32
    requires EncodeAddress(Blech32, confidentialFamily, p.version, key + p.bytes) == Some(LowerString(c))
    ensures ToConfidential(address, family, confidentialFamily, key) == Done(LowerString(c))
  {
    ToConfidentialParts(address, family, confidentialFamily, key);
  }

  /** Any address of the program in a confidential address, with its key, makes it again. */
  lemma MadeAgain(c: string, confidentialFamily: string, address: string, family: string)
    requires KeyAndProgram(c, confidentialFamily).Some?
    requires var p := KeyAndProgram(c, confidentialFamily).value;
             DecodeAddress(Bech32, family, address) == Some(Program(p.version, p.bytes[KEY_LEN..]))
    ensures ToConfidential(address, family, confidentialFamily,
                           KeyAndProgram(c, confidentialFamily).value.bytes[..KEY_LEN])
            == Done(LowerString(c))
  {
    var p := KeyAndProgram(c, confidentialFamily).value;
    assert p.bytes[..KEY_LEN] + p.bytes[KEY_LEN..] == p.bytes;
    ConfidentialEncodes(c, confidentialFamily);
    MadeOf(c, confidentialFamily, address, family, p.bytes[..KEY_LEN], Program(p.version, p.bytes[KEY_LEN..]));
  }

  lemma HeldInConfidential(c: string, confidentialFamily: string, family: string, key: Bytes33, p: Program)
    requires confidentialFamily != "" && p.version <= 16 && (|p.bytes| == 20 || |p.bytes| == 32)
    requires EncodeAddress(Blech32, confidentialFamily, p.version, key + p.bytes) == Some(c)
    ensures BlindingKey(c, confidentialFamily) == Done(key)
    ensures FromConfidential(c, confidentialFamily, family) ==
            match EncodeAddress(Bech32, family, p.version, p.bytes)
            case None => Failed(Error)
            case Some(addr) => Done(addr)
  {
    DecodeEncodeAddress(Blech32, confidentialFamily, p.version, key + p.bytes);
    assert (key + p.bytes)[KEY_LEN..] == p.bytes && (key + p.bytes)[..KEY_LEN] == key;
    AddressInConfidential(c, confidentialFamily, family);
  }

  lemma MadeConfidential(address: string, family: string, confidentialFamily: string, key: Bytes33) returns (p: Program)
    requires ToConfidential(address, family, confidentialFamily, key).Done?
    ensures p.version <= 16 && (|p.bytes| == 20 || |p.bytes| == 32)
    ensures EncodeAddress(Blech32, confidentialFamily, p.version, key + p.bytes) ==
            Some(ToConfidential(address, family, confidentialFamily, key).value)
    ensures EncodeAddress(Bech32, family, p.version, p.bytes) == Some(LowerString(address))
  {
    p := DecodeAddress(Bech32, family, address).value;
    AddressIsCanonical(Bech32, family, address);
  }

  /** Making an address confidential loses nothing: the address (in lower case) and the key come back. */
  lemma ConfidentialRoundTrip(address: string, family: string, confidentialFamily: string, key: Bytes33)
    requires confidentialFamily != "" && ToConfidential(address, family, confidentialFamily, key).Done?
    ensures var c := ToConfidential(address, family, confidentialFamily, key).value;
            && FromConfidential(c, confidentialFamily, family) == Done(LowerString(address))
            && BlindingKey(c, confidentialFamily) == Done(key)
  {
    var p := MadeConfidential(address, family, confidentialFamily, key);
    HeldInConfidential(ToConfidential(address, family, confidentialFamily, key).value, confidentialFamily, family,
                       key, p);
  }

  /** The other way: an address and a key taken out of a confidential address make it again. */
  lemma ConfidentialIsCanonical(c: string, confidentialFamily: string, family: string)
    requires family != "" && FromConfidential(c, confidentialFamily, family).Done?
    ensures BlindingKey(c, confidentialFamily).Done? && |BlindingKey(c, confidentialFamily).value| == KEY_LEN
    ensures ToConfidential(FromConfidential(c, confidentialFamily, family).value, family, confidentialFamily,
                           BlindingKey(c, confidentialFamily).value) == Done(LowerString(c))
  {
    var p := KeyAndProgram(c, confidentialFamily).value;
    AddressInConfidential(c, confidentialFamily, family);
    DecodeEncodeAddress(Bech32, family, p.version, p.bytes[KEY_LEN..]);
    MadeAgain(c, confidentialFamily, FromConfidential(c, confidentialFamily, family).value, family);
  }
}
