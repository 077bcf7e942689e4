/** The 'Serialization format' section of BIP32: `bip32_key_serialize`,
    `bip32_key_unserialize` and their base58 forms in src/bip32.c. */
module Bip32Serial {
  import opened Buffers
  import opened Common
  import opened Radix
  import opened Bip32
  import opened Bip32Key
  import Bip32Laws
  import Base58
  import Codec = Base58Codec

  const SERIALIZED_LEN: nat := 78
  const FINGERPRINT_LEN: nat := 4

  /** The widths of the fields in `struct ext_key`. */
  predicate Sized(k: Key) {
    k.depth < 0x100 && k.childNum < TWO_32 && k.version < TWO_32
  }

  predicate PrivateVersion(v: nat) {
    v == VER_MAIN_PRIVATE || v == VER_TEST_PRIVATE
  }

  predicate PublicVersion(v: nat) {
    v == VER_MAIN_PUBLIC || v == VER_TEST_PUBLIC
  }

  /** `key_is_valid`: for a private key only the private versions will do. */
  predicate KeyIsValid(k: Key) {
    && (PrivateVersion(k.version) || (!k.IsPrivate() && PublicVersion(k.version)))
    && k.chainCode != Zeros(32)
    && (k.pubKey[0] == 2 || k.pubKey[0] == 3) && k.pubKey[1..] != Zeros(32)
    && k.privKey[0] <= 1
    && (k.IsPrivate() ==> k.Secret() != Zeros(32))
    && (k.depth == 0 ==> k.parent160 == Zeros(20))
  }

  function PublicForm(version: nat): nat {
    if version == VER_MAIN_PRIVATE then VER_MAIN_PUBLIC
    else if version == VER_TEST_PRIVATE then VER_TEST_PUBLIC
    else version
  }

  /** The bytes of a key: of its public part, or of all of it. */
  function KeyBytes(k: Key, publicOnly: bool): (b: Bytes)
    requires Sized(k)
    ensures |b| == SERIALIZED_LEN
  {
    Ser32(if publicOnly then PublicForm(k.version) else k.version) + [k.depth] + k.parent160[..FINGERPRINT_LEN]
    + Ser32(k.childNum) + k.chainCode + (if publicOnly then k.pubKey else k.privKey)
  }

  /** `bip32_key_serialize`; `otherFlags` says that a flag besides `BIP32_FLAG_KEY_PUBLIC` is set. */
  function Serialize(k: Key, publicOnly: bool, otherFlags: bool): Option<Bytes>
    requires Sized(k)
  {
    if otherFlags || (!publicOnly && !k.IsPrivate()) || !KeyIsValid(k) then None else Some(KeyBytes(k, publicOnly))
  }

  // ----- reading

  function Read32(b: Bytes): (x: nat)
    requires |b| == 4
    ensures x < TWO_32
  {
    ValueBound(256, b);
    FourBytes();
    Value(256, b)
  }

  /** The fields in front of the key, as read. */
  function ReadFields(b: Bytes): Key
    requires |b| == SERIALIZED_LEN
  {
    Key(b[13..45], b[5..9] + Zeros(16), b[4], Zeros(33), Read32(b[9..13]), Zeros(20), Read32(b[..4]), Zeros(33),
        Zeros(32))
  }

  /** Both halves of the key at the end, from whichever is there. `verify` is `wally_ec_public_key_verify`. */
  function ReadKeys(c: Crypto, verify: Bytes33 -> bool, version: nat, key: Bytes33): Option<(Bytes33, Bytes33)> {
    if key[0] == 0 then
      if PublicVersion(version) then None
      else
        match c.pubkeyCreate(key[1..])
        case None => None
        case Some(pub) => Some((key, pub))
    else
      if PrivateVersion(version) || !verify(key) then None else Some((STRIPPED, key))
  }

  /** `bip32_key_unserialize` */
  function Unserialize(c: Crypto, verify: Bytes33 -> bool, b: Bytes): Derivation {
    if |b| != SERIALIZED_LEN then Refused
    else
      var k := ReadFields(b);
      if !PrivateVersion(k.version) && !PublicVersion(k.version) then Failed
      else
        match ReadKeys(c, verify, k.version, b[45..])
        case None => Failed
        case Some((priv, pub)) => Derived(k.(privKey := priv, pubKey := pub, hash160 := c.hash160(pub)))
  }

  // ----- round trips

  /** Zero has no public key, and public keys are compressed points other than zero. */
  ghost predicate PointsLookRight(c: Crypto, verify: Bytes33 -> bool) {
    && (forall s :: c.pubkeyCreate(s).Some? ==> s != Zeros(32) && verify(c.pubkeyCreate(s).value))
    && (forall p :: verify(p) ==> (p[0] == 2 || p[0] == 3) && p[1..] != Zeros(32))
  }

  /** This can be met together with the laws of derivation, and by some public key. */
  lemma PointsCanLookRight()
    ensures exists c: Crypto, verify: Bytes33 -> bool, p: Bytes33 ::
              c.Lawful() && PointsLookRight(c, verify) && verify(p)
  {
    var c := Bip32Laws.ToyCrypto(Zeros(64));
    var verify := (p: Bytes33) => p[0] == 2 && p[1..] != Zeros(32);
    Bip32Laws.ToyIsLawful(Zeros(64));
    forall s: Bytes32 | c.pubkeyCreate(s).Some? ensures s != Zeros(32) && verify(c.pubkeyCreate(s).value) {
      Bip32Laws.ZeroScalar(s);
      assert c.pubkeyCreate(s).value[1..] == s;
    }
    assert PointsLookRight(c, verify);
    var p: Bytes33 := Zeros(33)[0 := 2][1 := 1];
    assert p[1..][0] != Zeros(32)[0];
    assert verify(p);
  }

  /** What reading can restore: the parent's fingerprint, the recomputed hash, no tweak sum. */
  function Restored(c: Crypto, k: Key): Key {
    k.(parent160 := k.parent160[..FINGERPRINT_LEN] + Zeros(16), hash160 := c.hash160(k.pubKey), tweakSum := Zeros(32))
  }

  lemma ReadSer32(x: nat)
    requires x < TWO_32
    ensures Read32(Ser32(x)) == x
  {
    FourBytes();
    ValueFixed(256, x, 4);
  }

  lemma SerRead32(b: Bytes)
    requires |b| == 4
    ensures Ser32(Read32(b)) == b
  {
    FixedValue(256, b);
  }

  /** The six fields of 78 bytes. */
  lemma Fields(v: Bytes, d: Byte, p: Bytes, n: Bytes, cc: Bytes, key: Bytes, b: Bytes)
    requires |v| == 4 && |p| == 4 && |n| == 4 && |cc| == 32 && |key| == 33
    requires b == v + [d] + p + n + cc + key
    ensures b[..4] == v && b[4] == d && b[5..9] == p && b[9..13] == n && b[13..45] == cc && b[45..] == key
  {
  }

  lemma FieldsReadBack(k: Key, publicOnly: bool)
    requires Sized(k)
    ensures var b := KeyBytes(k, publicOnly);
            && b[45..] == (if publicOnly then k.pubKey else k.privKey)
            && ReadFields(b) == Key(k.chainCode, k.parent160[..FINGERPRINT_LEN] + Zeros(16), k.depth, Zeros(33),
                                    k.childNum, Zeros(20),
                                    if publicOnly then PublicForm(k.version) else k.version, Zeros(33), Zeros(32))
  {
    var v := if publicOnly then PublicForm(k.version) else k.version;
    var key := if publicOnly then k.pubKey else k.privKey;
    Fields(Ser32(v), k.depth, k.parent160[..4], Ser32(k.childNum), k.chainCode, key, KeyBytes(k, publicOnly));
    ReadSer32(v);
    ReadSer32(k.childNum);
  }

  lemma KeysReadBack(c: Crypto, verify: Bytes33 -> bool, k: Key, publicOnly: bool)
    requires KeyIsValid(k) && (publicOnly || k.IsPrivate()) && PointsLookRight(c, verify)
    requires if k.IsPrivate() then c.pubkeyCreate(k.Secret()) == Some(k.pubKey) else verify(k.pubKey)
    ensures ReadKeys(c, verify, if publicOnly then PublicForm(k.version) else k.version,
                     if publicOnly then k.pubKey else k.privKey) ==
            Some((if publicOnly then STRIPPED else k.privKey, k.pubKey))
  {
    assert verify(k.pubKey);
  }

  /** Reading what was written gives the key, short of what is not written. */
  lemma UnserializeSerialize(c: Crypto, verify: Bytes33 -> bool, k: Key, publicOnly: bool)
    requires Sized(k) && Serialize(k, publicOnly, false).Some? && PointsLookRight(c, verify)
    requires if k.IsPrivate() then c.pubkeyCreate(k.Secret()) == Some(k.pubKey) else verify(k.pubKey)
    ensures Unserialize(c, verify, Serialize(k, publicOnly, false).value) ==
            Derived(Restored(c, if publicOnly then Neuter(k) else k))
  {
    FieldsReadBack(k, publicOnly);
    KeysReadBack(c, verify, k, publicOnly);
  }

  lemma BytesFromFields(b: Bytes)
    requires |b| == SERIALIZED_LEN
    ensures b == b[..4] + [b[4]] + b[5..9] + b[9..13] + b[13..45] + b[45..]
  {
  }

  lemma WrittenBack(c: Crypto, verify: Bytes33 -> bool, b: Bytes)
    requires Unserialize(c, verify, b).Derived?
    ensures var k := Unserialize(c, verify, b).key;
            Sized(k) && KeyBytes(k, !k.IsPrivate()) == b
  {
    var k := Unserialize(c, verify, b).key;
    BytesFromFields(b);
    SerRead32(b[..4]);
    SerRead32(b[9..13]);
    assert k.parent160[..4] == b[5..9];
  }

  /** What was read is written back as it was, except that the writer refuses two kinds of
      key that the reader lets through: with a zero chain code, or at depth 0 with a parent. */
  lemma SerializeUnserialize(c: Crypto, verify: Bytes33 -> bool, b: Bytes)
    requires Unserialize(c, verify, b).Derived? && PointsLookRight(c, verify)
    ensures var k := Unserialize(c, verify, b).key;
            && Sized(k)
            && Serialize(k, !k.IsPrivate(), false) ==
               if b[13..45] != Zeros(32) && (b[4] == 0 ==> b[5..9] == Zeros(4)) then Some(b) else None
  {
    var k := Unserialize(c, verify, b).key;
    WrittenBack(c, verify, b);
    assert k.parent160[..4] == b[5..9];
    assert b[5..9] == Zeros(4) <==> k.parent160 == Zeros(20) by {
      assert Zeros(20)[..4] == Zeros(4) && Zeros(4) + Zeros(16) == Zeros(20);
    }
    assert verify(k.pubKey);
  }

  /** The bytes of a public key without a parent's number. */
  function PublicBytes(depth: Byte, fingerprint: Bytes4, chainCode: Bytes32, p: Bytes33): (b: Bytes)
    ensures |b| == SERIALIZED_LEN
    ensures b[..4] == Ser32(VER_MAIN_PUBLIC) && b[4] == depth && b[5..9] == fingerprint
    ensures b[13..45] == chainCode && b[45..] == p
  {
    Fields(Ser32(VER_MAIN_PUBLIC), depth, fingerprint, Zeros(4), chainCode, p,
           Ser32(VER_MAIN_PUBLIC) + [depth] + fingerprint + Zeros(4) + chainCode + p);
    Ser32(VER_MAIN_PUBLIC) + [depth] + fingerprint + Zeros(4) + chainCode + p
  }

  /** The bytes are read, and written back or not. */
  predicate ReadsBack(c: Crypto, verify: Bytes33 -> bool, b: Bytes, written: bool) {
    match Unserialize(c, verify, b)
    case Derived(k) => Sized(k) && Serialize(k, true, false) == if written then Some(b) else None
    case _ => false
  }

  /** Bytes with any depth, parent's fingerprint and chain code are read. */
  lemma PublicBytesRead(c: Crypto, verify: Bytes33 -> bool, depth: Byte, fingerprint: Bytes4, chainCode: Bytes32,
        p: Bytes33)
    requires verify(p) && PointsLookRight(c, verify)
    ensures ReadsBack(c, verify, PublicBytes(depth, fingerprint, chainCode, p),
                      chainCode != Zeros(32) && (depth == 0 ==> fingerprint == Zeros(4)))
  {
    var b := PublicBytes(depth, fingerprint, chainCode, p);
    ReadSer32(VER_MAIN_PUBLIC);
    assert ReadFields(b).version == VER_MAIN_PUBLIC;
    assert ReadKeys(c, verify, VER_MAIN_PUBLIC, b[45..]) == Some((STRIPPED, p));
    SerializeUnserialize(c, verify, b);
  }

  /** Every public key can be read with a zero chain code, or at depth 0 with a parent, and
      then cannot be written. */
  lemma ReadButNotWritten(c: Crypto, verify: Bytes33 -> bool, p: Bytes33)
    requires verify(p) && PointsLookRight(c, verify)
    ensures ReadsBack(c, verify, PublicBytes(1, Zeros(4), Zeros(32), p), false)
    ensures ReadsBack(c, verify, PublicBytes(0, [1, 0, 0, 0], [1] + Zeros(31), p), false)
  {
    PublicBytesRead(c, verify, 1, Zeros(4), Zeros(32), p);
    PublicBytesRead(c, verify, 0, [1, 0, 0, 0], [1] + Zeros(31), p);
    assert ([1, 0, 0, 0])[0] != Zeros(4)[0];
  }

  // ----- base58

  const CHECKED := Codec.Flags(true, false)

  /** `bip32_key_to_base58` */
  function ToBase58(sha256d: Bytes -> Bytes32, k: Key, publicOnly: bool, otherFlags: bool): Option<string>
    requires Sized(k)
  {
    match Serialize(k, publicOnly, otherFlags)
    case None => None
    case Some(b) => Some(Base58.Encode(Codec.WithChecksum(sha256d, b)))
  }

  /** `bip32_key_from_base58`, which decodes to a buffer of 82 bytes. */
  function FromBase58(sha256d: Bytes -> Bytes32, c: Crypto, verify: Bytes33 -> bool, s: string): Derivation {
    var r := Codec.ToBytesResult(sha256d, s, CHECKED, Zeros(SERIALIZED_LEN + 4));
    if r.ret != Ok || r.written != SERIALIZED_LEN || |r.buffer| < SERIALIZED_LEN then Refused
    else Unserialize(c, verify, r.buffer[..SERIALIZED_LEN])
  }

  /** The string form reads back like the bytes. */
  lemma FromBase58OfToBase58(sha256d: Bytes -> Bytes32, c: Crypto, verify: Bytes33 -> bool, k: Key, publicOnly: bool)
    requires Sized(k) && ToBase58(sha256d, k, publicOnly, false).Some? && PointsLookRight(c, verify)
    requires if k.IsPrivate() then c.pubkeyCreate(k.Secret()) == Some(k.pubKey) else verify(k.pubKey)
    ensures FromBase58(sha256d, c, verify, ToBase58(sha256d, k, publicOnly, false).value) ==
            Derived(Restored(c, if publicOnly then Neuter(k) else k))
  {
    var b := KeyBytes(k, publicOnly);
    var was := Zeros(SERIALIZED_LEN + 4);
    Codec.CheckedRoundTrip(sha256d, b, was);
    assert (b + Zeros(4) + was[SERIALIZED_LEN + 4..])[..SERIALIZED_LEN] == b;
    UnserializeSerialize(c, verify, k, publicOnly);
  }

  /** A string that is read is the only one that its bytes have. */
  lemma KeyStringIsCanonical(sha256d: Bytes -> Bytes32, c: Crypto, verify: Bytes33 -> bool, s: string)
    requires FromBase58(sha256d, c, verify, s).Derived? && PointsLookRight(c, verify)
    ensures var k := FromBase58(sha256d, c, verify, s).key;
            && Sized(k)
            && s == Base58.Encode(Codec.WithChecksum(sha256d, KeyBytes(k, !k.IsPrivate())))
            && (KeyIsValid(k) ==> ToBase58(sha256d, k, !k.IsPrivate(), false) == Some(s))
  {
    var was := Zeros(SERIALIZED_LEN + 4);
    var r := Codec.ToBytesResult(sha256d, s, CHECKED, was);
    Codec.AcceptedIsEncoding(sha256d, s, was);
    WrittenBack(c, verify, r.buffer[..SERIALIZED_LEN]);
  }

  // ----- the calls

  /** `copy_out`: returns where the next field goes. */
  method CopyOut(out: array<Byte>, at: nat, src: Bytes) returns (next: nat)
    requires at + |src| <= out.Length
    modifies out
    ensures next == at + |src| && out[..next] == old(out[..at]) + src
  {
    Copy(out, at, src);
    next := at + |src|;
    assert out[..next] == out[..at] + out[at..next];
  }

  /** Lines 515-531: the six fields, one after another. */
  method WriteFields(out: array<Byte>, version: nat, depth: Byte, fingerprint: Bytes4, childNum: nat,
        chainCode: Bytes32, key: Bytes33)
    requires out.Length == SERIALIZED_LEN
    modifies out
    ensures out[..] == Ser32(version) + [depth] + fingerprint + Ser32(childNum) + chainCode + key
  {
    assert out[..0] == [];
    var at := CopyOut(out, 0, Ser32(version));
    assert out[..at] == Ser32(version);
    at := CopyOut(out, at, [depth]);
    at := CopyOut(out, at, fingerprint);
    at := CopyOut(out, at, Ser32(childNum));
    at := CopyOut(out, at, chainCode);
    at := CopyOut(out, at, key);
    assert out[..at] == out[..];
  }

  /** `bip32_key_serialize` */
  method SerializeKey(hdkey: ExtKey, publicOnly: bool, otherFlags: bool, out: array<Byte>) returns (ret: Status)
    requires Sized(hdkey.Value())
    modifies out
    ensures match Serialize(hdkey.Value(), publicOnly, otherFlags)
            case Some(b) =>
              if out.Length == SERIALIZED_LEN then ret == Ok && out[..] == b
              else ret == Invalid && out[..] == old(out[..])
            case None => ret == Invalid && out[..] == old(out[..])
  {
    if otherFlags {
      return Invalid;
    }
    if (!publicOnly && hdkey.privKey[0] != 0) || !KeyIsValid(hdkey.Value()) || out.Length != SERIALIZED_LEN {
      return Invalid;
    }
    var version := hdkey.version;
    if publicOnly {
      if version == VER_MAIN_PRIVATE {
        version := VER_MAIN_PUBLIC;
      } else if version == VER_TEST_PRIVATE {
        version := VER_TEST_PUBLIC;
      }
    }
    WriteFields(out, version, hdkey.depth, hdkey.parent160[..FINGERPRINT_LEN], hdkey.childNum, hdkey.chainCode,
                if publicOnly then hdkey.pubKey else hdkey.privKey);
    ret := Ok;
  }

  /** Lines 567-585: the key at the end, and what follows from it. */
  method ReadKeysInto(c: Crypto, verify: Bytes33 -> bool, key: Bytes33, keyOut: ExtKey) returns (ok: bool)
    modifies keyOut`privKey, keyOut`pubKey
    ensures match ReadKeys(c, verify, keyOut.version, key)
            case None => !ok
            case Some((priv, pub)) => ok && keyOut.privKey == priv && keyOut.pubKey == pub
  {
    if key[0] == 0 {
      if PublicVersion(keyOut.version) {
        return false;
      }
      keyOut.privKey := key;
      var pub := c.pubkeyCreate(keyOut.privKey[1..]);
      if pub.None? {
        return false;
      }
      keyOut.pubKey := pub.value;
    } else {
      if PrivateVersion(keyOut.version) || !verify(key) {
        return false;
      }
      keyOut.pubKey := key;
      keyOut.StripPrivateKey();
    }
    ok := true;
  }

  /** `bip32_key_unserialize`: refused without touching the output, or wiped on failure. */
  method UnserializeKey(c: Crypto, verify: Bytes33 -> bool, bytes: Bytes, keyOut: ExtKey) returns (ret: Status)
    modifies keyOut
    ensures match Unserialize(c, verify, bytes)
            case Refused => ret == Invalid && keyOut.Value() == old(keyOut.Value())
            case Failed => ret == Invalid && keyOut.Value() == WIPED
            case Derived(k) => ret == Ok && keyOut.Value() == k
  {
    if |bytes| != SERIALIZED_LEN {
      return Invalid;
    }
    ret := keyOut.WipeFail();
    keyOut.version := Read32(bytes[..4]);
    if !PrivateVersion(keyOut.version) && !PublicVersion(keyOut.version) {
      ret := keyOut.WipeFail();
      return;
    }
    keyOut.depth := bytes[4];
    keyOut.parent160 := bytes[5..9] + keyOut.parent160[FINGERPRINT_LEN..];
    assert keyOut.parent160 == bytes[5..9] + Zeros(16);
    keyOut.childNum := Read32(bytes[9..13]);
    keyOut.chainCode := bytes[13..45];
    var ok := ReadKeysInto(c, verify, bytes[45..], keyOut);
    if !ok {
      ret := keyOut.WipeFail();
      return;
    }
    keyOut.hash160 := c.hash160(keyOut.pubKey);
    ret := Ok;
  }
}
