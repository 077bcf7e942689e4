/** Serialized keys byte by byte, as the 'Serialization format' section of BIP32 lays them out. */
module Bip32Format {
  import opened Common
  import opened Radix
  import opened Bip32
  import opened Bip32Child
  import opened Bip32Serial
  import Base58
  import Base58Standard
  import Codec = Base58Codec

  // ----- writing

  /** The version bytes: xprv and tprv, xpub and tpub. */
  predicate IsPrivateVersion(b: Bytes) {
    b == [0x04, 0x88, 0xad, 0xe4] || b == [0x04, 0x35, 0x83, 0x94]
  }

  predicate IsPublicVersion(b: Bytes) {
    b == [0x04, 0x88, 0xb2, 0x1e] || b == [0x04, 0x35, 0x87, 0xcf]
  }

  /** The same network's public version. */
  function PublicBytes(b: Bytes): Bytes {
    if b == [0x04, 0x88, 0xad, 0xe4] then [0x04, 0x88, 0xb2, 0x1e]
    else if b == [0x04, 0x35, 0x83, 0x94] then [0x04, 0x35, 0x87, 0xcf]
    else b
  }

  /** Four version bytes, the depth, the parent's fingerprint, the child number, the chain code
      and 33 bytes of key: the secret after a zero, or the public key. */
  predicate LaysOut(k: Key, publicOnly: bool, b: Bytes)
    requires Sized(k)
  {
    && |b| == 78
    && b[..4] == (if publicOnly then PublicBytes(BigEndian(k.version)) else BigEndian(k.version))
    && b[4] == k.depth && b[5..9] == k.parent160[..4] && b[9..13] == BigEndian(k.childNum)
    && b[13..45] == k.chainCode && b[45..] == (if publicOnly then k.pubKey else k.privKey)
  }

  predicate AllZero(b: Bytes) {
    forall i :: 0 <= i < |b| ==> b[i] == 0
  }

  /** Which keys may be written: a secret only under a private version, and no field that a
      derived key cannot have. */
  predicate MayWrite(k: Key, publicOnly: bool)
    requires Sized(k)
  {
    && (publicOnly || k.privKey[0] == 0) && k.privKey[0] <= 1
    && (IsPrivateVersion(BigEndian(k.version)) || (k.privKey[0] == 1 && IsPublicVersion(BigEndian(k.version))))
    && !AllZero(k.chainCode) && 2 <= k.pubKey[0] <= 3 && !AllZero(k.pubKey[1..])
    && (k.privKey[0] == 0 ==> !AllZero(k.privKey[1..]))
    && (k.depth == 0 ==> AllZero(k.parent160))
  }

  lemma ZerosAreZero(b: Bytes)
    ensures b == Zeros(|b|) <==> AllZero(b)
  {
  }

  lemma SameNumber(x: nat, y: nat)
    requires x < TWO_32 && y < TWO_32 && BigEndian(x) == BigEndian(y)
    ensures x == y
  {
    Ser32IsBigEndian(x);
    Ser32IsBigEndian(y);
    ReadSer32(x);
    ReadSer32(y);
  }

  lemma IsNumber(x: nat, y: nat)
    requires x < TWO_32 && y < TWO_32
    ensures x == y <==> BigEndian(x) == BigEndian(y)
  {
    if BigEndian(x) == BigEndian(y) {
      SameNumber(x, y);
    }
  }

  lemma TheFourVersions()
    ensures BigEndian(VER_MAIN_PRIVATE) == [0x04, 0x88, 0xad, 0xe4]
    ensures BigEndian(VER_TEST_PRIVATE) == [0x04, 0x35, 0x83, 0x94]
    ensures BigEndian(VER_MAIN_PUBLIC) == [0x04, 0x88, 0xb2, 0x1e]
    ensures BigEndian(VER_TEST_PUBLIC) == [0x04, 0x35, 0x87, 0xcf]
  {
  }

  lemma VersionBytes(v: nat)
    requires v < TWO_32
    ensures PrivateVersion(v) <==> IsPrivateVersion(BigEndian(v))
    ensures PublicVersion(v) <==> IsPublicVersion(BigEndian(v))
    ensures BigEndian(PublicForm(v)) == PublicBytes(BigEndian(v))
  {
    TheFourVersions();
    IsNumber(v, VER_MAIN_PRIVATE);
    IsNumber(v, VER_TEST_PRIVATE);
    IsNumber(v, VER_MAIN_PUBLIC);
    IsNumber(v, VER_TEST_PUBLIC);
  }

  lemma ValidIsWritable(k: Key, publicOnly: bool)
    requires Sized(k)
    ensures Serialize(k, publicOnly, false).Some? <==> MayWrite(k, publicOnly)
  {
    VersionBytes(k.version);
    ZerosAreZero(k.chainCode);
    ZerosAreZero(k.pubKey[1..]);
    ZerosAreZero(k.privKey[1..]);
    ZerosAreZero(k.parent160);
  }

  lemma BytesLayOut(k: Key, publicOnly: bool, b: Bytes)
    requires Sized(k)
    ensures KeyBytes(k, publicOnly) == b <==> LaysOut(k, publicOnly, b)
  {
    var v, key := if publicOnly then PublicForm(k.version) else k.version, if publicOnly then k.pubKey else k.privKey;
    VersionBytes(k.version);
    Ser32IsBigEndian(v);
    Ser32IsBigEndian(k.childNum);
    var c := KeyBytes(k, publicOnly);
    Fields(Ser32(v), k.depth, k.parent160[..4], Ser32(k.childNum), k.chainCode, key, c);
    if LaysOut(k, publicOnly, b) {
      BytesFromFields(b);
      BytesFromFields(c);
    }
  }

  /** Exactly the keys that may be written are, and to exactly these bytes. */
  lemma SerializesExactly(k: Key, publicOnly: bool, otherFlags: bool, b: Bytes)
    requires Sized(k)
    ensures Serialize(k, publicOnly, otherFlags) == Some(b) <==>
            !otherFlags && MayWrite(k, publicOnly) && LaysOut(k, publicOnly, b)
  {
    ValidIsWritable(k, publicOnly);
    BytesLayOut(k, publicOnly, b);
  }

  // ----- reading

  /** The key that 78 bytes hold: what is not in them is zero, but for the public key's hash. */
  predicate Holds(c: Crypto, verify: Bytes33 -> bool, b: Bytes, k: Key) {
    && |b| == 78 && Sized(k)
    && b[..4] == BigEndian(k.version) && b[4] == k.depth && b[9..13] == BigEndian(k.childNum)
    && k.parent160[..4] == b[5..9] && AllZero(k.parent160[4..]) && AllZero(k.tweakSum)
    && b[13..45] == k.chainCode && k.hash160 == c.hash160(k.pubKey)
    && if b[45] == 0 then
         IsPrivateVersion(b[..4]) && k.privKey == b[45..] && c.pubkeyCreate(b[46..]) == Some(k.pubKey)
       else
         && IsPublicVersion(b[..4]) && verify(b[45..]) && k.pubKey == b[45..]
         && k.privKey[0] == 1 && AllZero(k.privKey[1..])
  }

  lemma FourBytesRead(b: Bytes)
    requires |b| == 4
    ensures Read32(b) < TWO_32 && BigEndian(Read32(b)) == b
  {
    SerRead32(b);
    Ser32IsBigEndian(Read32(b));
  }

  lemma NumberRead(x: nat, b: Bytes)
    requires x < TWO_32 && |b| == 4 && BigEndian(x) == b
    ensures Read32(b) == x
  {
    Ser32IsBigEndian(x);
    ReadSer32(x);
  }

  lemma ReadIsHeld(c: Crypto, verify: Bytes33 -> bool, b: Bytes, k: Key)
    requires Unserialize(c, verify, b) == Derived(k)
    ensures Holds(c, verify, b, k)
  {
    FourBytesRead(b[..4]);
    FourBytesRead(b[9..13]);
    VersionBytes(Read32(b[..4]));
    assert k.parent160[..4] == b[5..9] && k.parent160[4..] == Zeros(16);
    assert b[45..][1..] == b[46..];
  }

  lemma PartsOfParent(p: Bytes20, f: Bytes)
    requires |f| == 4 && p[..4] == f && AllZero(p[4..])
    ensures p == f + Zeros(16)
  {
    assert p == p[..4] + p[4..];
  }

  lemma HeldIsRead(c: Crypto, verify: Bytes33 -> bool, b: Bytes, k: Key)
    requires Holds(c, verify, b, k)
    ensures Unserialize(c, verify, b) == Derived(k)
  {
    NumberRead(k.version, b[..4]);
    NumberRead(k.childNum, b[9..13]);
    VersionBytes(k.version);
    PartsOfParent(k.parent160, b[5..9]);
    assert k.tweakSum == Zeros(32);
    assert b[45..][1..] == b[46..];
    if b[45] != 0 {
      assert k.privKey == [1] + Zeros(32) by {
        assert k.privKey == [k.privKey[0]] + k.privKey[1..];
      }
    }
  }

  /** Bytes are read as a key exactly when they hold it. */
  lemma UnserializesExactly(c: Crypto, verify: Bytes33 -> bool, b: Bytes, k: Key)
    ensures Unserialize(c, verify, b) == Derived(k) <==> Holds(c, verify, b, k)
  {
    if Unserialize(c, verify, b) == Derived(k) {
      ReadIsHeld(c, verify, b, k);
    }
    if Holds(c, verify, b, k) {
      HeldIsRead(c, verify, b, k);
    }
  }

  // ----- strings

  /** The string of a key is the Base58Check form of its bytes. */
  lemma ToBase58Exactly(sha256d: Bytes -> Bytes32, k: Key, publicOnly: bool, s: string)
    requires Sized(k)
    ensures ToBase58(sha256d, k, publicOnly, false) == Some(s) <==>
            && MayWrite(k, publicOnly)
            && exists b: Bytes :: LaysOut(k, publicOnly, b) && Base58Standard.IsBase58Check(sha256d, s, b)
  {
    var b := KeyBytes(k, publicOnly);
    ValidIsWritable(k, publicOnly);
    BytesLayOut(k, publicOnly, b);
    Base58Standard.EncodesCheckExactly(sha256d, s, b);
    forall x: Bytes | LaysOut(k, publicOnly, x) ensures x == b {
      BytesLayOut(k, publicOnly, x);
    }
  }
}
