/** Extended keys and one-step child derivation: src/bip32.c, and the
    'Child key derivation (CKD) functions' section of BIP32. */
module Bip32 {
  import opened Common
  import opened Radix

  /** The bits of a `flags` argument that derivation looks at; `undefined` says that
      some bit outside `BIP32_ALL_DEFINED_FLAGS` is set. */
  datatype Flags = Flags(keyPublic: bool, skipHash: bool, tweakSum: bool, undefined: bool)

  const VER_MAIN_PUBLIC: nat := 0x0488B21E
  const VER_MAIN_PRIVATE: nat := 0x0488ADE4
  const VER_TEST_PUBLIC: nat := 0x043587CF
  const VER_TEST_PRIVATE: nat := 0x04358394

  /** The order of the secp256k1 group. */
  const ORDER: nat := 0xFFFFFFFF_FFFFFFFF_FFFFFFFF_FFFFFFFE_BAAEDCE6_AF48A03B_BFD25E8C_D0364141

  function Parse256(b: Bytes32): (x: nat) {
    ValueBound(256, b);
    Value(256, b)
  }

  function Ser256(x: nat): (b: Bytes32) {
    Fixed(256, x, 32)
  }

  function Ser32(x: nat): (b: Bytes)
    ensures |b| == 4
  {
    Fixed(256, x, 4)
  }

  predicate ValidSecret(key: Bytes32) {
    0 < Parse256(key) < ORDER
  }

  /** Addition of a tweak to a secret: fails on an invalid secret, an oversized
      tweak or a zero sum. */
  function AddScalars(key: Bytes32, tweak: Bytes32): Option<Bytes32> {
    var k, t := Parse256(key), Parse256(tweak);
    if 0 < k < ORDER && t < ORDER && (k + t) % ORDER != 0 then Some(Ser256((k + t) % ORDER)) else None
  }

  /** The hash functions and secp256k1 operations the derivation calls. */
  datatype Crypto = Crypto(
    hmacSha512: (Bytes, Bytes) -> Bytes64,
    hash160: Bytes -> Bytes20,
    seckeyTweakAdd: (Bytes32, Bytes32) -> Option<Bytes32>,
    pubkeyCreate: Bytes32 -> Option<Bytes33>,
    pubkeyTweakAdd: (Bytes33, Bytes32) -> Option<Bytes33>)
  {
    /** The group laws: secrets add modulo the order, exactly the valid secrets
        have public keys, and tweaking the public key of a secret gives the public
        key of the tweaked secret, failing with it. */
    ghost predicate Lawful() {
      && (forall key, t :: seckeyTweakAdd(key, t) == AddScalars(key, t))
      && (forall key :: pubkeyCreate(key).Some? <==> ValidSecret(key))
      && (forall key, t {:trigger pubkeyTweakAdd(pubkeyCreate(key).value, t)} :: ValidSecret(key) ==>
            pubkeyTweakAdd(pubkeyCreate(key).value, t) ==
            match AddScalars(key, t) case Some(sum) => pubkeyCreate(sum) case None => None)
    }
  }

  /** The fields of `struct ext_key`. */
  datatype Key = Key(chainCode: Bytes32, parent160: Bytes20, depth: nat, privKey: Bytes33, childNum: nat,
                     hash160: Bytes20, version: nat, pubKey: Bytes33, tweakSum: Bytes32)
  {
    predicate IsPrivate() {
      privKey[0] == 0
    }

    function Secret(): Bytes32 {
      privKey[1..]
    }

    /** A private key holds a valid scalar and its public key. */
    ghost predicate Consistent(c: Crypto) {
      IsPrivate() ==> c.pubkeyCreate(Secret()) == Some(pubKey)
    }
  }

  const WIPED: Key := Key(Zeros(32), Zeros(20), 0, Zeros(33), 0, Zeros(20), 0, Zeros(33), Zeros(32))

  predicate IsHardened(childNum: nat) {
    childNum >= HARDENED
  }

  predicate IsMainnet(version: nat) {
    version == VER_MAIN_PRIVATE || version == VER_MAIN_PUBLIC
  }

  /** What `bip32_key_strip_private_key` leaves in `priv_key`. */
  const STRIPPED: Bytes33 := [1] + Zeros(32)

  /** BIP32's N((k, c)): the key without its secret. */
  function Neuter(k: Key): Key {
    k.(privKey := STRIPPED, version := if IsMainnet(k.version) then VER_MAIN_PUBLIC else VER_TEST_PUBLIC)
  }

  /** `bip32_seckey_tweak_add`: a zero sum starts with the tweak. */
  function AddToTweakSum(c: Crypto, sum: Bytes32, tweak: Bytes32): Option<Bytes32> {
    if sum != Zeros(32) then c.seckeyTweakAdd(sum, tweak) else Some(tweak)
  }

  /** The result of a derivation: refused before touching the output, failed with
      the output wiped, or a key. */
  datatype Derivation = Refused | Failed | Derived(key: Key)

  function Data(parent: Key, childNum: nat): Bytes {
    (if IsHardened(childNum) then parent.privKey else parent.pubKey) + Ser32(childNum)
  }

  /** The child's secret and public key, or None when either is invalid. */
  function ChildKeys(c: Crypto, parent: Key, il: Bytes32): Option<(Bytes33, Bytes33)> {
    if parent.IsPrivate() then
      match c.seckeyTweakAdd(parent.Secret(), il)
      case None => None
      case Some(secret) =>
        match c.pubkeyCreate(secret)
        case None => None
        case Some(pub) => Some(([parent.privKey[0]] + secret, pub))
    else
      match c.pubkeyTweakAdd(parent.pubKey, il)
      case None => None
      case Some(pub) => Some((STRIPPED, pub))
  }

  function ChildTweakSum(c: Crypto, parent: Key, il: Bytes32, flags: Flags): Option<Bytes32> {
    if flags.tweakSum then AddToTweakSum(c, parent.tweakSum, il) else Some(Zeros(32))
  }

  function ChildVersion(parent: Key, flags: Flags): nat {
    if flags.keyPublic then
      if IsMainnet(parent.version) then VER_MAIN_PUBLIC else VER_TEST_PUBLIC
    else
      if IsMainnet(parent.version) then VER_MAIN_PRIVATE else VER_TEST_PRIVATE
  }

  /** The child with its keys and tweak sum in place. */
  function ChildKey(c: Crypto, parent: Key, childNum: nat, flags: Flags, chainCode: Bytes32, priv: Bytes33,
        pub: Bytes33, sum: Bytes32): Key {
    Key(chainCode,
        if flags.skipHash then Zeros(20) else parent.hash160,
        parent.depth + 1,
        if flags.keyPublic then STRIPPED else priv,
        childNum,
        if flags.skipHash then Zeros(20) else c.hash160(pub),
        ChildVersion(parent, flags),
        pub,
        sum)
  }

  /** Lines 673-759: the derivation proper, once the arguments allow it. */
  function DeriveChild(c: Crypto, parent: Key, childNum: nat, flags: Flags): Derivation {
    var i := c.hmacSha512(parent.chainCode, Data(parent, childNum));
    match (ChildKeys(c, parent, i[..32]), ChildTweakSum(c, parent, i[..32], flags))
    case (Some((priv, pub)), Some(sum)) => Derived(ChildKey(c, parent, childNum, flags, i[32..], priv, pub, sum))
    case (_, _) => Failed
  }

  /** `bip32_key_from_parent` as a function of the parent. */
  function Derive(c: Crypto, parent: Key, childNum: nat, flags: Flags): Derivation {
    if flags.undefined then Refused
    else if !parent.IsPrivate() && (!flags.keyPublic || IsHardened(childNum)) then Failed
    else if parent.depth == 0xff then Failed
    else DeriveChild(c, parent, childNum, flags)
  }
}
