/** Child keys as the 'Child key derivation (CKD) functions' section of BIP32 writes them: what
    is hashed, what comes of the hash, and when it fails. */
module Bip32Child {
  import opened Common
  import opened Radix
  import opened Bip32
  import Bip32Laws

  // ----- numbers

  /** ser32(i): four bytes, most significant first. */
  function BigEndian(i: nat): Bytes
    requires i < 0x1_0000_0000
  {
    [i / 0x100_0000, i / 0x1_0000 % 0x100, i / 0x100 % 0x100, i % 0x100]
  }

  /** parse256(p): the first byte counts most. */
  function Scalar(b: Bytes): nat {
    PlaceValue(256, b)
  }

  lemma Shifted(i: nat)
    requires i < 0x1_0000_0000
    ensures i / 256 / 256 == i / 0x1_0000 && i / 256 / 256 / 256 % 256 == i / 0x100_0000
  {
  }

  lemma {:induction false} FixedStep(x: nat, len: nat)
    requires len > 0
    ensures Fixed(256, x, len) == Fixed(256, x / 256, len - 1) + [x % 256]
  {
  }

  lemma {:induction false} FourDigits(x: nat)
    ensures Fixed(256, x, 4) == [x / 256 / 256 / 256 % 256, x / 256 / 256 % 256, x / 256 % 256, x % 256]
  {
    FixedStep(x, 4);
    FixedStep(x / 256, 3);
    FixedStep(x / 256 / 256, 2);
    FixedStep(x / 256 / 256 / 256, 1);
  }

  lemma {:induction false} Ser32IsBigEndian(i: nat)
    requires i < 0x1_0000_0000
    ensures Ser32(i) == BigEndian(i)
  {
    FourDigits(i);
    Shifted(i);
  }

  lemma Squared(e: nat, v: nat)
    requires Pow(2, e) == v
    ensures Pow(2, 2 * e) == v * v
  {
    PowAdd(2, e, e);
  }

  /** n, the order of secp256k1. */
  lemma OrderIs()
    ensures ORDER + 432420386565659656852420866394968145599 == Pow(2, 256)
  {
    assert Pow(2, 8) == 0x100;
    Squared(8, 0x100);
    Squared(16, 0x1_0000);
    Squared(32, 0x1_0000_0000);
    Squared(64, 0x1_0000_0000_0000_0000);
    Squared(128, 0x1_0000_0000_0000_0000_0000_0000_0000_0000);
  }

  // ----- the laws of BIP32

  /** What is hashed under the chain code: 0x00 || ser256(k) || ser32(i) for a hardened child,
      and serP(K) || ser32(i) for any other. */
  function Hashed(k: Key, i: nat): Bytes
    requires i < 0x1_0000_0000
  {
    if i >= 0x8000_0000 then [0] + k.privKey[1..] + BigEndian(i) else k.pubKey + BigEndian(i)
  }

  lemma {:induction false} DataIsHashed(k: Key, i: nat)
    requires i < 0x1_0000_0000 && (i >= 0x8000_0000 ==> k.IsPrivate())
    ensures Data(k, i) == Hashed(k, i)
  {
    Ser32IsBigEndian(i);
    assert k.IsPrivate() ==> k.privKey == [0] + k.privKey[1..];
  }

  /** The running sum of the tweaks works: it starts with the tweak, or the total is a valid scalar. */
  predicate SumWorks(k: Key, il: Bytes32, f: Flags) {
    || !f.tweakSum || k.tweakSum == Zeros(32)
    || (0 < Scalar(k.tweakSum) < ORDER && Scalar(il) < ORDER && (Scalar(k.tweakSum) + Scalar(il)) % ORDER != 0)
  }

  predicate SumOf(k: Key, il: Bytes32, f: Flags, sum: Bytes32) {
    if !f.tweakSum then sum == Zeros(32)
    else if k.tweakSum == Zeros(32) then sum == il
    else Scalar(sum) == (Scalar(k.tweakSum) + Scalar(il)) % ORDER
  }

  predicate IsMain(version: nat) {
    version == 0x0488_ADE4 || version == 0x0488_B21E
  }

  function VersionOf(k: Key, f: Flags): nat {
    if f.keyPublic then if IsMain(k.version) then 0x0488_B21E else 0x0435_87CF
    else if IsMain(k.version) then 0x0488_ADE4 else 0x0435_8394
  }

  /** The fields that do not depend on whose child it is. */
  predicate Descends(c: Crypto, k: Key, i: nat, f: Flags, h: Bytes64, child: Key) {
    && child.chainCode == h[32..] && child.depth == k.depth + 1 && child.childNum == i
    && child.parent160 == (if f.skipHash then Zeros(20) else k.hash160)
    && child.hash160 == (if f.skipHash then Zeros(20) else c.hash160(child.pubKey))
    && (f.keyPublic ==> child.privKey == [1] + Zeros(32))
    && child.version == VersionOf(k, f) && SumOf(k, h[..32], f, child.tweakSum)
  }

  /** k is valid, IL is below n and their sum modulo n is not 0. */
  predicate HasSecret(k: Key, il: Bytes32) {
    0 < Scalar(k.privKey[1..]) < ORDER && Scalar(il) < ORDER && (Scalar(il) + Scalar(k.privKey[1..])) % ORDER != 0
  }

  /** The child's secret is parse256(IL) + k modulo n, and its public key is that secret's. */
  ghost predicate SecretOf(c: Crypto, k: Key, il: Bytes32, priv: Bytes33, pub: Bytes33, f: Flags) {
    forall t: Bytes32 :: Scalar(t) == (Scalar(il) + Scalar(k.privKey[1..])) % ORDER ==>
      c.pubkeyCreate(t) == Some(pub) && (!f.keyPublic ==> priv == [0] + t)
  }

  /** CKDpriv((k, c), i), and with the public flag N of it: with I the hash, split into IL and IR,
      the child's secret comes from IL and its chain code is IR; there is none exactly when IL
      gives no secret, at depth 255, or when the tweak sum fails. */
  ghost predicate ChildOfPrivate(c: Crypto, k: Key, i: nat, f: Flags, h: Bytes64, d: Derivation) {
    match d
    case Refused => f.undefined
    case Failed => !f.undefined && (k.depth == 255 || !HasSecret(k, h[..32]) || !SumWorks(k, h[..32], f))
    case Derived(child) =>
      && !f.undefined && k.depth != 255 && HasSecret(k, h[..32]) && SumWorks(k, h[..32], f)
      && Descends(c, k, i, f, h, child) && SecretOf(c, k, h[..32], child.privKey, child.pubKey, f)
  }

  /** CKDpub((K, c), i): the point of IL is added to K. There are no hardened and no private children. */
  predicate ChildOfPublic(c: Crypto, k: Key, i: nat, f: Flags, h: Bytes64, d: Derivation) {
    var pub := c.pubkeyTweakAdd(k.pubKey, h[..32]);
    match d
    case Refused => f.undefined
    case Failed =>
      !f.undefined && (!f.keyPublic || i >= 0x8000_0000 || k.depth == 255 || pub.None? || !SumWorks(k, h[..32], f))
    case Derived(child) =>
      && !f.undefined && f.keyPublic && i < 0x8000_0000 && k.depth != 255 && SumWorks(k, h[..32], f)
      && Descends(c, k, i, f, h, child) && pub == Some(child.pubKey)
  }

  lemma ScalarIsParsed(b: Bytes32)
    ensures Scalar(b) == Parse256(b)
  {
    PlaceValueIsValue(256, b);
  }

  lemma AddedIsValid(c: Crypto, key: Bytes32, t: Bytes32)
    requires c.Lawful() && AddScalars(key, t).Some?
    ensures c.seckeyTweakAdd(key, t) == AddScalars(key, t) && c.pubkeyCreate(AddScalars(key, t).value).Some?
    ensures Parse256(AddScalars(key, t).value) == (Parse256(key) + Parse256(t)) % ORDER
  {
    Bip32Laws.SecretAdds(key, t);
  }

  lemma AddedScalar(c: Crypto, key: Bytes32, t: Bytes32)
    requires c.Lawful()
    ensures var r := c.seckeyTweakAdd(key, t);
            && (r.Some? <==> 0 < Scalar(key) < ORDER && Scalar(t) < ORDER && (Scalar(key) + Scalar(t)) % ORDER != 0)
            && (r.Some? ==> Scalar(r.value) == (Scalar(key) + Scalar(t)) % ORDER && c.pubkeyCreate(r.value).Some?)
  {
    ScalarIsParsed(key);
    ScalarIsParsed(t);
    if AddScalars(key, t).Some? {
      AddedIsValid(c, key, t);
      ScalarIsParsed(AddScalars(key, t).value);
    }
  }

  lemma SameScalar(s: Bytes32, t: Bytes32)
    requires Scalar(s) == Scalar(t)
    ensures s == t
  {
    PlaceValueIsValue(256, s);
    PlaceValueIsValue(256, t);
    ValueInjective(256, s, t);
  }

  lemma SumIs(c: Crypto, k: Key, il: Bytes32, f: Flags)
    requires c.Lawful()
    ensures ChildTweakSum(c, k, il, f).Some? <==> SumWorks(k, il, f)
    ensures ChildTweakSum(c, k, il, f).Some? ==> SumOf(k, il, f, ChildTweakSum(c, k, il, f).value)
  {
    AddedScalar(c, k.tweakSum, il);
  }

  lemma KeysArePrivate(c: Crypto, k: Key, il: Bytes32, f: Flags)
    requires c.Lawful() && k.IsPrivate()
    ensures ChildKeys(c, k, il).Some? <==> HasSecret(k, il)
    ensures ChildKeys(c, k, il).Some? ==>
              SecretOf(c, k, il, if f.keyPublic then STRIPPED else ChildKeys(c, k, il).value.0,
                       ChildKeys(c, k, il).value.1, f)
  {
    AddedScalar(c, k.Secret(), il);
    if c.seckeyTweakAdd(k.Secret(), il).Some? {
      var u := c.seckeyTweakAdd(k.Secret(), il).value;
      forall t: Bytes32 | Scalar(t) == (Scalar(il) + Scalar(k.privKey[1..])) % ORDER ensures t == u {
        SameScalar(t, u);
      }
    }
  }

  lemma ChildDescends(c: Crypto, k: Key, i: nat, f: Flags, h: Bytes64, priv: Bytes33, pub: Bytes33, sum: Bytes32)
    requires SumOf(k, h[..32], f, sum)
    ensures Descends(c, k, i, f, h, ChildKey(c, k, i, f, h[32..], priv, pub, sum))
  {
  }

  /** The child that the keys and the sum make. */
  function Made(c: Crypto, k: Key, i: nat, f: Flags, h: Bytes64): Derivation {
    match (ChildKeys(c, k, h[..32]), ChildTweakSum(c, k, h[..32], f))
    case (Some((priv, pub)), Some(sum)) => Derived(ChildKey(c, k, i, f, h[32..], priv, pub, sum))
    case (_, _) => Failed
  }

  lemma {:induction false} DeriveIsMade(c: Crypto, k: Key, i: nat, f: Flags, h: Bytes64)
    requires i < 0x1_0000_0000
    requires i < 0x8000_0000 || k.IsPrivate() ==> h == c.hmacSha512(k.chainCode, Hashed(k, i))
    ensures Derive(c, k, i, f) ==
            if f.undefined then Refused
            else if !k.IsPrivate() && (!f.keyPublic || i >= 0x8000_0000) then Failed
            else if k.depth == 255 then Failed
            else Made(c, k, i, f, h)
  {
    if i < 0x8000_0000 || k.IsPrivate() {
      DataIsHashed(k, i);
    }
  }

  lemma {:induction false} MadeOfPublic(c: Crypto, k: Key, i: nat, f: Flags, h: Bytes64)
    requires c.Lawful() && !k.IsPrivate() && !f.undefined && f.keyPublic && i < 0x8000_0000 && k.depth != 255
    ensures ChildOfPublic(c, k, i, f, h, Made(c, k, i, f, h))
  {
    var il: Bytes32 := h[..32];
    SumIs(c, k, il, f);
    match (ChildKeys(c, k, il), ChildTweakSum(c, k, il, f))
    case (Some((priv, pub)), Some(sum)) => ChildDescends(c, k, i, f, h, priv, pub, sum);
    case (_, _) =>
  }

  lemma {:induction false} MadeOfPrivate(c: Crypto, k: Key, i: nat, f: Flags, h: Bytes64)
    requires c.Lawful() && k.IsPrivate() && !f.undefined && k.depth != 255
    ensures ChildOfPrivate(c, k, i, f, h, Made(c, k, i, f, h))
  {
    var il: Bytes32 := h[..32];
    SumIs(c, k, il, f);
    KeysArePrivate(c, k, il, f);
    match (ChildKeys(c, k, il), ChildTweakSum(c, k, il, f))
    case (Some((priv, pub)), Some(sum)) => ChildDescends(c, k, i, f, h, priv, pub, sum);
    case (_, _) =>
  }

  /** Every derivation from a private key is the one BIP32 defines, for hardened and other children. */
  lemma {:induction false} DeriveIsCkdPriv(c: Crypto, k: Key, i: nat, f: Flags)
    requires c.Lawful() && k.IsPrivate() && i < 0x1_0000_0000
    ensures ChildOfPrivate(c, k, i, f, c.hmacSha512(k.chainCode, Hashed(k, i)), Derive(c, k, i, f))
  {
    var h := c.hmacSha512(k.chainCode, Hashed(k, i));
    DeriveIsMade(c, k, i, f, h);
    if !f.undefined && k.depth != 255 {
      MadeOfPrivate(c, k, i, f, h);
    }
  }

  /** So is every derivation from a public key. */
  lemma {:induction false} DeriveIsCkdPub(c: Crypto, k: Key, i: nat, f: Flags)
    requires c.Lawful() && !k.IsPrivate() && i < 0x1_0000_0000
    ensures ChildOfPublic(c, k, i, f, c.hmacSha512(k.chainCode, Hashed(k, i)), Derive(c, k, i, f))
  {
    var h := c.hmacSha512(k.chainCode, Hashed(k, i));
    DeriveIsMade(c, k, i, f, h);
    if !f.undefined && f.keyPublic && i < 0x8000_0000 && k.depth != 255 {
      MadeOfPublic(c, k, i, f, h);
    }
  }
}
