/** `struct ext_key` updated in place: `bip32_key_from_parent`,
    `bip32_key_from_parent_path` and `bip32_key_with_tweak_from_parent_path`
    of src/bip32.c. */
module Bip32Key {
  import opened Common
  import opened Radix
  import opened Bip32
  import opened Bip32Path

  class ExtKey {
    var chainCode: Bytes32
    var parent160: Bytes20
    var depth: nat
    var privKey: Bytes33
    var childNum: nat
    var hash160: Bytes20
    var version: nat
    var pubKey: Bytes33
    var tweakSum: Bytes32

    function Value(): Key
      reads this
    {
      Key(chainCode, parent160, depth, privKey, childNum, hash160, version, pubKey, tweakSum)
    }

    /** A cleared key. */
    constructor ()
      ensures Value() == WIPED
    {
      chainCode, parent160, depth, privKey := Zeros(32), Zeros(20), 0, Zeros(33);
      childNum, hash160, version, pubKey, tweakSum := 0, Zeros(20), 0, Zeros(33), Zeros(32);
    }

    /** `wipe_key_fail`. */
    method WipeFail() returns (ret: Status)
      modifies this
      ensures Value() == WIPED && ret == Invalid
    {
      chainCode, parent160, depth, privKey := Zeros(32), Zeros(20), 0, Zeros(33);
      childNum, hash160, version, pubKey, tweakSum := 0, Zeros(20), 0, Zeros(33), Zeros(32);
      ret := Invalid;
    }

    /** `bip32_key_strip_private_key`. */
    method StripPrivateKey()
      modifies this`privKey
      ensures privKey == STRIPPED
    {
      privKey := privKey[0 := 1];
      privKey := [privKey[0]] + Zeros(32);
    }

    /** `wally_memcpy` of a whole key. */
    method CopyFrom(other: ExtKey)
      modifies this
      ensures Value() == old(other.Value())
    {
      chainCode, parent160, depth, privKey := other.chainCode, other.parent160, other.depth, other.privKey;
      childNum, hash160, version := other.childNum, other.hash160, other.version;
      pubKey, tweakSum := other.pubKey, other.tweakSum;
    }

    /** Lines 700-720: the child's keys, from the parent's and the left half of the hash. */
    method SetChildKeys(c: Crypto, hdkey: ExtKey, il: Bytes32) returns (ok: bool)
      requires hdkey != this
      modifies this`privKey, this`pubKey
      ensures ok <==> ChildKeys(c, hdkey.Value(), il).Some?
      ensures ok ==> pubKey == ChildKeys(c, hdkey.Value(), il).value.1
      ensures ok && hdkey.Value().IsPrivate() ==> privKey == ChildKeys(c, hdkey.Value(), il).value.0
    {
      ok := false;
      if hdkey.privKey[0] == 0 {
        privKey := hdkey.privKey;
        match c.seckeyTweakAdd(privKey[1..], il)
        case None =>
        case Some(secret) =>
          privKey := [privKey[0]] + secret;
          assert privKey[1..] == secret;
          match c.pubkeyCreate(privKey[1..])
          case None =>
          case Some(pub) =>
            pubKey, ok := pub, true;
      } else {
        match c.pubkeyTweakAdd(hdkey.pubKey, il)
        case None =>
        case Some(pub) =>
          pubKey, ok := pub, true;
      }
    }

    /** Lines 722-732: the running sum of the tweaks. */
    method SetTweakSum(c: Crypto, hdkey: ExtKey, il: Bytes32, flags: Flags) returns (ok: bool)
      requires hdkey != this
      modifies this`tweakSum
      ensures ok <==> ChildTweakSum(c, hdkey.Value(), il, flags).Some?
      ensures ok ==> tweakSum == ChildTweakSum(c, hdkey.Value(), il, flags).value
    {
      tweakSum := Zeros(32);
      ok := true;
      if flags.tweakSum {
        tweakSum := hdkey.tweakSum;
        match AddToTweakSum(c, tweakSum, il)
        case None =>
          ok := false;
        case Some(sum) =>
          tweakSum := sum;
      }
    }

    /** Lines 734-757: the remaining fields of the child. */
    method SetDetails(c: Crypto, hdkey: ExtKey, childNumber: nat, flags: Flags)
      requires hdkey != this
      modifies this
      ensures Value() == ChildKey(c, hdkey.Value(), childNumber, flags, old(chainCode), old(privKey), old(pubKey),
                                  old(tweakSum))
    {
      if !flags.keyPublic {
        version := if IsMainnet(hdkey.version) then VER_MAIN_PRIVATE else VER_TEST_PRIVATE;
      } else {
        version := if IsMainnet(hdkey.version) then VER_MAIN_PUBLIC else VER_TEST_PUBLIC;
        StripPrivateKey();
      }
      depth := hdkey.depth + 1;
      childNum := childNumber;
      if flags.skipHash {
        parent160, hash160 := Zeros(20), Zeros(20);
      } else {
        parent160 := hdkey.hash160;
        hash160 := c.hash160(pubKey);
      }
    }

    /** Lines 673-763. `privKey` holds the data to hash until it is set for good. */
    method DeriveInto(c: Crypto, hdkey: ExtKey, childNumber: nat, flags: Flags) returns (ret: Status)
      requires hdkey != this && (hdkey.privKey[0] == 0 || flags.keyPublic)
      modifies this
      ensures DeriveChild(c, hdkey.Value(), childNumber, flags).Derived? ==>
                ret == Ok && Value() == DeriveChild(c, hdkey.Value(), childNumber, flags).key
      ensures !DeriveChild(c, hdkey.Value(), childNumber, flags).Derived? ==> ret == Invalid && Value() == WIPED
    {
      privKey := if IsHardened(childNumber) then hdkey.privKey else hdkey.pubKey;
      var sha := c.hmacSha512(hdkey.chainCode, privKey + Ser32(childNumber));
      chainCode := sha[32..];
      var ok := SetChildKeys(c, hdkey, sha[..32]);
      if ok {
        ok := SetTweakSum(c, hdkey, sha[..32], flags);
      }
      if ok {
        SetDetails(c, hdkey, childNumber, flags);
        ret := Ok;
      } else {
        ret := WipeFail();
      }
    }

    /** `bip32_key_from_parent`, deriving into this key. */
    method FromParent(c: Crypto, hdkey: ExtKey, childNumber: nat, flags: Flags) returns (ret: Status)
      requires hdkey != this
      modifies this
      ensures match Derive(c, hdkey.Value(), childNumber, flags)
              case Refused => ret == Invalid && Value() == old(Value())
              case Failed => ret == Invalid && Value() == WIPED
              case Derived(key) => ret == Ok && Value() == key
    {
      var weArePrivate := hdkey.privKey[0] == 0;
      var derivePrivate := !flags.keyPublic;
      if flags.undefined {
        return Invalid;
      }
      if !weArePrivate && (derivePrivate || IsHardened(childNumber)) {
        ret := WipeFail();
      } else if hdkey.depth == 0xff {
        ret := WipeFail();
      } else {
        ret := DeriveInto(c, hdkey, childNumber, flags);
      }
    }
  }

  /** Lines 797-800: where private derivation has to stop. */
  method FindPrivateUntil(path: seq<nat>) returns (privateUntil: nat)
    ensures privateUntil == PrivateUntil(path)
  {
    privateUntil := 0;
    for i := 0 to |path|
      invariant privateUntil == PrivateUntil(path[..i])
    {
      assert path[..i + 1][..i] == path[..i];
      if IsHardened(path[i]) {
        privateUntil := i + 1;
      }
    }
    assert path[..|path|] == path;
  }

  /** Lines 805-823: two slots hold the parent and the child in turn. */
  method DeriveAlong(c: Crypto, root: ExtKey, path: seq<nat>, flags: Flags, privateUntil: nat)
    returns (ret: Status, hdkey: ExtKey)
    ensures match DeriveFrom(c, root.Value(), path, flags, privateUntil, 0)
            case Some(key) => ret == Ok && hdkey.Value() == key
            case None => ret == Invalid
  {
    var tmp0 := new ExtKey();
    var tmp1 := new ExtKey();
    ghost var result := DeriveFrom(c, root.Value(), path, flags, privateUntil, 0);
    var tmpIdx := 0;
    hdkey := root;
    for i := 0 to |path|
      invariant hdkey != (if tmpIdx == 0 then tmp0 else tmp1)
      invariant tmpIdx == 0 || tmpIdx == 1
      invariant DeriveFrom(c, hdkey.Value(), path, flags, privateUntil, i) == result
    {
      var derived := if tmpIdx == 0 then tmp0 else tmp1;
      var derivationFlags := flags;
      if privateUntil > 0 && i < privateUntil - 1 {
        derivationFlags := derivationFlags.(keyPublic := false);
      }
      if i + 2 < |path| {
        derivationFlags := derivationFlags.(skipHash := true);
      }
      DeriveFromStep(c, hdkey.Value(), path, flags, privateUntil, i, derivationFlags);
      ret := derived.FromParent(c, hdkey, path[i], derivationFlags);
      if ret != Ok {
        return;
      }
      hdkey := derived;
      tmpIdx := 1 - tmpIdx;
    }
    ret := Ok;
  }

  /** `bip32_key_from_parent_path`. */
  method FromParentPath(c: Crypto, root: ExtKey, path: seq<nat>, flags: Flags, keyOut: ExtKey) returns (ret: Status)
    modifies keyOut
    ensures match DerivePath(c, old(root.Value()), path, flags)
            case Some(key) => ret == Ok && keyOut.Value() == key
            case None => ret == Invalid && keyOut.Value() == old(keyOut.Value())
  {
    if flags.undefined || path == [] || |path| > MAX_PATH {
      return Invalid;
    }
    var privateUntil := 0;
    if flags.keyPublic {
      privateUntil := FindPrivateUntil(path);
      if privateUntil > 0 && root.privKey[0] != 0 {
        return Invalid;
      }
    }
    var hdkey;
    ret, hdkey := DeriveAlong(c, root, path, flags, privateUntil);
    if ret == Ok {
      keyOut.CopyFrom(hdkey);
    }
  }

  /** `bip32_key_with_tweak_from_parent_path`: derive, then recompute the public key from the
      root's and the tweak sum. By then a root that is the output is the derived key. */
  method WithTweakFromParentPath(c: Crypto, root: ExtKey, path: seq<nat>, flags: Flags, output: ExtKey)
    returns (ret: Status)
    modifies output
    ensures !flags.tweakSum && !flags.keyPublic ==> ret == Invalid && output.Value() == old(output.Value())
    ensures flags.tweakSum || flags.keyPublic ==>
              match DerivePath(c, old(root.Value()), path, flags)
              case None => ret == Invalid && output.Value() == old(output.Value())
              case Some(key) =>
                match c.pubkeyTweakAdd(if root == output then key.pubKey else old(root.pubKey), key.tweakSum)
                case Some(pub) => ret == Ok && output.Value() == key.(pubKey := pub)
                case None => ret == Error && output.Value() == WIPED
  {
    if !flags.tweakSum && !flags.keyPublic {
      return Invalid;
    }
    ret := FromParentPath(c, root, path, flags, output);
    if ret == Ok {
      match c.pubkeyTweakAdd(root.pubKey, output.tweakSum)
      case Some(pub) =>
        output.pubKey := pub;
      case None =>
        ret := output.WipeFail();
        ret := Error;
    }
  }
}
