/** AES-CBC under keys from an ECDH shared secret, encrypt-then-MAC: src/aes.c lines
    223-350. The primitives are functions given to every operation. */
module AesEcdh {
  import opened Common
  import opened Aes
  import opened AesCbc
  import opened Buffers

  const MAC_LEN: nat := 32

  /** `wally_ecdh`: a secret, or its failure with `WALLY_EINVAL` or `WALLY_ERROR`. */
  datatype Secret = Shared(value: Bytes32) | BadPublicKey | BadPrivateKey

  /** `pub` is the public key of a private key; `ecdh` is `wally_ecdh`. */
  datatype Primitives = Primitives(
    cipher: Cipher,
    pub: Bytes32 -> Option<Bytes33>,
    ecdh: (Bytes33, Bytes32) -> Secret,
    hmac512: (Bytes, Bytes) -> Bytes64,
    hmac256: (Bytes, Bytes) -> Bytes32)

  /** The cipher is invertible and both parties compute the same secret. */
  ghost predicate Sound(f: Primitives) {
    && Lawful(f.cipher)
    && forall a: Bytes32, b: Bytes32 :: f.pub(a).Some? && f.pub(b).Some? ==>
         f.ecdh(f.pub(a).value, b) == f.ecdh(f.pub(b).value, a)
  }

  /** The encryption and the HMAC key. */
  function DeriveKeys(f: Primitives, priv: Bytes32, pub: Bytes33, context: Bytes): Option<(Bytes32, Bytes32)> {
    match f.ecdh(pub, priv)
    case Shared(secret) =>
      var keys := f.hmac512(secret, context);
      Some((keys[..32], keys[32..]))
    case BadPublicKey => None
    case BadPrivateKey => None
  }

  /** The initialization vector, the ciphertext, and the MAC of both. */
  function SealWith(f: Primitives, keys: (Bytes32, Bytes32), iv: Block, payload: Bytes): (y: Bytes)
    ensures |y| == BLOCK_LEN + (|payload| / BLOCK_LEN + 1) * BLOCK_LEN + MAC_LEN
  {
    var text := iv + CbcEncrypt(f.cipher, keys.0, iv, payload);
    text + f.hmac256(keys.1, text)
  }

  function Seal(f: Primitives, priv: Bytes32, iv: Block, payload: Bytes, pub: Bytes33, context: Bytes): Option<Bytes> {
    match DeriveKeys(f, priv, pub, context)
    case None => None
    case Some(keys) => Some(SealWith(f, keys, iv, payload))
  }

  /** A message long enough to hold a vector, at least a block, and a MAC. */
  predicate Message(y: Bytes) {
    |y| >= BLOCK_LEN + BLOCK_LEN + MAC_LEN && (|y| - BLOCK_LEN - MAC_LEN) % BLOCK_LEN == 0
  }

  function Vector(y: Bytes): Block
    requires Message(y)
  {
    y[..BLOCK_LEN]
  }

  function Ciphertext(y: Bytes): (t: Bytes)
    requires Message(y)
    ensures Whole(t) && t != []
  {
    y[BLOCK_LEN..|y| - MAC_LEN]
  }

  function OpenWith(f: Primitives, keys: (Bytes32, Bytes32), y: Bytes): Option<Bytes>
    requires Message(y)
  {
    if f.hmac256(keys.1, y[..|y| - MAC_LEN]) != y[|y| - MAC_LEN..] then None
    else Some(CbcDecrypt(f.cipher, keys.0, Vector(y), Ciphertext(y)))
  }

  function Open(f: Primitives, priv: Bytes32, y: Bytes, pub: Bytes33, context: Bytes): Option<Bytes>
    requires Message(y)
  {
    match DeriveKeys(f, priv, pub, context)
    case None => None
    case Some(keys) => OpenWith(f, keys, y)
  }

  lemma SealedParts(f: Primitives, keys: (Bytes32, Bytes32), iv: Block, payload: Bytes)
    ensures var y := SealWith(f, keys, iv, payload);
            && Message(y) && Vector(y) == iv && Ciphertext(y) == CbcEncrypt(f.cipher, keys.0, iv, payload)
            && y[..|y| - MAC_LEN] == iv + CbcEncrypt(f.cipher, keys.0, iv, payload)
            && y[|y| - MAC_LEN..] == f.hmac256(keys.1, iv + CbcEncrypt(f.cipher, keys.0, iv, payload))
  {
  }

  /** The other party recovers what was sealed for it. */
  lemma OtherPartyRecovers(f: Primitives, mine: Bytes32, theirs: Bytes32, iv: Block, payload: Bytes, context: Bytes)
    requires Sound(f) && f.pub(mine).Some? && f.pub(theirs).Some?
    requires Seal(f, mine, iv, payload, f.pub(theirs).value, context).Some?
    ensures var y := Seal(f, mine, iv, payload, f.pub(theirs).value, context).value;
            Message(y) && Open(f, theirs, y, f.pub(mine).value, context) == Some(payload)
  {
    var keys := DeriveKeys(f, mine, f.pub(theirs).value, context).value;
    assert DeriveKeys(f, theirs, f.pub(mine).value, context) == Some(keys);
    SealedParts(f, keys, iv, payload);
    CbcRoundTrip(f.cipher, keys.0, iv, payload);
  }

  /** Sealing an opened message again gives the message exactly when its text was properly padded. */
  lemma SealedAgain(f: Primitives, priv: Bytes32, y: Bytes, pub: Bytes33, context: Bytes)
    requires Sound(f) && Message(y) && Open(f, priv, y, pub, context).Some?
    ensures var keys, p := DeriveKeys(f, priv, pub, context).value, Open(f, priv, y, pub, context).value;
            Seal(f, priv, Vector(y), p, pub, context) == Some(y)
            <==> ProperlyPadded(DecBlocks(f.cipher, keys.0, Vector(y), Ciphertext(y)))
  {
    var keys, p := DeriveKeys(f, priv, pub, context).value, Open(f, priv, y, pub, context).value;
    SealedParts(f, keys, Vector(y), p);
    CiphertextComesBack(f.cipher, keys.0, Vector(y), Ciphertext(y));
    assert y[..|y| - MAC_LEN] == Vector(y) + Ciphertext(y);
    assert y == y[..|y| - MAC_LEN] + y[|y| - MAC_LEN..];
  }

  /** With `h` the HMAC-SHA512 of the secret and the label: the vector, the ciphertext under the
      first half of `h`, and the HMAC-SHA256 under the second half of all before it. */
  predicate IsSealed(f: Primitives, h: Bytes64, iv: Block, payload: Bytes, y: Bytes) {
    && |y| >= 48 && y[..16] == iv && y[16..|y| - 32] == CbcEncrypt(f.cipher, h[..32], iv, payload)
    && y[|y| - 32..] == f.hmac256(h[32..], y[..|y| - 32])
  }

  /** A secret seals so, and nothing else is sealed. */
  lemma SealsExactly(f: Primitives, priv: Bytes32, iv: Block, payload: Bytes, pub: Bytes33, context: Bytes, y: Bytes)
    ensures Seal(f, priv, iv, payload, pub, context) == Some(y) <==>
            f.ecdh(pub, priv).Shared? && IsSealed(f, f.hmac512(f.ecdh(pub, priv).value, context), iv, payload, y)
  {
    if f.ecdh(pub, priv).Shared? {
      var h := f.hmac512(f.ecdh(pub, priv).value, context);
      SealedParts(f, (h[..32], h[32..]), iv, payload);
      if IsSealed(f, h, iv, payload, y) {
        assert y[..|y| - 32] == y[..16] + y[16..|y| - 32];
        assert y == y[..|y| - 32] + y[|y| - 32..];
      }
    }
  }

  /** A message opens exactly when there is a secret and its last 32 bytes are the HMAC under the
      second half; the text is then what the first half decrypts. */
  lemma OpensExactly(f: Primitives, priv: Bytes32, y: Bytes, pub: Bytes33, context: Bytes, p: Bytes)
    requires Message(y)
    ensures Open(f, priv, y, pub, context) == Some(p) <==>
            && f.ecdh(pub, priv).Shared?
            && var h := f.hmac512(f.ecdh(pub, priv).value, context);
               && y[|y| - 32..] == f.hmac256(h[32..], y[..|y| - 32])
               && p == CbcDecrypt(f.cipher, h[..32], y[..16], y[16..|y| - 32])
  {
  }

  /** What is assumed of the primitives can be met, with a secret for any two keys. */
  lemma LawsAreConsistent()
    ensures exists f: Primitives :: Sound(f) &&
              forall priv: Bytes32, pub: Bytes33, context: Bytes :: DeriveKeys(f, priv, pub, context).Some?
  {
    var cipher := Cipher((_, b) => b, (_, b) => b);
    var f := Primitives(cipher, _ => Some(Zeros(33)), (_, _) => Shared(Zeros(32)), (_, _) => Zeros(64),
                        (_, _) => Zeros(32));
    assert Lawful(cipher);
    assert Sound(f);
    forall priv: Bytes32, pub: Bytes33, context: Bytes ensures DeriveKeys(f, priv, pub, context).Some? {
    }
  }

  /** A vector, the encryption of two zero blocks, and their MAC. */
  function ZeroMessage(f: Primitives, keys: (Bytes32, Bytes32), iv: Block): (y: Bytes)
    ensures Message(y) && Vector(y) == iv && Ciphertext(y) == EncBlocks(f.cipher, keys.0, iv, Zeros(2 * BLOCK_LEN))
    ensures y[|y| - MAC_LEN..] == f.hmac256(keys.1, y[..|y| - MAC_LEN])
  {
    var text := iv + EncBlocks(f.cipher, keys.0, iv, Zeros(2 * BLOCK_LEN));
    var y := text + f.hmac256(keys.1, text);
    assert y[..|y| - MAC_LEN] == text;
    y
  }

  /** Whatever the keys, some message opens and is not sealed again. */
  lemma SealedDiffers(f: Primitives, priv: Bytes32, pub: Bytes33, context: Bytes, iv: Block)
    requires Sound(f) && DeriveKeys(f, priv, pub, context).Some?
    ensures var y := ZeroMessage(f, DeriveKeys(f, priv, pub, context).value, iv);
            && Open(f, priv, y, pub, context).Some?
            && Seal(f, priv, Vector(y), Open(f, priv, y, pub, context).value, pub, context) != Some(y)
  {
    var keys := DeriveKeys(f, priv, pub, context).value;
    DecEncBlocks(f.cipher, keys.0, iv, Zeros(2 * BLOCK_LEN));
    SealedAgain(f, priv, ZeroMessage(f, keys, iv), pub, context);
  }

  // ----- the calls

  /** What the source asks of the arguments; an empty `iv` is an absent one. */
  predicate ValidArguments(priv: Bytes, iv: Bytes, bytes: Bytes, pub: Bytes, context: Bytes, flag: Flag) {
    && |priv| == 32 && |pub| == 33 && context != [] && flag != Other
    && (flag == Encrypt ==> |iv| == BLOCK_LEN && bytes != [])
    && (flag == Decrypt ==> iv == [] && Message(bytes))
  }

  /** `wally_aes_cbc_with_ecdh_key_get_maximum_length`: for encryption the exact size of what is
      sealed, whatever the keys; for decryption the ciphertext's, which is more than any text's. */
  method GetMaximumLength(priv: Bytes, iv: Bytes, bytes: Bytes, pub: Bytes, context: Bytes, flag: Flag)
    returns (status: Status, written: nat)
    ensures status == if ValidArguments(priv, iv, bytes, pub, context, flag) then Ok else Invalid
    ensures status == Invalid ==> written == 0
    ensures status == Ok && flag == Encrypt ==> forall f, keys :: |SealWith(f, keys, iv, bytes)| == written
    ensures status == Ok && flag == Decrypt ==>
              && written == |Ciphertext(bytes)|
              && forall f, keys :: OpenWith(f, keys, bytes).Some? ==> |OpenWith(f, keys, bytes).value| < written
  {
    if |priv| != 32 || |pub| != 33 || context == [] || flag == Other {
      return Invalid, 0;
    }
    if flag == Encrypt {
      if |iv| != BLOCK_LEN || bytes == [] {
        return Invalid, 0;
      }
      written := BLOCK_LEN + MAC_LEN + (|bytes| / BLOCK_LEN + 1) * BLOCK_LEN;
    } else {
      if iv != [] || |bytes| < BLOCK_LEN + BLOCK_LEN + MAC_LEN {
        return Invalid, 0;
      }
      var size := |bytes| - BLOCK_LEN - MAC_LEN;
      if size % BLOCK_LEN != 0 {
        return Invalid, 0;
      }
      written := size;
    }
    status := Ok;
  }

  /** The output is large enough, in bytes and in whole blocks, for what the cipher writes. */
  lemma RoomForBlocks(len: nat, blocks: nat)
    requires len >= blocks * BLOCK_LEN
    ensures len / BLOCK_LEN * BLOCK_LEN >= blocks * BLOCK_LEN && (len / BLOCK_LEN * BLOCK_LEN) % BLOCK_LEN == 0
  {
  }

  /** Lines 326-343 for encryption, the vector already written. */
  method SealInto(f: Primitives, keys: (Bytes32, Bytes32), iv: Block, payload: Bytes, out: array<Byte>)
    returns (written: nat)
    requires out.Length >= |SealWith(f, keys, iv, payload)| && out[..BLOCK_LEN] == iv
    modifies out
    ensures written == |SealWith(f, keys, iv, payload)| && out[..written] == SealWith(f, keys, iv, payload)
  {
    var len := (out.Length - (BLOCK_LEN + MAC_LEN)) / BLOCK_LEN * BLOCK_LEN;
    RoomForBlocks(out.Length - (BLOCK_LEN + MAC_LEN), |payload| / BLOCK_LEN + 1);
    ghost var start := out[..];
    var status;
    status, written := Cbc(f.cipher, keys.0, iv, payload, Encrypt, out, BLOCK_LEN, len);
    ghost var text := iv + CbcEncrypt(f.cipher, keys.0, iv, payload);
    written := written + BLOCK_LEN;
    OutsideSlice(out[..], start, BLOCK_LEN, written, 0, BLOCK_LEN);
    assert out[..written] == out[0..BLOCK_LEN] + out[BLOCK_LEN..written] == text;
    start := out[..];
    Copy(out, written, f.hmac256(keys.1, out[..written]));
    OutsideSlice(out[..], start, written, written + MAC_LEN, 0, written);
    assert out[..written + MAC_LEN] == out[0..written] + out[written..written + MAC_LEN];
    written := written + MAC_LEN;
  }

  /** Lines 312-320 and 332-334 for decryption. */
  method OpenInto(f: Primitives, keys: (Bytes32, Bytes32), y: Bytes, out: array<Byte>)
    returns (status: Status, written: nat)
    requires Message(y) && out.Length >= |y| - BLOCK_LEN - MAC_LEN
    modifies out
    ensures match OpenWith(f, keys, y)
            case None => status == Invalid && written == 0
            case Some(p) => status == Ok && written == |p| <= |y| - BLOCK_LEN - MAC_LEN && out[..written] == p
  {
    if f.hmac256(keys.1, y[..|y| - MAC_LEN]) != y[|y| - MAC_LEN..] {
      return Invalid, 0;
    }
    var len := out.Length / BLOCK_LEN * BLOCK_LEN;
    RoomForBlocks(out.Length, |Ciphertext(y)| / BLOCK_LEN);
    status, written := Cbc(f.cipher, keys.0, Vector(y), Ciphertext(y), Decrypt, out, 0, len);
    assert out[..written] == out[0..written];
  }

  /** The room that the call asks for: that of the sealed message, or of the ciphertext. */
  function Room(f: Primitives, iv: Bytes, bytes: Bytes, flag: Flag): nat
    requires if flag == Encrypt then |iv| == BLOCK_LEN else Message(bytes)
  {
    if flag == Encrypt then |SealWith(f, (Zeros(32), Zeros(32)), iv, bytes)| else |Ciphertext(bytes)|
  }

  /** `wally_aes_cbc_with_ecdh_key`. The length check at its end never fails: an error
      comes from the shared secret alone. A message is opened exactly when there is a secret
      and the MAC at its end is that of the rest. */
  method CbcWithEcdhKey(f: Primitives, priv: Bytes, iv: Bytes, bytes: Bytes, pub: Bytes, context: Bytes, flag: Flag,
        out: array<Byte>)
    returns (status: Status, written: nat)
    modifies out
    ensures if out.Length == 0 || !ValidArguments(priv, iv, bytes, pub, context, flag) then
              status == Invalid && written == 0 && out[..] == old(out[..])
            else if Room(f, iv, bytes, flag) > out.Length then
              status == Ok && written == Room(f, iv, bytes, flag) && out[..] == old(out[..])
            else
              match if flag == Encrypt then Seal(f, priv, iv, bytes, pub, context)
                    else Open(f, priv, bytes, pub, context)
              case None => status == (if f.ecdh(pub, priv) == BadPrivateKey then Error else Invalid) && written == 0
              case Some(text) => status == Ok && written == |text| <= Room(f, iv, bytes, flag) && out[..written] == text
    ensures out.Length > 0 && ValidArguments(priv, iv, bytes, pub, context, flag) && flag == Encrypt
            && Room(f, iv, bytes, flag) <= out.Length ==>
              && (status == Ok <==> f.ecdh(pub, priv).Shared?)
              && (status == Ok ==>
                    IsSealed(f, f.hmac512(f.ecdh(pub, priv).value, context), iv, bytes, out[..written]))
    ensures out.Length > 0 && ValidArguments(priv, iv, bytes, pub, context, flag) && flag == Decrypt
            && |Ciphertext(bytes)| <= out.Length ==>
              var secret, end := f.ecdh(pub, priv), |bytes| - 32;
              && (status == Ok <==>
                    && secret.Shared?
                    && bytes[end..] == f.hmac256(f.hmac512(secret.value, context)[32..], bytes[..end]))
              && (status == Ok ==>
                    out[..written] ==
                    CbcDecrypt(f.cipher, f.hmac512(secret.value, context)[..32], bytes[..16], bytes[16..end]))
  {
    if out.Length == 0 {
      return Invalid, 0;
    }
    var expected;
    status, expected := GetMaximumLength(priv, iv, bytes, pub, context, flag);
    if status == Ok && flag == Encrypt {
      assert |SealWith(f, (Zeros(32), Zeros(32)), iv, bytes)| == expected;
    }
    if status == Ok && expected > out.Length {
      return Ok, expected;
    }
    if status != Ok {
      return status, 0;
    }
    if flag == Encrypt {
      Copy(out, 0, iv);
      assert out[..BLOCK_LEN] == out[0..BLOCK_LEN];
    }
    written := 0;
    match f.ecdh(pub, priv)
    case BadPublicKey =>
      status := Invalid;
    case BadPrivateKey =>
      status := Error;
    case Shared(secret) =>
      var keys := f.hmac512(secret, context);
      if flag == Encrypt {
        written := SealInto(f, (keys[..32], keys[32..]), iv, bytes, out);
        SealsExactly(f, priv, iv, bytes, pub, context, out[..written]);
      } else {
        status, written := OpenInto(f, (keys[..32], keys[32..]), bytes, out);
      }
      if status == Ok && written > expected {
        status := Error;
      }
  }
}
