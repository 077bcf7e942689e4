/** What path derivation keeps: its optimisations change nothing, public and
    private derivation agree, paths compose and tweaks add up. */
module Bip32Laws {
  import opened Common
  import opened Radix
  import opened Bip32
  import opened Bip32Path

  // ----- skipped hashes

  /** The keys differ at most in their hashes. */
  predicate SameCore(a: Key, b: Key) {
    a.(parent160 := b.parent160, hash160 := b.hash160) == b
  }

  /** Both fail, or both derive children that differ at most in their hashes. */
  lemma DeriveSameCore(c: Crypto, a: Key, b: Key, i: nat, f: Flags, g: Flags)
    requires SameCore(a, b) && f.(skipHash := g.skipHash) == g
    ensures Derive(c, a, i, f).Derived? <==> Derive(c, b, i, g).Derived?
    ensures Derive(c, a, i, f).Derived? ==>
              var x, y := Derive(c, a, i, f).key, Derive(c, b, i, g).key;
              && SameCore(x, y)
              && (f == g ==> x.hash160 == y.hash160)
              && (f == g && (a.hash160 == b.hash160 || f.skipHash) ==> x == y)
  {
    assert a.IsPrivate() == b.IsPrivate() && Data(a, i) == Data(b, i);
  }

  /** From element `i` on, the loop without its intermediate hashes and the plain
      fold reach the same key. */
  lemma {:induction false} LoopIsPlainFrom(c: Crypto, a: Key, b: Key, path: seq<nat>, flags: Flags, i: nat)
    requires i <= |path| && SameCore(a, b)
    requires i + 1 == |path| ==> a.hash160 == b.hash160 || flags.skipHash
    requires i == |path| ==> a == b
    ensures DeriveFrom(c, a, path, flags, 0, i) == Plain(c, b, path[i..], flags)
    decreases |path| - i
  {
    if i < |path| {
      var f := StepFlags(path, flags, 0, i);
      DeriveSameCore(c, a, b, path[i], f, flags);
      assert path[i..][0] == path[i] && path[i..][1..] == path[i + 1..];
      if Derive(c, a, path[i], f).Derived? {
        LoopIsPlainFrom(c, Derive(c, a, path[i], f).key, Derive(c, b, path[i], flags).key, path, flags, i + 1);
      }
    }
  }

  /** The arguments `bip32_key_from_parent_path` accepts. */
  predicate ValidPath(path: seq<nat>, flags: Flags) {
    !flags.undefined && path != [] && |path| <= MAX_PATH
  }

  /** Deriving along a path gives exactly the final key of a plain step-by-step
      fold; only a public derivation through hardened elements has no such fold. */
  lemma LoopIsPlain(c: Crypto, k: Key, path: seq<nat>, flags: Flags)
    requires ValidPath(path, flags) && (flags.keyPublic ==> PrivateUntil(path) == 0)
    ensures DerivePath(c, k, path, flags) == Plain(c, k, path, flags)
  {
    LoopIsPlainFrom(c, k, k, path, flags, 0);
    assert path[0..] == path;
  }

  lemma {:induction false} PlainAppend(c: Crypto, k: Key, p: seq<nat>, q: seq<nat>, flags: Flags)
    ensures Plain(c, k, p + q, flags) ==
            match Plain(c, k, p, flags) case Some(m) => Plain(c, m, q, flags) case None => None
    decreases |p|
  {
    if p == [] {
      assert p + q == q;
    } else {
      assert (p + q)[0] == p[0] && (p + q)[1..] == p[1..] + q;
      if Derive(c, k, p[0], flags).Derived? {
        PlainAppend(c, Derive(c, k, p[0], flags).key, p[1..], q, flags);
      }
    }
  }

  /** Private derivation of `p` and then `q` is derivation of `p` followed by `q`. */
  lemma PathsCompose(c: Crypto, k: Key, p: seq<nat>, q: seq<nat>, flags: Flags)
    requires !flags.keyPublic && p != [] && q != [] && |p| + |q| <= MAX_PATH
    ensures DerivePath(c, k, p + q, flags) ==
            match DerivePath(c, k, p, flags) case Some(m) => DerivePath(c, m, q, flags) case None => None
  {
    if !flags.undefined {
      LoopIsPlain(c, k, p + q, flags);
      LoopIsPlain(c, k, p, flags);
      PlainAppend(c, k, p, q, flags);
      if DerivePath(c, k, p, flags).Some? {
        LoopIsPlain(c, DerivePath(c, k, p, flags).value, q, flags);
      }
    }
  }

  // ----- public derivation

  function NeuterDerivation(d: Derivation): Derivation {
    match d
    case Derived(k) => Derived(Neuter(k))
    case _ => d
  }

  function NeuterOption(o: Option<Key>): Option<Key> {
    match o
    case Some(k) => Some(Neuter(k))
    case None => None
  }

  /** A private child is private and holds the public key of its secret. */
  lemma DeriveConsistent(c: Crypto, k: Key, i: nat, flags: Flags)
    requires k.IsPrivate() && !flags.keyPublic && Derive(c, k, i, flags).Derived?
    ensures Derive(c, k, i, flags).key.IsPrivate() && Derive(c, k, i, flags).key.Consistent(c)
  {
    var il: Bytes32 := c.hmacSha512(k.chainCode, Data(k, i))[..32];
    var secret := c.seckeyTweakAdd(k.Secret(), il).value;
    assert ([k.privKey[0]] + secret)[1..] == secret;
  }

  /** From a private parent, asking for a public child gives the neutered private child. */
  lemma DerivePublicFromPrivate(c: Crypto, k: Key, i: nat, flags: Flags)
    requires k.IsPrivate() && !flags.keyPublic
    ensures Derive(c, k, i, flags.(keyPublic := true)) == NeuterDerivation(Derive(c, k, i, flags))
  {
  }

  /** The private and public keys of a non-hardened child agree, and exist together. */
  lemma ChildKeysAgree(c: Crypto, k: Key, il: Bytes32)
    requires c.Lawful() && k.IsPrivate() && k.Consistent(c)
    ensures match (ChildKeys(c, k, il), ChildKeys(c, Neuter(k), il))
            case (Some((_, pub)), Some((_, pub'))) => pub == pub'
            case (None, None) => true
            case _ => false
  {
    assert c.pubkeyCreate(k.Secret()).value == k.pubKey;
  }

  /** N(CKDpriv(k, i)) == CKDpub(N(k), i) for every non-hardened `i`, failures included. */
  lemma NeuterCommutes(c: Crypto, k: Key, i: nat, flags: Flags)
    requires c.Lawful() && k.IsPrivate() && k.Consistent(c) && !IsHardened(i) && !flags.keyPublic
    ensures Derive(c, Neuter(k), i, flags.(keyPublic := true)) == NeuterDerivation(Derive(c, k, i, flags))
  {
    var il: Bytes32 := c.hmacSha512(k.chainCode, Data(k, i))[..32];
    assert Data(Neuter(k), i) == Data(k, i);
    ChildKeysAgree(c, k, il);
    assert IsMainnet(Neuter(k).version) == IsMainnet(k.version);
  }

  lemma {:induction false} NothingHardenedAfter(path: seq<nat>, i: nat)
    requires PrivateUntil(path) <= i < |path|
    ensures !IsHardened(path[i])
    decreases |path|
  {
    if i < |path| - 1 {
      NothingHardenedAfter(path[..|path| - 1], i);
    }
  }

  /** One step of both runs, from the private key `k` and the public run's key `m`. */
  lemma PublicStep(c: Crypto, k: Key, m: Key, path: seq<nat>, flags: Flags, i: nat)
    requires c.Lawful() && k.IsPrivate() && k.Consistent(c) && !flags.keyPublic && i < |path|
    requires m == if i == 0 || i < PrivateUntil(path) then k else Neuter(k)
    ensures var d := Derive(c, k, path[i], StepFlags(path, flags, 0, i));
            && (d.Derived? ==> d.key.IsPrivate() && d.key.Consistent(c))
            && Derive(c, m, path[i], StepFlags(path, flags.(keyPublic := true), PrivateUntil(path), i)) ==
               if i + 1 < PrivateUntil(path) then d else NeuterDerivation(d)
  {
    var f := StepFlags(path, flags, 0, i);
    var g := StepFlags(path, flags.(keyPublic := true), PrivateUntil(path), i);
    if Derive(c, k, path[i], f).Derived? {
      DeriveConsistent(c, k, path[i], f);
    }
    if i + 1 < PrivateUntil(path) {
      assert g == f;
    } else {
      assert g == f.(keyPublic := true);
      if m == k {
        DerivePublicFromPrivate(c, k, path[i], f);
      } else {
        NothingHardenedAfter(path, i);
        NeuterCommutes(c, k, path[i], f);
      }
    }
  }

  /** From element `i` on the loop comes to `r`. */
  ghost predicate ComesTo(c: Crypto, k: Key, path: seq<nat>, flags: Flags, until: nat, i: nat, r: Option<Key>)
    requires i <= |path|
  {
    forall j: nat :: j == i ==> DeriveFrom(c, k, path, flags, until, j) == r
  }

  lemma ComesToItself(c: Crypto, k: Key, path: seq<nat>, flags: Flags, until: nat)
    ensures ComesTo(c, k, path, flags, until, |path|, Some(k))
  {
  }

  lemma ComesToNext(c: Crypto, k: Key, path: seq<nat>, flags: Flags, until: nat, i: nat, d: Derivation, r: Option<Key>)
    requires i < |path| && d == Derive(c, k, path[i], StepFlags(path, flags, until, i))
    requires if d.Derived? then ComesTo(c, d.key, path, flags, until, i + 1, r) else r == None
    ensures ComesTo(c, k, path, flags, until, i, r)
  {
    DeriveFromStep(c, k, path, flags, until, i, StepFlags(path, flags, until, i));
  }

  /** Up to the last hardened element the two runs coincide; after it the public
      one holds the neutered key of the private one. */
  lemma {:induction false} PublicRunIsNeutered(c: Crypto, k: Key, m: Key, path: seq<nat>, flags: Flags, i: nat)
    returns (r: Option<Key>)
    requires c.Lawful() && k.IsPrivate() && k.Consistent(c) && !flags.keyPublic
    requires i <= |path| && path != []
    requires m == if i == 0 || i < PrivateUntil(path) then k else Neuter(k)
    ensures ComesTo(c, k, path, flags, 0, i, r)
    ensures ComesTo(c, m, path, flags.(keyPublic := true), PrivateUntil(path), i, NeuterOption(r))
    decreases |path| - i
  {
    if i == |path| {
      r := Some(k);
      ComesToItself(c, k, path, flags, 0);
      ComesToItself(c, m, path, flags.(keyPublic := true), PrivateUntil(path));
    } else {
      var d := Derive(c, k, path[i], StepFlags(path, flags, 0, i));
      var e := Derive(c, m, path[i], StepFlags(path, flags.(keyPublic := true), PrivateUntil(path), i));
      PublicStep(c, k, m, path, flags, i);
      r := None;
      if d.Derived? {
        r := PublicRunIsNeutered(c, d.key, e.key, path, flags, i + 1);
      }
      ComesToNext(c, k, path, flags, 0, i, d, r);
      ComesToNext(c, m, path, flags.(keyPublic := true), PrivateUntil(path), i, e, NeuterOption(r));
    }
  }

  /** For a private root and any path, public derivation succeeds exactly when
      private derivation does and gives its neutered key, hashes and all. */
  lemma PublicPathIsNeutered(c: Crypto, root: Key, path: seq<nat>, flags: Flags)
    requires c.Lawful() && root.IsPrivate() && root.Consistent(c) && !flags.keyPublic
    ensures DerivePath(c, root, path, flags.(keyPublic := true)) == NeuterOption(DerivePath(c, root, path, flags))
  {
    if ValidPath(path, flags) {
      var r := PublicRunIsNeutered(c, root, root, path, flags, 0);
    }
  }

  lemma {:induction false} HardenedSomewhere(path: seq<nat>)
    requires PrivateUntil(path) > 0
    ensures exists j :: 0 <= j < |path| && IsHardened(path[j])
    decreases |path|
  {
    if !IsHardened(path[|path| - 1]) {
      HardenedSomewhere(path[..|path| - 1]);
      var j :| 0 <= j < |path| - 1 && IsHardened(path[..|path| - 1][j]);
      assert IsHardened(path[j]);
    }
  }

  /** A public key has no descendant along a path with a hardened element. */
  lemma {:induction false} PublicPlainFails(c: Crypto, k: Key, path: seq<nat>, flags: Flags, j: nat)
    requires !k.IsPrivate() && flags.keyPublic && j < |path| && IsHardened(path[j])
    ensures Plain(c, k, path, flags) == None
    decreases j
  {
    if j > 0 && Derive(c, k, path[0], flags).Derived? {
      assert path[1..][j - 1] == path[j];
      PublicPlainFails(c, Derive(c, k, path[0], flags).key, path[1..], flags, j - 1);
    }
  }

  /** Derivation along a path is step-by-step derivation with the caller's flags; only from a
      private key to a public one it is the neutered key of the private derivation. */
  lemma PathIsPlain(c: Crypto, k: Key, path: seq<nat>, flags: Flags)
    requires c.Lawful() && k.Consistent(c)
    ensures DerivePath(c, k, path, flags) ==
            if flags.undefined || |path| == 0 || |path| > 255 then None
            else if flags.keyPublic && k.IsPrivate() then NeuterOption(Plain(c, k, path, flags.(keyPublic := false)))
            else Plain(c, k, path, flags)
  {
    if ValidPath(path, flags) {
      if flags.keyPublic && k.IsPrivate() {
        PublicPathIsNeutered(c, k, path, flags.(keyPublic := false));
        LoopIsPlain(c, k, path, flags.(keyPublic := false));
      } else if flags.keyPublic && PrivateUntil(path) > 0 {
        HardenedSomewhere(path);
        var j :| 0 <= j < |path| && IsHardened(path[j]);
        PublicPlainFails(c, k, path, flags, j);
      } else {
        LoopIsPlain(c, k, path, flags);
      }
    }
  }

  // ----- tweak sums

  lemma OrderFits()
    ensures ORDER < Pow(256, 32)
  {
    PowAdd(256, 16, 16);
    PowAdd(256, 8, 8);
    PowAdd(256, 4, 4);
    FourBytes();
  }

  lemma ScalarRoundTrip(x: nat)
    requires x < ORDER
    ensures Parse256(Ser256(x)) == x
  {
    OrderFits();
    ValueFixed(256, x, 32);
  }

  lemma ZeroScalar(b: Bytes32)
    ensures Parse256(b) == 0 <==> b == Zeros(32)
  {
    ValueZeros(256, 32);
    if Parse256(b) == 0 {
      ValueInjective(256, b, Zeros(32));
    }
  }

  /** The public key of `k` belongs to the secret `s`, which it holds if it is private. */
  ghost predicate Owns(c: Crypto, k: Key, s: Bytes32) {
    c.pubkeyCreate(s) == Some(k.pubKey) && (k.IsPrivate() ==> k.Secret() == s)
  }

  /** `t` is `s` plus `total`. */
  predicate Adds(s: Bytes32, total: nat, t: Bytes32) {
    Parse256(t) == (Parse256(s) + total) % ORDER
  }

  /** `k` belongs to the secret `s`, which is `base` plus the tweak sum. */
  ghost predicate Tracks(c: Crypto, base: Bytes32, k: Key, s: Bytes32) {
    Owns(c, k, s) && Parse256(k.tweakSum) < ORDER && Adds(base, Parse256(k.tweakSum), s)
  }

  lemma SumsAssociate(x: nat, y: nat, z: nat)
    ensures ((x + y) % ORDER + z) % ORDER == (x + (y + z)) % ORDER == (x + (y + z) % ORDER) % ORDER
  {
  }

  lemma AddsOn(s: Bytes32, x: nat, u: Bytes32, y: nat, t: Bytes32, total: nat)
    requires Adds(s, x, u) && Adds(u, y, t) && (total == x + y || total == (x + y) % ORDER)
    ensures Adds(s, total, t)
  {
    SumsAssociate(Parse256(s), x, y);
  }

  /** Adding a tweak to the running sum adds it to what the sum stands for. */
  lemma TweakSumAdds(c: Crypto, sum: Bytes32, il: Bytes32)
    requires c.Lawful() && Parse256(sum) < ORDER && Parse256(il) < ORDER && AddToTweakSum(c, sum, il).Some?
    ensures Parse256(AddToTweakSum(c, sum, il).value) == (Parse256(sum) + Parse256(il)) % ORDER
  {
    ZeroScalar(sum);
    ScalarRoundTrip((Parse256(sum) + Parse256(il)) % ORDER);
  }

  /** The third group law, from the public key's side. */
  lemma TweakedPublicKey(c: Crypto, secret: Bytes32, pub: Bytes33, t: Bytes32)
    requires c.Lawful() && c.pubkeyCreate(secret) == Some(pub)
    ensures c.pubkeyTweakAdd(pub, t) ==
            match AddScalars(secret, t) case Some(sum) => c.pubkeyCreate(sum) case None => None
  {
    assert c.pubkeyCreate(secret).value == pub;
  }

  /** Whichever way the child's keys are computed, its public key belongs to the
      parent's secret plus the tweak. */
  lemma ChildKeysTrack(c: Crypto, k: Key, s: Bytes32, il: Bytes32)
    requires c.Lawful() && Owns(c, k, s) && ChildKeys(c, k, il).Some?
    ensures AddScalars(s, il).Some? && c.pubkeyCreate(AddScalars(s, il).value) == Some(ChildKeys(c, k, il).value.1)
    ensures k.IsPrivate() ==> ChildKeys(c, k, il).value.0 == [0] + AddScalars(s, il).value
  {
    TweakedPublicKey(c, s, k.pubKey, il);
  }

  lemma SecretAdds(s: Bytes32, il: Bytes32)
    requires AddScalars(s, il).Some?
    ensures ValidSecret(AddScalars(s, il).value) && Adds(s, Parse256(il), AddScalars(s, il).value)
  {
    ScalarRoundTrip((Parse256(s) + Parse256(il)) % ORDER);
  }

  // ----- keys along a path

  /** The tweak that a child's keys are made with. */
  function Tweak(c: Crypto, k: Key, i: nat): Bytes32 {
    c.hmacSha512(k.chainCode, Data(k, i))[..32]
  }

  /** What a derived child takes from its parent and the tweak. */
  lemma DerivedParts(c: Crypto, k: Key, i: nat, flags: Flags)
    requires Derive(c, k, i, flags).Derived?
    ensures var child, keys := Derive(c, k, i, flags).key, ChildKeys(c, k, Tweak(c, k, i));
            && keys.Some? && child.pubKey == keys.value.1
            && (child.IsPrivate() ==> k.IsPrivate() && child.privKey == keys.value.0)
            && ChildTweakSum(c, k, Tweak(c, k, i), flags) == Some(child.tweakSum)
  {
  }

  /** The secret of a child is its parent's plus the tweak. */
  lemma StepOwns(c: Crypto, k: Key, s: Bytes32, i: nat, f: Flags) returns (t: Bytes32)
    requires c.Lawful() && Owns(c, k, s) && Derive(c, k, i, f).Derived?
    ensures Owns(c, Derive(c, k, i, f).key, t) && AddScalars(s, Tweak(c, k, i)) == Some(t)
  {
    DerivedParts(c, k, i, f);
    ChildKeysTrack(c, k, s, Tweak(c, k, i));
    t := AddScalars(s, Tweak(c, k, i)).value;
    assert ([0] + t)[1..] == t;
  }

  lemma StepAdds(c: Crypto, k: Key, s: Bytes32, i: nat, f: Flags) returns (u: Bytes32)
    requires c.Lawful() && Owns(c, k, s) && Derive(c, k, i, f).Derived?
    ensures Owns(c, Derive(c, k, i, f).key, u) && Parse256(Tweak(c, k, i)) < ORDER
    ensures Adds(s, Parse256(Tweak(c, k, i)), u)
  {
    u := StepOwns(c, k, s, i, f);
    SecretAdds(s, Tweak(c, k, i));
  }

  lemma StepTracks(c: Crypto, base: Bytes32, k: Key, s: Bytes32, i: nat, f: Flags) returns (t: Bytes32)
    requires c.Lawful() && Tracks(c, base, k, s) && f.tweakSum && Derive(c, k, i, f).Derived?
    ensures Tracks(c, base, Derive(c, k, i, f).key, t)
  {
    var il := Tweak(c, k, i);
    t := StepAdds(c, k, s, i, f);
    DerivedParts(c, k, i, f);
    TweakSumAdds(c, k.tweakSum, il);
    AddsOn(base, Parse256(k.tweakSum), s, Parse256(il), t, Parse256(Derive(c, k, i, f).key.tweakSum));
  }

  lemma {:induction false} DeriveFromTracks(c: Crypto, base: Bytes32, k: Key, s: Bytes32, path: seq<nat>,
        flags: Flags, until: nat, i: nat)
    returns (t: Bytes32)
    requires c.Lawful() && Tracks(c, base, k, s) && flags.tweakSum && i <= |path|
    requires DeriveFrom(c, k, path, flags, until, i).Some?
    ensures Tracks(c, base, DeriveFrom(c, k, path, flags, until, i).value, t)
    decreases |path| - i
  {
    t := s;
    if i < |path| {
      var f := StepFlags(path, flags, until, i);
      DeriveFromStep(c, k, path, flags, until, i, f);
      t := StepTracks(c, base, k, s, path[i], f);
      t := DeriveFromTracks(c, base, Derive(c, k, path[i], f).key, t, path, flags, until, i + 1);
    }
  }

  // ----- recomputed public keys

  /** Adding a sum to a secret gives `s` exactly when the scalars add up to it. */
  lemma SumIsSecret(secret: Bytes32, sum: Bytes32, s: Bytes32)
    requires ValidSecret(secret) && ValidSecret(s) && Parse256(sum) < ORDER
    ensures AddScalars(secret, sum) == Some(s) <==> Adds(secret, Parse256(sum), s)
  {
    var x := (Parse256(secret) + Parse256(sum)) % ORDER;
    ScalarRoundTrip(x);
    if Parse256(s) == x {
      ValueInjective(256, s, Ser256(x));
    }
  }

  lemma Opposite(x: nat, y: nat)
    requires 0 < x < ORDER && 0 < y < ORDER
    ensures (x + (ORDER - x)) % ORDER == 0
    ensures (y + (ORDER - x)) % ORDER == 0 <==> x == y
  {
  }

  /** Two secrets do not share a public key: adding the opposite of one fails for it alone. */
  lemma PublicKeyIsInjective(c: Crypto, a: Bytes32, b: Bytes32)
    requires c.Lawful() && c.pubkeyCreate(a).Some? && c.pubkeyCreate(a) == c.pubkeyCreate(b)
    ensures a == b
  {
    assert ValidSecret(a) && ValidSecret(b);
    var t := Ser256(ORDER - Parse256(a));
    ScalarRoundTrip(ORDER - Parse256(a));
    Opposite(Parse256(a), Parse256(b));
    TweakedPublicKey(c, a, c.pubkeyCreate(a).value, t);
    TweakedPublicKey(c, b, c.pubkeyCreate(a).value, t);
    if AddScalars(b, t).Some? {
      SecretAdds(b, t);
    }
    ValueInjective(256, a, b);
  }

  /** The public key recomputed from `secret`'s and a sum is that of `s` exactly when the sum leads there. */
  lemma RecomputedIs(c: Crypto, secret: Bytes32, pub: Bytes33, sum: Bytes32, s: Bytes32)
    requires c.Lawful() && c.pubkeyCreate(secret) == Some(pub) && ValidSecret(s) && Parse256(sum) < ORDER
    ensures c.pubkeyTweakAdd(pub, sum) == c.pubkeyCreate(s) <==> Adds(secret, Parse256(sum), s)
  {
    TweakedPublicKey(c, secret, pub, sum);
    SumIsSecret(secret, sum, s);
    match AddScalars(secret, sum)
    case None =>
    case Some(t) =>
      SecretAdds(secret, sum);
      if c.pubkeyCreate(t) == c.pubkeyCreate(s) {
        PublicKeyIsInjective(c, t, s);
      }
  }

  lemma Difference(x: nat, y: nat) returns (b: nat)
    requires x < ORDER && y < ORDER
    ensures b < ORDER && (b + y) % ORDER == x
  {
    b := (x + (ORDER - y)) % ORDER;
  }

  /** The start of a run whose sum need not be zero: the base is the secret less the sum. */
  lemma TracksFrom(c: Crypto, root: Key, secret: Bytes32) returns (base: Bytes32)
    requires c.Lawful() && Owns(c, root, secret) && Parse256(root.tweakSum) < ORDER
    ensures Tracks(c, base, root, secret)
  {
    assert ValidSecret(secret);
    var b := Difference(Parse256(secret), Parse256(root.tweakSum));
    base := Ser256(b);
    ScalarRoundTrip(b);
  }

  lemma ShiftedSum(b: nat, y: nat, z: nat)
    requires y < ORDER
    ensures ((b + y) % ORDER + z) % ORDER == (b + z) % ORDER <==> y == 0
  {
  }

  lemma ShiftedAdds(base: Bytes32, y: nat, s: Bytes32, z: nat, t: Bytes32)
    requires Adds(base, y, s) && Adds(base, z, t) && y < ORDER
    ensures Adds(s, z, t) <==> y == 0
  {
    ShiftedSum(Parse256(base), y, z);
  }

  /** A root's tweak sum that gets added to is zero or a valid scalar. */
  lemma SumInRange(c: Crypto, root: Key, path: seq<nat>, flags: Flags, until: nat)
    requires c.Lawful() && path != [] && flags.tweakSum && DeriveFrom(c, root, path, flags, until, 0).Some?
    ensures Parse256(root.tweakSum) < ORDER
  {
    var f := StepFlags(path, flags, until, 0);
    DeriveFromStep(c, root, path, flags, until, 0, f);
    DerivedParts(c, root, path[0], f);
    ZeroScalar(root.tweakSum);
  }

  lemma TracksRecomputed(c: Crypto, root: Key, secret: Bytes32, base: Bytes32, k: Key, t: Bytes32)
    requires c.Lawful() && Owns(c, root, secret) && Parse256(root.tweakSum) < ORDER
    requires Tracks(c, base, root, secret) && Tracks(c, base, k, t)
    ensures c.pubkeyTweakAdd(root.pubKey, k.tweakSum) == Some(k.pubKey) <==> root.tweakSum == Zeros(32)
  {
    assert ValidSecret(secret);
    RecomputedIs(c, secret, root.pubKey, k.tweakSum, t);
    ShiftedAdds(base, Parse256(root.tweakSum), secret, Parse256(k.tweakSum), t);
    ZeroScalar(root.tweakSum);
  }

  /** With the tweak sum requested, the root's public key plus the sum is the derived public
      key exactly when the root's own sum is zero; then recomputing it changes nothing, on any
      path and for private and public roots alike. */
  lemma TweakSumGivesPublicKey(c: Crypto, root: Key, secret: Bytes32, path: seq<nat>, flags: Flags)
    requires c.Lawful() && Owns(c, root, secret) && flags.tweakSum && DerivePath(c, root, path, flags).Some?
    ensures var k := DerivePath(c, root, path, flags).value;
            c.pubkeyTweakAdd(root.pubKey, k.tweakSum) == Some(k.pubKey) <==> root.tweakSum == Zeros(32)
  {
    var until := if flags.keyPublic then PrivateUntil(path) else 0;
    SumInRange(c, root, path, flags, until);
    var base := TracksFrom(c, root, secret);
    var t := DeriveFromTracks(c, base, root, secret, path, flags, until, 0);
    TracksRecomputed(c, root, secret, base, DeriveFrom(c, root, path, flags, until, 0).value, t);
  }

  // ----- without a tweak sum

  lemma {:induction false} DerivedWithoutTweakSum(c: Crypto, k: Key, path: seq<nat>, flags: Flags, until: nat, i: nat)
    requires i < |path| && !flags.tweakSum && DeriveFrom(c, k, path, flags, until, i).Some?
    ensures DeriveFrom(c, k, path, flags, until, i).value.tweakSum == Zeros(32)
    decreases |path| - i
  {
    var f := StepFlags(path, flags, until, i);
    DeriveFromStep(c, k, path, flags, until, i, f);
    if i + 1 < |path| {
      DerivedWithoutTweakSum(c, Derive(c, k, path[i], f).key, path, flags, until, i + 1);
    }
  }

  /** The total of the tweaks along a path, from element `i` on. */
  function TweakTotal(c: Crypto, k: Key, path: seq<nat>, flags: Flags, until: nat, i: nat): nat
    requires i <= |path|
    decreases |path| - i
  {
    if i == |path| then 0
    else
      match Derive(c, k, path[i], StepFlags(path, flags, until, i))
      case Derived(child) => Parse256(Tweak(c, k, path[i])) + TweakTotal(c, child, path, flags, until, i + 1)
      case _ => 0
  }

  lemma AddsNothing(s: Bytes32, total: nat)
    requires ValidSecret(s) && total == 0
    ensures Adds(s, total, s)
  {
  }

  lemma TotalNext(c: Crypto, k: Key, path: seq<nat>, flags: Flags, until: nat, i: nat, f: Flags)
    requires i < |path| && f == StepFlags(path, flags, until, i) && Derive(c, k, path[i], f).Derived?
    ensures TweakTotal(c, k, path, flags, until, i) ==
            Parse256(Tweak(c, k, path[i])) + TweakTotal(c, Derive(c, k, path[i], f).key, path, flags, until, i + 1)
  {
  }

  /** A derived key's secret is the first one's plus the total. */
  lemma {:induction false} DeriveFromOwns(c: Crypto, k: Key, s: Bytes32, path: seq<nat>, flags: Flags, until: nat,
        i: nat)
    returns (t: Bytes32)
    requires c.Lawful() && Owns(c, k, s) && i <= |path| && DeriveFrom(c, k, path, flags, until, i).Some?
    ensures Owns(c, DeriveFrom(c, k, path, flags, until, i).value, t)
    ensures Adds(s, TweakTotal(c, k, path, flags, until, i), t)
    decreases |path| - i
  {
    if i == |path| {
      t := s;
      AddsNothing(s, TweakTotal(c, k, path, flags, until, i));
    } else {
      var f := StepFlags(path, flags, until, i);
      DeriveFromStep(c, k, path, flags, until, i, f);
      var child := Derive(c, k, path[i], f).key;
      var u := StepAdds(c, k, s, path[i], f);
      TotalNext(c, k, path, flags, until, i, f);
      t := DeriveFromOwns(c, child, u, path, flags, until, i + 1);
      AddsOn(s, Parse256(Tweak(c, k, path[i])), u, TweakTotal(c, child, path, flags, until, i + 1), t,
             TweakTotal(c, k, path, flags, until, i));
    }
  }

  lemma ZeroTweak(c: Crypto, secret: Bytes32, pub: Bytes33)
    requires c.Lawful() && c.pubkeyCreate(secret) == Some(pub)
    ensures c.pubkeyTweakAdd(pub, Zeros(32)) == Some(pub)
  {
    ZeroScalar(Zeros(32));
    RecomputedIs(c, secret, pub, Zeros(32), secret);
  }

  lemma SameModulo(x: nat, y: nat)
    requires x < ORDER
    ensures (x + y) % ORDER == x <==> y % ORDER == 0
  {
  }

  lemma OwnsTheSame(c: Crypto, root: Key, secret: Bytes32, k: Key, total: nat, t: Bytes32)
    requires c.Lawful() && Owns(c, root, secret) && Owns(c, k, t) && Adds(secret, total, t)
    ensures k.pubKey == root.pubKey <==> total % ORDER == 0
  {
    assert ValidSecret(secret);
    SameModulo(Parse256(secret), total);
    if k.pubKey == root.pubKey {
      PublicKeyIsInjective(c, t, secret);
    } else if Parse256(t) == Parse256(secret) {
      ValueInjective(256, t, secret);
    }
  }

  /** Without the tweak sum requested, the recomputed public key is the root's own: it is the
      derived one exactly when the tweaks along the path add up to zero. */
  lemma NoTweakSumGivesRootKey(c: Crypto, root: Key, secret: Bytes32, path: seq<nat>, flags: Flags)
    requires c.Lawful() && Owns(c, root, secret) && !flags.tweakSum && DerivePath(c, root, path, flags).Some?
    ensures var k := DerivePath(c, root, path, flags).value;
            var until := if flags.keyPublic then PrivateUntil(path) else 0;
            && c.pubkeyTweakAdd(root.pubKey, k.tweakSum) == Some(root.pubKey)
            && (k.pubKey == root.pubKey <==> TweakTotal(c, root, path, flags, until, 0) % ORDER == 0)
  {
    var until := if flags.keyPublic then PrivateUntil(path) else 0;
    var k := DeriveFrom(c, root, path, flags, until, 0).value;
    DerivedWithoutTweakSum(c, root, path, flags, until, 0);
    ZeroTweak(c, secret, root.pubKey);
    var t := DeriveFromOwns(c, root, secret, path, flags, until, 0);
    OwnsTheSame(c, root, secret, k, TweakTotal(c, root, path, flags, until, 0), t);
  }

  // ----- the laws can be met

  /** Public keys that show their secrets satisfy every law. */
  function ToyCreate(key: Bytes32): Option<Bytes33> {
    if ValidSecret(key) then Some([2] + key) else None
  }

  function ToyTweak(pub: Bytes33, t: Bytes32): Option<Bytes33> {
    match AddScalars(pub[1..], t)
    case Some(sum) => ToyCreate(sum)
    case None => None
  }

  /** Every hash is `hash`. */
  function ToyCrypto(hash: Bytes64): Crypto {
    Crypto((_, _) => hash, _ => Zeros(20), AddScalars, ToyCreate, ToyTweak)
  }

  lemma ToyIsLawful(hash: Bytes64)
    ensures ToyCrypto(hash).Lawful()
  {
    var c := ToyCrypto(hash);
    forall key: Bytes32, t: Bytes32 | ValidSecret(key)
      ensures c.pubkeyCreate(key).Some? && c.pubkeyTweakAdd(c.pubkeyCreate(key).value, t) ==
              match AddScalars(key, t) case Some(sum) => c.pubkeyCreate(sum) case None => None
    {
      assert ToyCreate(key).value[1..] == key;
    }
  }

  lemma LawsAreConsistent()
    ensures exists c: Crypto :: c.Lawful()
  {
    ToyIsLawful(Zeros(64));
  }

  /** The root key of secret 1 and its first child, when every tweak is 1. */
  const ONE: Bytes32 := Ser256(1)
  const ROOT: Key := WIPED.(privKey := [0] + ONE, version := VER_MAIN_PRIVATE, pubKey := [2] + ONE)
  const PUBLIC: Flags := Flags(true, false, false, false)

  lemma RootOwnsOne()
    ensures var c := ToyCrypto(ONE + Zeros(32)); c.Lawful() && Owns(c, ROOT, ONE) && Tweak(c, ROOT, 0) == ONE
    ensures Parse256(ONE) == 1
  {
    ToyIsLawful(ONE + Zeros(32));
    ScalarRoundTrip(1);
    assert ([0] + ONE)[1..] == ONE && (ONE + Zeros(32))[..32] == ONE;
  }

  lemma OneDerives()
    ensures Derive(ToyCrypto(ONE + Zeros(32)), ROOT, 0, PUBLIC).Derived?
  {
    var c := ToyCrypto(ONE + Zeros(32));
    RootOwnsOne();
    SecretAdds(ONE, ONE);
    assert AddScalars(ONE, ONE).Some?;
    assert ChildKeys(c, ROOT, ONE).Some?;
  }

  /** Without the tweak sum the recomputed key can differ from the derived one. */
  lemma RecomputedDiffers()
    ensures var c := ToyCrypto(ONE + Zeros(32));
            && c.Lawful() && ROOT.Consistent(c) && DerivePath(c, ROOT, [0], PUBLIC).Some?
            && var k := DerivePath(c, ROOT, [0], PUBLIC).value;
               c.pubkeyTweakAdd(ROOT.pubKey, k.tweakSum) == Some(ROOT.pubKey) && k.pubKey != ROOT.pubKey
  {
    var c, path := ToyCrypto(ONE + Zeros(32)), [0];
    RootOwnsOne();
    OneDerives();
    assert StepFlags(path, PUBLIC, 0, 0) == PUBLIC && PrivateUntil(path) == 0;
    var child := Derive(c, ROOT, 0, PUBLIC).key;
    assert DeriveFrom(c, child, path, PUBLIC, 0, 1) == Some(child);
    TotalNext(c, ROOT, path, PUBLIC, 0, 0, PUBLIC);
    assert TweakTotal(c, child, path, PUBLIC, 0, 1) == 0;
    NoTweakSumGivesRootKey(c, ROOT, ONE, path, PUBLIC);
  }
}
