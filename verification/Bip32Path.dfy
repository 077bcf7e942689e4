/** Derivation along a path, and the laws that make its two optimisations safe. */
module Bip32Path {
  import opened Common
  import opened Radix
  import opened Bip32

  // ----- what bip32_key_from_parent_path computes

  /** Lines 795-800: one past the last hardened element, or 0. */
  function PrivateUntil(path: seq<nat>): (n: nat)
    ensures n <= |path|
  {
    if path == [] then 0
    else if IsHardened(path[|path| - 1]) then |path|
    else PrivateUntil(path[..|path| - 1])
  }

  /** Lines 807-815: private up to the last hardened element, and no hashes for
      any key but the last two. */
  function StepFlags(path: seq<nat>, flags: Flags, privateUntil: nat, i: nat): Flags {
    var f := if privateUntil > 0 && i < privateUntil - 1 then flags.(keyPublic := false) else flags;
    if i + 2 < |path| then f.(skipHash := true) else f
  }

  /** The loop of lines 805-823 from element `i` on. */
  function DeriveFrom(c: Crypto, k: Key, path: seq<nat>, flags: Flags, privateUntil: nat, i: nat): Option<Key>
    requires i <= |path|
    decreases |path| - i
  {
    if i == |path| then Some(k)
    else
      match Derive(c, k, path[i], StepFlags(path, flags, privateUntil, i))
      case Derived(child) => DeriveFrom(c, child, path, flags, privateUntil, i + 1)
      case _ => None
  }

  lemma DeriveFromStep(c: Crypto, k: Key, path: seq<nat>, flags: Flags, privateUntil: nat, i: nat, f: Flags)
    requires i < |path| && f == StepFlags(path, flags, privateUntil, i)
    ensures Derive(c, k, path[i], f).Derived? ==>
              DeriveFrom(c, k, path, flags, privateUntil, i) ==
              DeriveFrom(c, Derive(c, k, path[i], f).key, path, flags, privateUntil, i + 1)
    ensures !Derive(c, k, path[i], f).Derived? ==> DeriveFrom(c, k, path, flags, privateUntil, i) == None
  {
  }

  /** `bip32_key_from_parent_path`. */
  function DerivePath(c: Crypto, k: Key, path: seq<nat>, flags: Flags): Option<Key> {
    if flags.undefined || path == [] || |path| > MAX_PATH then None
    else
      var until := if flags.keyPublic then PrivateUntil(path) else 0;
      if until > 0 && !k.IsPrivate() then None
      else DeriveFrom(c, k, path, flags, until, 0)
  }

  /** The plain form: derive step by step with the caller's flags. */
  function Plain(c: Crypto, k: Key, path: seq<nat>, flags: Flags): Option<Key>
    decreases |path|
  {
    if path == [] then Some(k)
    else
      match Derive(c, k, path[0], flags)
      case Derived(child) => Plain(c, child, path[1..], flags)
      case _ => None
  }
}
