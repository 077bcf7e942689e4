/** Derivation along a path string: `bip32_key_from_parent_path_str_n` in src/bip32.c. */
module Bip32String {
  import opened Common
  import opened Bip32
  import opened Bip32Path
  import opened Bip32Key
  import Bip32Laws
  import PathSyntax
  import PathText
  import PathParser
  import PathTheorems

  /** The derivation flags and the string flags are views of one argument. */
  predicate SameArgument(o: PathSyntax.Options, flags: Flags) {
    o.undefined == flags.undefined && o.multiIndex == 0
  }

  function DeriveString(c: Crypto, k: Key, s: string, o: PathSyntax.Options, flags: Flags): Option<Key> {
    if o.multipath then None
    else
      match PathSyntax.Parse(s, o)
      case None => None
      case Some(r) => DerivePath(c, k, r.path, flags)
  }

  lemma ParsedLength(s: string, o: PathSyntax.Options)
    requires PathSyntax.Parse(s, o).Some?
    ensures 1 <= |PathSyntax.Parse(s, o).value.path| <= MAX_PATH
  {
    PathTheorems.AcceptedInRange(s, o);
  }

  /** `bip32_key_from_parent_path_str_n`: the path goes through a buffer of 255 elements. */
  method FromParentPathStr(c: Crypto, root: ExtKey, s: string, o: PathSyntax.Options, flags: Flags, keyOut: ExtKey)
    returns (ret: Status)
    requires SameArgument(o, flags)
    modifies keyOut
    ensures match DeriveString(c, old(root.Value()), s, o, flags)
            case Some(key) => ret == Ok && keyOut.Value() == key
            case None => ret == Invalid && keyOut.Value() == old(keyOut.Value())
  {
    if o.multipath {
      return Invalid;
    }
    var path := new nat[MAX_PATH];
    var features, written;
    ret, features, written := PathParser.PathFromStr(s, o, path);
    if ret == Ok {
      ParsedLength(s, o);
      ghost var r := PathSyntax.Parse(s, o).value;
      assert path[..written] == r.path;
      ret := FromParentPath(c, root, path[..written], flags, keyOut);
    }
  }

  /** Deriving along a written path is deriving along the path. */
  lemma StringIsPath(c: Crypto, k: Key, path: seq<nat>, header: PathText.Header, mark: char, o: PathSyntax.Options,
        flags: Flags)
    requires 1 <= |path| <= MAX_PATH && forall i :: 0 <= i < |path| ==> path[i] < TWO_32
    requires PathSyntax.ValidOptions(o) && o.childNum == 0 && SameArgument(o, flags) && !o.multipath
    requires PathSyntax.IsMark(mark, o.upper) && (o.bare ==> header == PathText.Nothing)
    ensures DeriveString(c, k, PathText.Print(PathTheorems.TextOf(path, header, mark)), o, flags) ==
            DerivePath(c, k, path, flags)
  {
    PathTheorems.PathRoundTrip(path, header, mark, o);
  }

  /** For any string, public derivation gives the neutered result of private derivation. */
  lemma PublicStringIsNeutered(c: Crypto, root: Key, s: string, o: PathSyntax.Options, flags: Flags)
    requires c.Lawful() && root.IsPrivate() && root.Consistent(c) && !flags.keyPublic
    ensures DeriveString(c, root, s, o, flags.(keyPublic := true)) ==
            Bip32Laws.NeuterOption(DeriveString(c, root, s, o, flags))
  {
    var r := PathSyntax.Parse(s, o);
    if !o.multipath && r.Some? {
      Bip32Laws.PublicPathIsNeutered(c, root, r.value.path, flags);
    }
  }

  /** Private derivation along a written path is derivation along its first part and then the second. */
  lemma StringsCompose(c: Crypto, k: Key, p: seq<nat>, q: seq<nat>, header: PathText.Header, mark: char,
        o: PathSyntax.Options, flags: Flags)
    requires p != [] && q != [] && |p| + |q| <= MAX_PATH && !flags.keyPublic
    requires forall i :: 0 <= i < |p + q| ==> (p + q)[i] < TWO_32
    requires PathSyntax.ValidOptions(o) && o.childNum == 0 && SameArgument(o, flags) && !o.multipath
    requires PathSyntax.IsMark(mark, o.upper) && (o.bare ==> header == PathText.Nothing)
    ensures DeriveString(c, k, PathText.Print(PathTheorems.TextOf(p + q, header, mark)), o, flags) ==
            match DeriveString(c, k, PathText.Print(PathTheorems.TextOf(p, header, mark)), o, flags)
            case None => None
            case Some(m) => DeriveString(c, m, PathText.Print(PathTheorems.TextOf(q, header, mark)), o, flags)
  {
    assert forall i :: 0 <= i < |p| ==> p[i] == (p + q)[i];
    assert forall i :: 0 <= i < |q| ==> q[i] == (p + q)[|p| + i];
    StringIsPath(c, k, p + q, header, mark, o, flags);
    StringIsPath(c, k, p, header, mark, o, flags);
    Bip32Laws.PathsCompose(c, k, p, q, flags);
    if DerivePath(c, k, p, flags).Some? {
      StringIsPath(c, DerivePath(c, k, p, flags).value, q, header, mark, o, flags);
    }
  }
}
