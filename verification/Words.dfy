/** Machine words as sequences of bits, most significant first. */
module Words {
  import opened Common

  type Word = seq<bool>

  /** The `len` low bits of `n`. */
  function Bits(n: nat, len: nat): (w: Word)
    ensures |w| == len
  {
    if len == 0 then [] else Bits(n / 2, len - 1) + [n % 2 == 1]
  }

  function FromBits(w: Word): nat {
    if w == [] then 0 else 2 * FromBits(w[..|w| - 1]) + if w[|w| - 1] then 1 else 0
  }

  function Clear(len: nat): (w: Word)
    ensures |w| == len && forall i :: 0 <= i < len ==> !w[i]
  {
    seq(len, _ => false)
  }

  function Xor(a: Word, b: Word): (w: Word)
    requires |a| == |b|
    ensures |w| == |a| && forall i :: 0 <= i < |a| ==> w[i] == (a[i] != b[i])
  {
    seq(|a|, i requires 0 <= i < |a| => a[i] != b[i])
  }

  lemma {:induction false} BitsFromBits(w: Word)
    ensures Bits(FromBits(w), |w|) == w
    decreases |w|
  {
    if w != [] {
      var u := w[..|w| - 1];
      BitsFromBits(u);
      assert FromBits(w) / 2 == FromBits(u);
    }
  }

  lemma {:induction false} FromBitsBits(n: nat, len: nat)
    requires n < Pow(2, len)
    ensures FromBits(Bits(n, len)) == n
    decreases len
  {
    if len > 0 {
      FromBitsBits(n / 2, len - 1);
      assert Bits(n, len)[..len - 1] == Bits(n / 2, len - 1);
    }
  }

  lemma {:induction false} FromBitsBound(w: Word)
    ensures FromBits(w) < Pow(2, |w|)
    decreases |w|
  {
    if w != [] {
      FromBitsBound(w[..|w| - 1]);
    }
  }

  /** Splitting a word splits its bits. */
  lemma {:induction false} BitsSplit(n: nat, d: nat, len: nat, k: nat)
    requires d < Pow(2, k)
    ensures Bits(n * Pow(2, k) + d, len + k) == Bits(n, len) + Bits(d, k)
    decreases k
  {
    if k > 0 {
      var p := Pow(2, k - 1);
      assert n * Pow(2, k) == 2 * (n * p) by {
        MulAssociative(n, 2, p);
      }
      assert (n * Pow(2, k) + d) / 2 == n * p + d / 2;
      assert (n * Pow(2, k) + d) % 2 == d % 2;
      BitsSplit(n, d / 2, len, k - 1);
      assert (Bits(n, len) + Bits(d / 2, k - 1)) + [d % 2 == 1] == Bits(n, len) + Bits(d, k);
    } else {
      assert n * 1 == n;
    }
  }

  /** Only the low bits matter. */
  lemma BitsOfSum(n: nat, d: nat, k: nat)
    requires d < Pow(2, k)
    ensures Bits(n * Pow(2, k) + d, k) == Bits(d, k)
  {
    BitsSplit(n, d, 0, k);
  }

  // ----- groups of bits

  predicate Bounded(s: seq<int>, width: nat) {
    forall i :: 0 <= i < |s| ==> 0 <= s[i] < Pow(2, width)
  }

  /** The bits of `s`, `width` bits an element. */
  function Flatten(s: seq<int>, width: nat): Word
    requires forall i :: 0 <= i < |s| ==> 0 <= s[i]
  {
    if s == [] then [] else Bits(s[0], width) + Flatten(s[1..], width)
  }

  /** The whole groups of `width` bits at the front of `w`, as numbers. */
  function Chunk(w: Word, width: nat): (s: seq<int>)
    requires width > 0
    ensures forall i :: 0 <= i < |s| ==> 0 <= s[i]
    decreases |w|
  {
    if |w| < width then [] else [FromBits(w[..width])] + Chunk(w[width..], width)
  }

  /** What the whole groups leave over. */
  function Rest(w: Word, width: nat): (r: Word)
    requires width > 0
    ensures |r| < width
    decreases |w|
  {
    if |w| < width then w else Rest(w[width..], width)
  }

  lemma Parts(w: Word, k: nat, u: Word, r: Word)
    requires k <= |w| && u + r == w[k..]
    ensures (w[..k] + u) + r == w
  {
    assert (w[..k] + u) + r == w[..k] + (u + r);
  }

  lemma FlattenCons(x: nat, s: seq<int>, width: nat)
    requires forall i :: 0 <= i < |s| ==> 0 <= s[i]
    ensures Flatten([x] + s, width) == Bits(x, width) + Flatten(s, width)
  {
    assert ([x] + s)[1..] == s;
  }

  lemma {:induction false} ChunkAndRest(w: Word, width: nat)
    requires width > 0
    ensures Bounded(Chunk(w, width), width)
    ensures Flatten(Chunk(w, width), width) + Rest(w, width) == w
    decreases |w|
  {
    if |w| >= width {
      var x, s := FromBits(w[..width]), Chunk(w[width..], width);
      ChunkAndRest(w[width..], width);
      BitsFromBits(w[..width]);
      FromBitsBound(w[..width]);
      FlattenCons(x, s, width);
      Parts(w, width, Flatten(s, width), Rest(w[width..], width));
    }
  }

  /** The groups and the rest determine each other. */
  lemma {:induction false} ChunkFlatten(s: seq<int>, r: Word, width: nat)
    requires width > 0 && Bounded(s, width) && |r| < width
    ensures Chunk(Flatten(s, width) + r, width) == s && Rest(Flatten(s, width) + r, width) == r
    decreases |s|
  {
    if s == [] {
      assert Flatten(s, width) + r == r;
    } else {
      var w := Flatten(s, width) + r;
      assert w[..width] == Bits(s[0], width) && w[width..] == Flatten(s[1..], width) + r;
      ChunkFlatten(s[1..], r, width);
      FromBitsBits(s[0], width);
    }
  }

  lemma {:induction false} FlattenAppend(s: seq<int>, t: seq<int>, width: nat)
    requires forall i :: 0 <= i < |s| ==> 0 <= s[i]
    requires forall i :: 0 <= i < |t| ==> 0 <= t[i]
    ensures Flatten(s + t, width) == Flatten(s, width) + Flatten(t, width)
    decreases |s|
  {
    if s == [] {
      assert s + t == t;
    } else {
      assert (s + t)[1..] == s[1..] + t;
      FlattenAppend(s[1..], t, width);
    }
  }

  lemma FlattenOne(x: nat, width: nat)
    ensures Flatten([x], width) == Bits(x, width)
  {
    assert Flatten([x][1..], width) == [];
  }

  lemma {:induction false} FlattenLength(s: seq<int>, width: nat)
    requires forall i :: 0 <= i < |s| ==> 0 <= s[i]
    ensures |Flatten(s, width)| == |s| * width
    decreases |s|
  {
    if s != [] {
      FlattenLength(s[1..], width);
      assert (|s| - 1) * width + width == |s| * width;
    }
  }
}
