/** Words of bits as the numbers that C computes with: exclusive or, shifts and masks. */
module BitNumbers {
  import opened Common
  import opened Words
  import opened BitRegroup
  import opened Radix

  /** `a ^ b` */
  function BitXor(a: nat, b: nat): nat
    decreases a + b
  {
    if a == 0 && b == 0 then 0 else 2 * BitXor(a / 2, b / 2) + (a % 2 + b % 2) % 2
  }

  lemma LastBit(w: Word)
    requires w != []
    ensures FromBits(w) / 2 == FromBits(w[..|w| - 1]) && FromBits(w) % 2 == if w[|w| - 1] then 1 else 0
  {
  }

  lemma {:induction false} XorIsBitXor(a: Word, b: Word)
    requires |a| == |b|
    ensures FromBits(Xor(a, b)) == BitXor(FromBits(a), FromBits(b))
    decreases |a|
  {
    if a != [] {
      var k := |a| - 1;
      assert Xor(a, b)[..k] == Xor(a[..k], b[..k]);
      XorIsBitXor(a[..k], b[..k]);
      LastBit(a);
      LastBit(b);
      LastBit(Xor(a, b));
    }
  }

  lemma AppendStep(u: nat, p: nat, v: nat, b: nat)
    ensures 2 * (u * p + v) + b == u * (2 * p) + (2 * v + b)
  {
    MulAssociative(u, 2, p);
    MulAssociative(2, u, p);
  }

  lemma {:induction false} FromBitsAppend(u: Word, v: Word)
    ensures FromBits(u + v) == FromBits(u) * Pow(2, |v|) + FromBits(v)
    decreases |v|
  {
    if v == [] {
      assert u + v == u;
    } else {
      var k := |v| - 1;
      assert (u + v)[..|u| + k] == u + v[..k];
      FromBitsAppend(u, v[..k]);
      AppendStep(FromBits(u), Pow(2, k), FromBits(v[..k]), if v[k] then 1 else 0);
    }
  }

  lemma Quotient(n: nat, u: nat, p: nat, v: nat)
    requires n == u * p + v && v < p
    ensures u == n / p && v == n % p
  {
    DivMod(n, p);
    QuotientUnique(p, u, v, n / p, n % p);
  }

  /** The bits above and below `k`, as a shift and a mask give them. */
  lemma {:induction false} SplitNumber(w: Word, k: nat)
    requires k <= |w|
    ensures FromBits(w[..|w| - k]) == FromBits(w) / Pow(2, k) && FromBits(w[|w| - k..]) == FromBits(w) % Pow(2, k)
  {
    var u, v := w[..|w| - k], w[|w| - k..];
    assert w == u + v;
    FromBitsAppend(u, v);
    FromBitsBound(v);
    Quotient(FromBits(w), FromBits(u), Pow(2, k), FromBits(v));
  }

  lemma ShiftedNumber(w: Word, k: nat)
    ensures FromBits(w + Clear(k)) == FromBits(w) * Pow(2, k)
  {
    FromBitsAppend(w, Clear(k));
    FromBitsZero(Clear(k));
  }

  /** Bit `i` of a number, counted from the last. */
  lemma BitOfNumber(w: Word, i: nat)
    requires i < |w|
    ensures w[|w| - 1 - i] <==> FromBits(w) / Pow(2, i) % 2 == 1
  {
    SplitNumber(w, i);
    LastBit(w[..|w| - i]);
  }

  /** Groups of bits are the digits of their number. */
  lemma {:induction false} FlattenIsValue(s: seq<int>, width: nat)
    requires Bounded(s, width)
    ensures FromBits(Flatten(s, width)) == Value(Pow(2, width), s)
    decreases |s|
  {
    if s != [] {
      var k := |s| - 1;
      FlattenIsValue(s[..k], width);
      assert s == s[..k] + [s[k]];
      FlattenAppend(s[..k], [s[k]], width);
      FlattenOne(s[k], width);
      FromBitsAppend(Flatten(s[..k], width), Bits(s[k], width));
      FromBitsBits(s[k], width);
    }
  }
}
