/** Positional notation, most significant digit first. */
module Radix {
  import opened Common

  predicate Digits(b: nat, s: seq<int>) {
    forall i :: 0 <= i < |s| ==> 0 <= s[i] < b
  }

  /** The number that `s` spells in base `b`. */
  function Value(b: nat, s: seq<int>): int {
    if s == [] then 0 else b * Value(b, s[..|s| - 1]) + s[|s| - 1]
  }

  lemma DivMod(x: nat, b: nat)
    requires b > 0
    ensures 0 <= x / b && 0 <= x % b < b && x == b * (x / b) + x % b
  {
  }

  function LastDigit(b: nat, x: nat): (d: nat)
    requires b > 0
    ensures d < b
  {
    DivMod(x, b);
    x % b
  }

  function OtherDigits(b: nat, x: nat): (q: nat)
    requires b > 0
    ensures x == b * q + LastDigit(b, x)
  {
    DivMod(x, b);
    x / b
  }

  /** The `len` lowest digits of `x` in base `b`. */
  function Fixed(b: nat, x: nat, len: nat): (s: seq<int>)
    requires b > 0
    ensures |s| == len && Digits(b, s)
    decreases len
  {
    if len == 0 then [] else Fixed(b, OtherDigits(b, x), len - 1) + [LastDigit(b, x)]
  }

  lemma ValueSnoc(b: nat, s: seq<int>, d: int)
    ensures Value(b, s + [d]) == b * Value(b, s) + d
  {
    assert (s + [d])[..|s|] == s;
  }

  lemma Distribute(b: int, x: int, y: int)
    ensures b * (x + y) == b * x + b * y
  {
  }

  lemma {:induction false} ValueBound(b: nat, s: seq<int>)
    requires b > 0 && Digits(b, s)
    ensures 0 <= Value(b, s) < Pow(b, |s|)
  {
    if s != [] {
      var t := s[..|s| - 1];
      ValueBound(b, t);
      MulMonotonic(b, Value(b, t) + 1, Pow(b, |t|));
      Distribute(b, Value(b, t), 1);
    }
  }

  lemma {:induction false} ValueAppend(b: nat, s: seq<int>, t: seq<int>)
    ensures Value(b, s + t) == Value(b, s) * Pow(b, |t|) + Value(b, t)
    decreases |t|
  {
    if t == [] {
      assert s + t == s;
    } else {
      var u, d := t[..|t| - 1], t[|t| - 1];
      assert s + t == (s + u) + [d];
      ValueSnoc(b, s + u, d);
      ValueAppend(b, s, u);
      Distribute(b, Value(b, s) * Pow(b, |u|), Value(b, u));
      MulAssociative(b, Value(b, s), Pow(b, |u|));
      MulAssociative(Value(b, s), b, Pow(b, |u|));
    }
  }

  lemma QuotientUnique(b: nat, q: int, r: int, q': int, r': int)
    requires 0 <= r < b && 0 <= r' < b && b * q + r == b * q' + r'
    ensures q == q' && r == r'
  {
    if q < q' {
      MulMonotonic(b, 1, q' - q);
      Distribute(b, q, q' - q);
    } else if q' < q {
      MulMonotonic(b, 1, q - q');
      Distribute(b, q', q - q');
    }
  }

  /** Digit strings of one length are determined by their values. */
  lemma {:induction false} ValueInjective(b: nat, s: seq<int>, t: seq<int>)
    requires b > 0 && Digits(b, s) && Digits(b, t) && |s| == |t| && Value(b, s) == Value(b, t)
    ensures s == t
    decreases |s|
  {
    if s != [] {
      var k := |s| - 1;
      QuotientUnique(b, Value(b, s[..k]), s[k], Value(b, t[..k]), t[k]);
      ValueInjective(b, s[..k], t[..k]);
      assert s == s[..k] + [s[k]] && t == t[..k] + [t[k]];
    }
  }

  lemma ValueFixedStep(b: nat, x: nat, q: nat, d: nat, len: nat)
    requires b > 0 && len > 0 && q == OtherDigits(b, x) && d == LastDigit(b, x)
    requires Value(b, Fixed(b, q, len - 1)) == q
    ensures Value(b, Fixed(b, x, len)) == x
  {
    ValueSnoc(b, Fixed(b, q, len - 1), d);
  }

  lemma QuotientBelow(b: nat, q: nat, d: nat, p: nat)
    requires b * q + d < b * p
    ensures q < p
  {
    if q >= p {
      MulMonotonic(b, p, q);
    }
  }

  lemma {:induction false} ValueFixed(b: nat, x: nat, len: nat)
    requires b > 0 && x < Pow(b, len)
    ensures Value(b, Fixed(b, x, len)) == x
  {
    if len > 0 {
      QuotientBelow(b, OtherDigits(b, x), LastDigit(b, x), Pow(b, len - 1));
      ValueFixed(b, OtherDigits(b, x), len - 1);
      ValueFixedStep(b, x, OtherDigits(b, x), LastDigit(b, x), len);
    }
  }

  lemma {:induction false} FixedValue(b: nat, s: seq<int>)
    requires b > 0 && Digits(b, s)
    ensures Value(b, s) >= 0 && Fixed(b, Value(b, s), |s|) == s
  {
    ValueBound(b, s);
    ValueFixed(b, Value(b, s), |s|);
    ValueInjective(b, Fixed(b, Value(b, s), |s|), s);
  }

  lemma {:induction false} ValueZeros(b: nat, z: nat)
    ensures Value(b, Zeros(z)) == 0
  {
    if z > 0 {
      assert Zeros(z) == Zeros(z - 1) + [0];
      ValueSnoc(b, Zeros(z - 1), 0);
      ValueZeros(b, z - 1);
    }
  }

  lemma {:induction false} ValueLeadingZeros(b: nat, z: nat, s: seq<int>)
    ensures Value(b, Zeros(z) + s) == Value(b, s)
  {
    ValueAppend(b, Zeros(z), s);
    ValueZeros(b, z);
  }

  /** A non-zero leading digit fixes the number of digits. */
  lemma {:induction false} LeadingDigit(b: nat, s: seq<int>)
    requires b > 0 && Digits(b, s) && s != [] && s[0] != 0
    ensures Pow(b, |s| - 1) <= Value(b, s)
    decreases |s|
  {
    if |s| > 1 {
      LeadingDigit(b, s[..|s| - 1]);
      MulMonotonic(b, Pow(b, |s| - 2), Value(b, s[..|s| - 1]));
    } else {
      assert s[..0] == [];
      assert Value(b, s) == s[0];
    }
  }

  lemma LongerIsLarger(b: nat, s: seq<int>, t: seq<int>)
    requires b > 1 && Digits(b, s) && Digits(b, t) && |s| < |t| && t[0] != 0
    ensures Value(b, s) < Value(b, t)
  {
    ValueBound(b, s);
    LeadingDigit(b, t);
    PowMonotonic(b, |s|, |t| - 1);
  }

  /** Without leading zeros, digit strings are determined by their values alone. */
  lemma CanonicalUnique(b: nat, s: seq<int>, t: seq<int>)
    requires b > 1 && Digits(b, s) && Digits(b, t) && Value(b, s) == Value(b, t)
    requires (s != [] ==> s[0] != 0) && (t != [] ==> t[0] != 0)
    ensures s == t
  {
    if |s| < |t| {
      LongerIsLarger(b, s, t);
    } else if |t| < |s| {
      LongerIsLarger(b, t, s);
    } else {
      ValueInjective(b, s, t);
    }
  }

  lemma QuotientSmaller(b: nat, x: nat)
    requires b > 1 && x > 0
    ensures OtherDigits(b, x) < x
    ensures OtherDigits(b, x) == 0 ==> LastDigit(b, x) != 0
  {
    var q := OtherDigits(b, x);
    if q > 0 {
      MulMonotonic(q, 2, b);
    }
  }

  /** The digits of `x` in base `b` without leading zeros. */
  function Minimal(b: nat, x: nat): (s: seq<int>)
    requires b > 1
    ensures Digits(b, s) && (s != [] ==> s[0] != 0)
    decreases x
  {
    if x == 0 then []
    else
      QuotientSmaller(b, x);
      Minimal(b, OtherDigits(b, x)) + [LastDigit(b, x)]
  }

  lemma {:induction false} ValueMinimal(b: nat, x: nat)
    requires b > 1
    ensures Value(b, Minimal(b, x)) == x
    decreases x
  {
    if x > 0 {
      QuotientSmaller(b, x);
      ValueMinimal(b, OtherDigits(b, x));
      ValueSnoc(b, Minimal(b, OtherDigits(b, x)), LastDigit(b, x));
    }
  }

  /** A digit string without leading zeros is the minimal one of its value. */
  lemma MinimalValue(b: nat, s: seq<int>)
    requires b > 1 && Digits(b, s) && (s != [] ==> s[0] != 0)
    ensures Value(b, s) >= 0 && Minimal(b, Value(b, s)) == s
  {
    ValueBound(b, s);
    ValueMinimal(b, Value(b, s));
    CanonicalUnique(b, Minimal(b, Value(b, s)), s);
  }

  lemma ValueCons(b: nat, d: int, s: seq<int>)
    ensures Value(b, [d] + s) == d * Pow(b, |s|) + Value(b, s)
  {
    ValueAppend(b, [d], s);
    assert Value(b, [d]) == d by {
      assert [d][..0] == [];
    }
  }

  /** The number again, read from the front: each digit is worth its power of the base. */
  function PlaceValue(b: nat, s: seq<nat>): nat {
    if s == [] then 0 else s[0] * Pow(b, |s| - 1) + PlaceValue(b, s[1..])
  }

  lemma {:induction false} PlaceValueIsValue(b: nat, s: seq<nat>)
    ensures PlaceValue(b, s) == Value(b, s)
    decreases |s|
  {
    if s != [] {
      PlaceValueIsValue(b, s[1..]);
      ValueCons(b, s[0], s[1..]);
      assert s == [s[0]] + s[1..];
    }
  }

  lemma {:induction false} PowPow(b: nat, e: nat, f: nat)
    ensures Pow(Pow(b, e), f) == Pow(b, e * f)
    decreases f
  {
    if f == 0 {
      assert e * 0 == 0;
    } else {
      PowPow(b, e, f - 1);
      Distribute(e, f - 1, 1);
      PowAdd(b, e * (f - 1), e);
      assert e * f == e * (f - 1) + e;
    }
  }

  /** Powers grow strictly with the base. */
  lemma {:induction false} PowBaseStrict(a: nat, b: nat, e: nat)
    requires a < b && e > 0
    ensures Pow(a, e) < Pow(b, e)
    decreases e
  {
    if e == 1 {
      assert Pow(a, 1) == a * Pow(a, 0) && Pow(b, 1) == b * Pow(b, 0);
    } else {
      PowBaseStrict(a, b, e - 1);
      MulMonotonic(a, Pow(a, e - 1), Pow(b, e - 1));
      MulMonotonic(Pow(b, e - 1), a + 1, b);
    }
  }

  lemma {:induction false} PowBaseMonotonic(a: nat, b: nat, e: nat)
    requires a <= b
    ensures Pow(a, e) <= Pow(b, e)
  {
    if a < b && e > 0 {
      PowBaseStrict(a, b, e);
    }
  }

  /** Long multiplication, one digit: with `d` the new lowest-but-`k` digit and
      `carry` what goes on to the next, nothing is lost. */
  lemma MultiplyStep(b: nat, m: int, old_: int, d: int, carryIn: int, carryOut: int, p: int, low: int, oldLow: int,
        add: int)
    requires d + b * carryOut == m * old_ + carryIn
    requires low + carryIn * p == m * oldLow + add
    ensures (d * p + low) + carryOut * (b * p) == m * (old_ * p + oldLow) + add
  {
    calc {
      (d * p + low) + carryOut * (b * p);
      { MulAssociative(carryOut, b, p); }
      d * p + low + (carryOut * b) * p;
      (d + b * carryOut) * p + low;
      (m * old_ + carryIn) * p + low;
      (m * old_) * p + carryIn * p + low;
      (m * old_) * p + m * oldLow + add;
      { MulAssociative(m, old_, p); Distribute(m, old_ * p, oldLow); }
      m * (old_ * p + oldLow) + add;
    }
  }

  /** Reading one more digit of `s`; no prefix exceeds what its length allows. */
  lemma PrefixValue(b: nat, s: seq<int>, i: nat)
    requires b > 0 && Digits(b, s) && i < |s|
    ensures Value(b, s[..i + 1]) == b * Value(b, s[..i]) + s[i]
    ensures 0 <= Value(b, s[..i + 1]) < Pow(b, |s|)
  {
    assert s[..i + 1] == s[..i] + [s[i]];
    ValueSnoc(b, s[..i], s[i]);
    ValueBound(b, s[..i + 1]);
    PowMonotonic(b, i + 1, |s|);
  }

  lemma SingleZero(b: nat)
    ensures Value(b, [0]) == 0
  {
    assert [0][..0] == [];
  }
}
