/** Filling part of a buffer and leaving the rest alone. */
module Buffers {

  /** Only what lies between `lo` and `hi` differs. */
  predicate Outside<T(==)>(now: seq<T>, before: seq<T>, lo: nat, hi: nat) {
    lo <= hi <= |now| == |before| && now[..lo] == before[..lo] && now[hi..] == before[hi..]
  }

  lemma SliceOfDrop<T>(s: seq<T>, d: nat, a: nat, b: nat)
    requires a <= b && d + b <= |s|
    ensures s[d..][a..b] == s[d + a..d + b]
  {
  }

  lemma SliceOfTake<T>(s: seq<T>, d: nat, a: nat, b: nat)
    requires a <= b <= d <= |s|
    ensures s[..d][a..b] == s[a..b]
  {
  }

  lemma OutsideSlice<T>(now: seq<T>, before: seq<T>, lo: nat, hi: nat, a: nat, b: nat)
    requires Outside(now, before, lo, hi) && a <= b <= |now| && (b <= lo || hi <= a)
    ensures now[a..b] == before[a..b]
  {
    if b <= lo {
      SliceOfTake(now, lo, a, b);
      SliceOfTake(before, lo, a, b);
    } else {
      SliceOfDrop(now, hi, a - hi, b - hi);
      SliceOfDrop(before, hi, a - hi, b - hi);
    }
  }

  lemma OutsideWider<T>(now: seq<T>, before: seq<T>, start: seq<T>, lo: nat, hi: nat, from: nat, end: nat)
    requires Outside(now, before, lo, hi) && Outside(before, start, from, end) && from <= lo && hi <= end
    ensures Outside(now, start, from, end)
  {
    OutsideSlice(now, before, lo, hi, 0, from);
    OutsideSlice(now, before, lo, hi, end, |now|);
  }

  /** Two neighbouring slices. */
  lemma Adjacent<T>(s: seq<T>, at: nat, x: seq<T>, y: seq<T>)
    requires at + |x| + |y| <= |s| && s[at..at + |x|] == x && s[at + |x|..at + |x| + |y|] == y
    ensures s[at..at + |x| + |y|] == x + y
  {
    assert s[at..at + |x| + |y|] == s[at..at + |x|] + s[at + |x|..at + |x| + |y|];
  }

  /** `memcpy` */
  method Copy<T>(out: array<T>, at: nat, src: seq<T>)
    requires at + |src| <= out.Length
    modifies out
    ensures out[at..at + |src|] == src && Outside(out[..], old(out[..]), at, at + |src|)
  {
    for n := 0 to |src|
      invariant out[at..at + n] == src[..n]
      invariant Outside(out[..], old(out[..]), at, at + |src|)
    {
      out[at + n] := src[n];
      assert out[at..at + n + 1] == out[at..at + n] + [src[n]];
    }
  }
}
