/** The two in-place long-arithmetic loops of src/base_58.c. Numbers are stored most
    significant digit first and end at the end of the buffer; the digits before
    the moving top are not yet in use. */
module Base58Loops {
  import opened Common
  import opened Radix

  /** Multiplying `was` by `m` and adding `add` has reached digit `p`: the digits of
      `now` from there on, preceded by the carry, account for those of `was`. */
  ghost predicate Account(b: nat, m: int, now: seq<int>, was: seq<int>, p: nat, carry: int, add: int)
    requires |now| == |was| && p <= |now|
  {
    Value(b, [carry] + now[p..]) == m * Value(b, was[p..]) + add
  }

  lemma AccountInitially(b: nat, m: int, s: seq<int>, add: int)
    ensures Account(b, m, s, s, |s|, add, add)
  {
    assert s[|s|..] == [] && [add] + [] == [add] && [add][..0] == [];
    assert Value(b, [add]) == add;
  }

  /** Processing one more digit keeps the account. */
  lemma AccountStep(b: nat, m: int, now: seq<int>, was: seq<int>, p: nat, d: int, carryIn: int, carryOut: int, add: int)
    requires |now| == |was| && p < |now| && d + b * carryOut == m * was[p] + carryIn
    requires Account(b, m, now, was, p + 1, carryIn, add)
    ensures Account(b, m, now[p := d], was, p, carryOut, add)
  {
    var low, oldLow := now[p + 1..], was[p + 1..];
    assert now[p := d][p..] == [d] + low && was[p..] == [was[p]] + oldLow;
    ValueCons(b, carryIn, low);
    ValueCons(b, d, low);
    ValueCons(b, was[p], oldLow);
    ValueCons(b, carryOut, [d] + low);
    MultiplyStep(b, m, was[p], d, carryIn, carryOut, Pow(b, |low|), Value(b, low), Value(b, oldLow), add);
  }

  /** What lies before the digits in use plays no part. */
  lemma AccountChanges(b: nat, m: int, now: seq<int>, now': seq<int>, was: seq<int>, p: nat, carry: int, add: int)
    requires |now| == |now'| == |was| && p <= |now| && now[p..] == now'[p..]
    requires Account(b, m, now, was, p, carry, add)
    ensures Account(b, m, now', was, p, carry, add)
  {
  }

  /** Without a carry the digits are the result. */
  lemma AccountSettled(b: nat, m: int, now: seq<int>, was: seq<int>, p: nat, add: int)
    requires |now| == |was| && p <= |now| && Account(b, m, now, was, p, 0, add)
    ensures Value(b, now[p..]) == m * Value(b, was[p..]) + add
  {
    ValueCons(b, 0, now[p..]);
  }

  /** A carry out of the first digit would make the result too large for the buffer. */
  lemma CarryFits(b: nat, m: int, now: seq<int>, was: seq<int>, carry: int, add: int)
    requires b > 0 && |now| == |was| && Digits(b, now) && Account(b, m, now, was, 0, carry, add)
    requires m * Value(b, was) + add < Pow(b, |was|) && carry >= 0
    ensures carry == 0
  {
    assert now[0..] == now && was[0..] == was;
    ValueCons(b, carry, now);
    ValueBound(b, now);
    if carry > 0 {
      MulMonotonic(Pow(b, |now|), 1, carry);
    }
  }

  /** One digit of base 58: multiply by 256 and add the carry. */
  method StepDigit(bn: array<int>, p: nat, carryIn: int, ghost was: seq<int>, ghost byte: int) returns (carry: int)
    requires p < bn.Length == |was| && 0 <= bn[p] == was[p] < 58 && 0 <= carryIn < 256
    requires Account(58, 256, bn[..], was, p + 1, carryIn, byte)
    modifies bn
    ensures 0 <= carry < 256 && 0 <= bn[p] < 58
    ensures Account(58, 256, bn[..], was, p, carry, byte)
    ensures forall k :: 0 <= k < bn.Length && k != p ==> bn[k] == old(bn[k])
  {
    ghost var now := bn[..];
    carry := bn[p] * 256 + carryIn;
    bn[p] := carry % 58;
    carry := carry / 58;
    assert bn[..] == now[p := bn[p]];
    AccountStep(58, 256, now, was, p, bn[p], carryIn, carry, byte);
  }

  /** Lines 222-223: a carry out of the top digit makes room for one more. */
  method GrowByZero(bn: array<int>, top: nat, carry: int, ghost was: seq<int>, ghost byte: int) returns (newTop: nat)
    requires top < bn.Length == |was| && Digits(58, bn[top..]) && carry > 0
    requires Account(58, 256, bn[..], was, top, carry, byte)
    requires 256 * Value(58, was) + byte < Pow(58, |was|)
    modifies bn
    ensures newTop + 1 == top && bn[newTop] == 0
    ensures forall k :: 0 <= k < bn.Length && k != newTop ==> bn[k] == old(bn[k])
    ensures Digits(58, bn[newTop..]) && Account(58, 256, bn[..], was, top, carry, byte)
  {
    if top == 0 {
      assert bn[0..] == bn[..];
      CarryFits(58, 256, bn[..], was, carry, byte);
    }
    ghost var now := bn[..];
    newTop := top - 1;
    bn[newTop] := 0;
    assert bn[top..] == now[top..];
    AccountChanges(58, 256, now, bn[..], was, top, carry, byte);
    assert bn[newTop..] == [0] + bn[top..];
  }

  /** The carry loop stands before digit `p`, with `top` the first digit in use. */
  ghost predicate Carrying(now: seq<int>, was: seq<int>, top: nat, p: nat, carry: int, byte: int) {
    && top <= p <= |was| == |now| && top < |was| && (p > top || carry == 0) && 0 <= carry < 256
    && Digits(58, now[top..]) && Account(58, 256, now, was, p, carry, byte)
    && (forall k :: top <= k < p ==> now[k] == was[k])
    && (forall k :: 0 <= k < top ==> was[k] == 0)
  }

  /** Lines 219-223: one digit, and a new top if a carry leaves it. */
  method CarryOne(bn: array<int>, top: nat, p: nat, carryIn: int, ghost byte: int, ghost was: seq<int>)
    returns (newTop: nat, carry: int)
    requires p > top && Carrying(bn[..], was, top, p, carryIn, byte)
    requires 256 * Value(58, was) + byte < Pow(58, |was|)
    modifies bn
    ensures newTop <= top && Carrying(bn[..], was, newTop, p - 1, carry, byte)
  {
    newTop := top;
    carry := StepDigit(bn, p - 1, carryIn, was, byte);
    if carry > 0 && p - 1 == top {
      newTop := GrowByZero(bn, top, carry, was, byte);
    }
  }

  /** Lines 218-224: the carry runs from the last digit to the top, which moves on as needed. */
  method CarryThrough(bn: array<int>, top: nat, byte: Byte, ghost was: seq<int>) returns (newTop: nat)
    requires Carrying(bn[..], was, top, bn.Length, byte, byte)
    requires 256 * Value(58, was) + byte < Pow(58, |was|)
    modifies bn
    ensures newTop <= top && Carrying(bn[..], was, newTop, newTop, 0, byte)
  {
    newTop := top;
    var carry: int := byte;
    var p: nat := bn.Length;
    while p > newTop
      invariant newTop <= top && Carrying(bn[..], was, newTop, p, carry, byte)
      decreases p
    {
      newTop, carry := CarryOne(bn, newTop, p, carry, byte, was);
      p := p - 1;
    }
  }

  /** Lines 217-224: base-58 digits times 256 plus a byte. The buffer is large
      enough for the result, so the top never passes its start. */
  method MultiplyInByte(bn: array<int>, top: nat, byte: Byte) returns (newTop: nat)
    requires top < bn.Length && Digits(58, bn[top..])
    requires 256 * Value(58, bn[top..]) + byte < Pow(58, bn.Length)
    modifies bn
    ensures newTop <= top && Digits(58, bn[newTop..])
    ensures Value(58, bn[newTop..]) == 256 * old(Value(58, bn[top..])) + byte
  {
    ghost var was := Zeros(top) + bn[top..];
    ValueLeadingZeros(58, top, bn[top..]);
    AccountInitially(58, 256, was, byte);
    AccountChanges(58, 256, was, bn[..], was, bn.Length, byte, byte);
    newTop := CarryThrough(bn, top, byte, was);
    AccountSettled(58, 256, bn[..], was, newTop, byte);
    assert was == Zeros(newTop) + was[newTop..];
    ValueLeadingZeros(58, newTop, was[newTop..]);
  }

  /** One word: multiply by 58 and add the carry, which stays below 58. */
  method StepWord(bn: array<int>, p: nat, carryIn: int, ghost was: seq<int>, ghost digit: int) returns (carry: int)
    requires p < bn.Length == |was| && 0 <= bn[p] == was[p] < TWO_32 && 0 <= carryIn < 58
    requires Account(TWO_32, 58, bn[..], was, p + 1, carryIn, digit)
    modifies bn
    ensures 0 <= carry < 58 && 0 <= bn[p] < TWO_32
    ensures Account(TWO_32, 58, bn[..], was, p, carry, digit)
    ensures forall k :: 0 <= k < bn.Length && k != p ==> bn[k] == old(bn[k])
  {
    ghost var now := bn[..];
    var mult := bn[p] * 58 + carryIn;
    bn[p] := mult % TWO_32;
    assert 0 <= mult / TWO_32 < 58;
    carry := mult / TWO_32 % 256;
    assert bn[..] == now[p := bn[p]];
    AccountStep(TWO_32, 58, now, was, p, bn[p], carryIn, carry, digit);
  }

  /** Lines 119-121: the carry out of the top word becomes the new top word. */
  method GrowTop(bn: array<int>, top: nat, byte: int, ghost was: seq<int>, ghost digit: int) returns (newTop: nat)
    requires top < bn.Length == |was| && Digits(TWO_32, bn[top..]) && 0 < byte < 58
    requires Account(TWO_32, 58, bn[..], was, top, byte, digit)
    requires 58 * Value(TWO_32, was[top..]) + digit < Pow(TWO_32, |was|)
    modifies bn
    ensures newTop <= top && Digits(TWO_32, bn[newTop..])
    ensures Value(TWO_32, bn[newTop..]) == 58 * Value(TWO_32, was[top..]) + digit
  {
    if top == 0 {
      assert bn[0..] == bn[..] && was[0..] == was;
      CarryFits(TWO_32, 58, bn[..], was, byte, digit);
    }
    ghost var digits := bn[top..];
    newTop := top - 1;
    bn[newTop] := byte;
    assert bn[newTop..] == [byte] + digits;
  }

  /** Lines 115-123: 32-bit words times 58 plus a digit. Here a carry out of the top
      word becomes the new top at once. */
  method MultiplyInDigit(bn: array<int>, top: nat, digit: nat) returns (newTop: nat)
    requires top < bn.Length && Digits(TWO_32, bn[top..]) && digit < 58
    requires 58 * Value(TWO_32, bn[top..]) + digit < Pow(TWO_32, bn.Length)
    modifies bn
    ensures newTop <= top && Digits(TWO_32, bn[newTop..])
    ensures Value(TWO_32, bn[newTop..]) == 58 * old(Value(TWO_32, bn[top..])) + digit
  {
    ghost var was := bn[..];
    newTop := top;
    var byte: int := digit;
    var p := bn.Length;
    AccountInitially(TWO_32, 58, was, digit);
    while p > top
      invariant top <= p <= bn.Length && (p == top ==> byte == 0)
      invariant 0 <= byte < 58 && Digits(TWO_32, bn[top..])
      invariant forall k :: top <= k < p ==> bn[k] == was[k]
      invariant Account(TWO_32, 58, bn[..], was, p, byte, digit)
    {
      p := p - 1;
      byte := StepWord(bn, p, byte, was, digit);
      if byte > 0 && p == top {
        newTop := GrowTop(bn, top, byte, was, digit);
        return;
      }
    }
    AccountSettled(TWO_32, 58, bn[..], was, top, digit);
  }
}
