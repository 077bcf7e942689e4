/** Status codes, machine widths and powers shared by every modelled source file. */
module Common {

  /** The library's return codes; out-of-memory is not modelled. */
  datatype Status = Ok | Invalid | Error

  datatype Option<+T> = None | Some(value: T)

  type Byte = b: int | 0 <= b < 256
  type Bytes = seq<Byte>

  function Zeros(n: nat): (s: Bytes)
    ensures |s| == n && forall i :: 0 <= i < n ==> s[i] == 0
  {
    seq(n, _ => 0)
  }

  type Bytes4 = b: Bytes | |b| == 4 witness Zeros(4)
  type Bytes20 = b: Bytes | |b| == 20 witness Zeros(20)
  type Bytes32 = b: Bytes | |b| == 32 witness Zeros(32)
  type Bytes33 = b: Bytes | |b| == 33 witness Zeros(33)
  type Bytes64 = b: Bytes | |b| == 64 witness Zeros(64)

  /** `BIP32_INITIAL_HARDENED_CHILD` and `BIP32_PATH_MAX_LEN`. */
  const HARDENED: nat := 0x8000_0000
  const MAX_PATH: nat := 255

  const TWO_32: nat := 0x1_0000_0000
  const TWO_64: nat := 0x1_0000_0000_0000_0000

  /** `uint32_t` arithmetic: the mathematical result reduced modulo 2^32. */
  function Wrap32(x: int): (r: nat)
    ensures r < TWO_32
    ensures 0 <= x < TWO_32 ==> r == x
  {
    x % TWO_32
  }

  /** `uint64_t` arithmetic: the mathematical result reduced modulo 2^64. */
  function Wrap64(x: int): (r: nat)
    ensures r < TWO_64
    ensures 0 <= x < TWO_64 ==> r == x
  {
    x % TWO_64
  }

  function Pow(b: nat, e: nat): (p: nat)
    ensures b >= 1 ==> p >= 1
  {
    if e == 0 then 1 else b * Pow(b, e - 1)
  }

  lemma MulAssociative(a: int, b: int, c: int)
    ensures a * (b * c) == (a * b) * c
  {
  }

  lemma {:induction false} PowAdd(b: nat, e: nat, f: nat)
    ensures Pow(b, e + f) == Pow(b, e) * Pow(b, f)
  {
    if e > 0 {
      PowAdd(b, e - 1, f);
      MulAssociative(b, Pow(b, e - 1), Pow(b, f));
      assert Pow(b, e + f) == b * Pow(b, (e - 1) + f);
    }
  }

  lemma FourBytes()
    ensures Pow(256, 4) == TWO_32
  {
    PowAdd(256, 2, 2);
    assert Pow(256, 2) == 65536;
  }

  lemma MulMonotonic(a: nat, b: nat, c: nat)
    requires b <= c
    ensures a * b <= a * c
  {
  }

  lemma {:induction false} PowMonotonic(b: nat, e: nat, f: nat)
    requires b >= 1 && e <= f
    ensures Pow(b, e) <= Pow(b, f)
  {
    PowAdd(b, e, f - e);
    MulMonotonic(Pow(b, e), 1, Pow(b, f - e));
  }
}
