/** Bits and the numbers they spell, least significant bit first. */
module Bits {

  type BitSeq = seq<bool>

  function Pow2(n: nat): (r: nat)
    ensures r > 0
  {
    if n == 0 then 1 else 2 * Pow2(n - 1)
  }

  function ToNat(b: BitSeq): nat {
    if b == [] then 0 else (if b[0] then 1 else 0) + 2 * ToNat(b[1..])
  }

  /** The low `n` bits of `v`. */
  function FromNat(v: nat, n: nat): (b: BitSeq)
    ensures |b| == n
  {
    if n == 0 then [] else [v % 2 == 1] + FromNat(v / 2, n - 1)
  }

  /** `v & ((1 << n) - 1)` */
  function Mask(v: nat, n: nat): nat {
    if n == 0 then 0 else v % 2 + 2 * Mask(v / 2, n - 1)
  }

  /** `v >> n` */
  function ShiftRight(v: nat, n: nat): nat {
    if n == 0 then v else ShiftRight(v / 2, n - 1)
  }

  /** `v << n`, before truncation to the width of the result */
  function ShiftLeft(v: nat, n: nat): nat {
    if n == 0 then v else 2 * ShiftLeft(v, n - 1)
  }

  /** `lo | (hi << k)` for a `lo` that fits in `k` bits, so that no bit of one meets the other */
  function OrAbove(lo: nat, hi: nat, k: nat): nat
    requires lo < Pow2(k)
  {
    lo + ShiftLeft(hi, k)
  }

  /** `(v & (1 << k)) != 0` */
  function TestBit(v: nat, k: nat): bool {
    ShiftRight(v, k) % 2 == 1
  }

  lemma {:induction false} ToNatBound(b: BitSeq)
    ensures ToNat(b) < Pow2(|b|)
    decreases |b|
  {
    if b != [] {
      ToNatBound(b[1..]);
    }
  }

  lemma {:induction false} PowMonotone(m: nat, n: nat)
    requires m <= n
    ensures Pow2(m) <= Pow2(n)
    decreases n
  {
    if m < n {
      PowMonotone(m, n - 1);
    }
  }

  /** Spelling out and reading back loses nothing that fits. */
  lemma {:induction false} ToFrom(v: nat, n: nat)
    requires v < Pow2(n)
    ensures ToNat(FromNat(v, n)) == v
    decreases n
  {
    if n > 0 {
      ToFrom(v / 2, n - 1);
      assert FromNat(v, n)[1..] == FromNat(v / 2, n - 1);
    }
  }

  lemma {:induction false} FromTo(b: BitSeq)
    ensures FromNat(ToNat(b), |b|) == b
    decreases |b|
  {
    if b != [] {
      FromTo(b[1..]);
    }
  }

  /** Bit strings of one length are told apart by their numbers. */
  lemma ToNatInjective(a: BitSeq, b: BitSeq)
    requires |a| == |b| && ToNat(a) == ToNat(b)
    ensures a == b
  {
    FromTo(a);
    FromTo(b);
  }

  lemma {:induction false} ToNatConcat(a: BitSeq, b: BitSeq)
    ensures ToNat(a + b) == ToNat(a) + ShiftLeft(ToNat(b), |a|)
    decreases |a|
  {
    if a == [] {
      assert a + b == b;
    } else {
      ToNatConcat(a[1..], b);
      assert (a + b)[1..] == a[1..] + b;
    }
  }

  lemma OrAboveConcat(a: BitSeq, b: BitSeq)
    ensures ToNat(a) < Pow2(|a|) && OrAbove(ToNat(a), ToNat(b), |a|) == ToNat(a + b)
  {
    ToNatBound(a);
    ToNatConcat(a, b);
  }

  /** Masking takes the low bits and shifting drops them. */
  lemma {:induction false} MaskAndShift(b: BitSeq, n: nat)
    requires n <= |b|
    ensures Mask(ToNat(b), n) == ToNat(b[..n])
    ensures ShiftRight(ToNat(b), n) == ToNat(b[n..])
    decreases n
  {
    if n > 0 {
      MaskAndShift(b[1..], n - 1);
      assert ToNat(b) / 2 == ToNat(b[1..]);
      assert b[..n][1..] == b[1..][..n - 1];
      assert b[n..] == b[1..][n - 1..];
    } else {
      assert b[n..] == b;
    }
  }

  lemma {:induction false} MaskSmall(v: nat, n: nat)
    ensures Mask(v, n) < Pow2(n)
    ensures v < Pow2(n) ==> Mask(v, n) == v && ShiftRight(v, n) == 0
    decreases n
  {
    if n > 0 {
      MaskSmall(v / 2, n - 1);
    }
  }

  lemma {:induction false} ShiftSmaller(v: nat, n: nat)
    ensures ShiftRight(v, n) <= v
    decreases n
  {
    if n > 0 {
      ShiftSmaller(v / 2, n - 1);
    }
  }

  /** The top bit of a `w`-bit number and the bits below it. */
  lemma {:induction false} TopBit(v: nat, w: nat)
    requires w >= 1 && v < Pow2(w)
    ensures v == Mask(v, w - 1) + if TestBit(v, w - 1) then Pow2(w - 1) else 0
    decreases w
  {
    if w > 1 {
      TopBit(v / 2, w - 1);
    }
  }

  lemma {:induction false} ShiftTwice(v: nat, m: nat, n: nat)
    ensures ShiftLeft(ShiftLeft(v, m), n) == ShiftLeft(v, n + m)
    decreases n
  {
    if n > 0 {
      ShiftTwice(v, m, n - 1);
    }
  }

  lemma {:induction false} ShiftSum(a: nat, b: nat, n: nat)
    ensures ShiftLeft(a + b, n) == ShiftLeft(a, n) + ShiftLeft(b, n)
    decreases n
  {
    if n > 0 {
      ShiftSum(a, b, n - 1);
    }
  }

  /** A number of `m` bits above one of `k` bits is a number of `k + m` bits. */
  lemma {:induction false} ShiftBound(lo: nat, hi: nat, k: nat, m: nat)
    requires lo < Pow2(k) && hi < Pow2(m)
    ensures lo + ShiftLeft(hi, k) < Pow2(k + m)
    decreases k
  {
    if k > 0 {
      ShiftBound(lo / 2, hi, k - 1, m);
    }
  }

  lemma Pow2Word()
    ensures Pow2(0) == 1 && Pow2(8) == 0x100
    ensures Pow2(32) == 0x1_0000_0000 && Pow2(64) == 0x1_0000_0000_0000_0000
  {
    assert Pow2(8) == 0x100;
    assert Pow2(16) == 0x1_0000;
    assert Pow2(24) == 0x100_0000;
    assert Pow2(32) == 0x1_0000_0000;
    assert Pow2(40) == 0x100_0000_0000;
    assert Pow2(48) == 0x1_0000_0000_0000;
    assert Pow2(56) == 0x100_0000_0000_0000;
  }

  lemma ShiftByte(v: nat)
    ensures ShiftLeft(v, 8) == 0x100 * v
  {
    assert ShiftLeft(v, 1) == 2 * v;
    assert ShiftLeft(v, 3) == 8 * v;
    assert ShiftLeft(v, 5) == 32 * v;
    assert ShiftLeft(v, 7) == 128 * v;
  }

  lemma {:induction false} ShiftRightTwice(v: nat, m: nat, n: nat)
    ensures ShiftRight(v, m + n) == ShiftRight(ShiftRight(v, m), n)
    decreases m
  {
    if m > 0 {
      ShiftRightTwice(v / 2, m - 1, n);
    }
  }

  lemma ShiftRightNext(v: nat, n: nat)
    ensures ShiftRight(v, n + 1) == ShiftRight(v, n) / 2 && ShiftRight(v, 0) == v
  {
    ShiftRightTwice(v, n, 1);
    var u := ShiftRight(v, n);
    assert ShiftRight(u, 1) == ShiftRight(u / 2, 0);
  }

  lemma ShiftRightByte(v: nat)
    ensures ShiftRight(v, 8) == v / 0x100 && ShiftRight(v, 7) == v / 0x80
  {
    hide ShiftRight;
    ShiftRightNext(v, 0);
    ShiftRightNext(v, 1);
    ShiftRightNext(v, 2);
    ShiftRightNext(v, 3);
    ShiftRightNext(v, 4);
    ShiftRightNext(v, 5);
    ShiftRightNext(v, 6);
    ShiftRightNext(v, 7);
  }

  /** In words: shifting divides and masking takes the remainder. */
  lemma WordShifts(v: nat)
    ensures ShiftRight(v, 31) == v / 0x8000_0000 && ShiftRight(v, 32) == v / 0x1_0000_0000
  {
    var a, b, c := v / 0x100, v / 0x1_0000, v / 0x100_0000;
    assert a / 0x100 == b && b / 0x100 == c && c / 0x100 == v / 0x1_0000_0000 && c / 0x80 == v / 0x8000_0000;
    ShiftRightByte(v);
    ShiftRightByte(a);
    ShiftRightByte(b);
    ShiftRightByte(c);
    hide ShiftRight;
    ShiftRightTwice(v, 8, 24);
    ShiftRightTwice(a, 8, 16);
    ShiftRightTwice(b, 8, 8);
    ShiftRightTwice(v, 8, 23);
    ShiftRightTwice(a, 8, 15);
    ShiftRightTwice(b, 8, 7);
  }

  /** The bits of a number. */
  lemma {:induction false} BitOf(v: nat, n: nat, k: nat)
    requires k < n
    ensures FromNat(v, n)[k] == TestBit(v, k)
    decreases k
  {
    if k > 0 {
      BitOf(v / 2, n - 1, k - 1);
    }
  }

  lemma {:induction false} SplitAt(v: nat, n: nat)
    ensures v == Mask(v, n) + ShiftLeft(ShiftRight(v, n), n)
    decreases n
  {
    if n > 0 {
      SplitAt(v / 2, n - 1);
    }
  }

  lemma {:induction false} SetTopBit(m: nat, n: nat)
    requires m < Pow2(n)
    ensures m + Pow2(n) < Pow2(n + 1) && TestBit(m + Pow2(n), n) && Mask(m + Pow2(n), n) == m
    decreases n
  {
    if n > 0 {
      SetTopBit(m / 2, n - 1);
      assert (m + Pow2(n)) / 2 == m / 2 + Pow2(n - 1);
    }
  }

  lemma {:induction false} ShiftLower(v: nat, n: nat, m: nat)
    requires ShiftRight(v, n) >= Pow2(m)
    ensures v >= Pow2(m + n)
    decreases n
  {
    if n > 0 {
      ShiftLower(v / 2, n - 1, m);
    }
  }

  lemma {:induction false} ShiftPositive(v: nat, n: nat)
    requires v >= Pow2(n)
    ensures ShiftRight(v, n) >= 1
    ensures n > 0 ==> ShiftRight(v, n) < v
    decreases n
  {
    if n > 0 {
      ShiftPositive(v / 2, n - 1);
    }
  }
}
