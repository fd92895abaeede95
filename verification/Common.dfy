/** Small definitions that several parts of the model share. */
module Common {

  datatype Option<+T> = None | Some(value: T)

  const UINT32_MAX: nat := 0xffff_ffff

  /** The id of no basic block. */
  const INVALID_BB_ID: nat := 0xffff

  function Max(a: nat, b: nat): nat {
    if a < b then b else a
  }

  function Min(a: nat, b: nat): nat {
    if a < b then a else b
  }

  /** The first multiple of `align` from `x` on. */
  function AlignUp(x: nat, align: nat): nat
    requires 0 < align
  {
    (x + align - 1) / align * align
  }

  /** The last multiple of `align` up to `x`. */
  function AlignDown(x: nat, align: nat): (r: nat)
    requires 0 < align
    ensures r <= x
  {
    x - x % align
  }

  lemma {:induction false} MultiplesApart(k: nat, m: nat, align: nat)
    requires k < m
    ensures k * align + align <= m * align
  {
    assert m * align == (m - 1) * align + align;
    if k < m - 1 {
      MultiplesApart(k, m - 1, align);
    }
  }

  lemma MultipleDivides(k: nat, align: nat)
    requires 0 < align
    ensures (k * align) % align == 0
  {
    var x := k * align;
    var q := x / align;
    assert x == q * align + x % align;
    if k < q {
      MultiplesApart(k, q, align);
    } else if q < k {
      MultiplesApart(q, k, align);
    }
  }

  /** Both are multiples. */
  lemma AlignIs(x: nat, align: nat)
    requires 0 < align
    ensures AlignDown(x, align) <= x < AlignDown(x, align) + align && AlignDown(x, align) % align == 0
    ensures x <= AlignUp(x, align) < x + align && AlignUp(x, align) % align == 0
  {
    var n := x + align - 1;
    assert n == n / align * align + n % align;
    assert x == x / align * align + x % align;
    MultipleDivides(x / align, align);
    MultipleDivides(n / align, align);
  }
}
