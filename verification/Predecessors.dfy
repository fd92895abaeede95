/** Predecessor lists of basic blocks, made from the successor lists by counting, allocating and filling. */
module Predecessors {

  /** The successors of each block, as its terminator lists them. */
  type Succs = seq<seq<nat>>

  ghost predicate ValidSuccs(succs: Succs) {
    forall n, m :: 0 <= n < |succs| && 0 <= m < |succs[n]| ==> succs[n][m] < |succs|
  }

  /** Block `n`, once for each time `b` is among the first `m` successors in `list`. */
  ghost function Part(list: seq<nat>, n: nat, m: nat, b: nat): seq<nat>
    requires m <= |list|
  {
    if m == 0 then [] else Part(list, n, m - 1, b) + if list[m - 1] == b then [n] else []
  }

  /** The predecessors of `b` among the first `n` blocks. */
  ghost function Preds(succs: Succs, n: nat, b: nat): seq<nat>
    requires n <= |succs|
  {
    if n == 0 then [] else Preds(succs, n - 1, b) + Part(succs[n - 1], n - 1, |succs[n - 1]|, b)
  }

  /** The predecessors of `b` met before successor `m` of block `n`. */
  ghost function Met(succs: Succs, n: nat, m: nat, b: nat): seq<nat>
    requires n < |succs| && m <= |succs[n]|
  {
    Preds(succs, n, b) + Part(succs[n], n, m, b)
  }

  lemma MetNext(succs: Succs, n: nat, m: nat, b: nat)
    requires n < |succs| && m < |succs[n]|
    ensures Met(succs, n, m + 1, b) == Met(succs, n, m, b) + if succs[n][m] == b then [n] else []
  {
  }

  lemma MetBlock(succs: Succs, n: nat, b: nat)
    requires n < |succs|
    ensures Met(succs, n, 0, b) == Preds(succs, n, b)
    ensures Met(succs, n, |succs[n]|, b) == Preds(succs, n + 1, b)
  {
  }

  lemma {:induction false} PartGrows(list: seq<nat>, n: nat, m: nat, k: nat, b: nat)
    requires m <= k <= |list|
    ensures |Part(list, n, m, b)| <= |Part(list, n, k, b)|
  {
    if m < k {
      PartGrows(list, n, m, k - 1, b);
    }
  }

  lemma {:induction false} PredsGrow(succs: Succs, n: nat, k: nat, b: nat)
    requires n <= k <= |succs|
    ensures |Preds(succs, n, b)| <= |Preds(succs, k, b)|
  {
    if n < k {
      PredsGrow(succs, n, k - 1, b);
    }
  }

  /** There is room for every predecessor in the array of the counted size. */
  lemma RoomForNext(succs: Succs, n: nat, m: nat)
    requires n < |succs| && m < |succs[n]|
    ensures |Met(succs, n, m, succs[n][m])| < |Preds(succs, |succs|, succs[n][m])|
  {
    var b := succs[n][m];
    MetNext(succs, n, m, b);
    PartGrows(succs[n], n, m + 1, |succs[n]|, b);
    PredsGrow(succs, n + 1, |succs|, b);
  }

  /** How often `x` occurs in `s`. */
  ghost function Times(s: seq<nat>, x: nat): nat {
    if s == [] then 0 else Times(s[..|s| - 1], x) + if s[|s| - 1] == x then 1 else 0
  }

  lemma {:induction false} TimesOfConcat(s: seq<nat>, t: seq<nat>, x: nat)
    ensures Times(s + t, x) == Times(s, x) + Times(t, x)
  {
    if t == [] {
      assert s + t == s;
    } else {
      assert (s + t)[..|s + t| - 1] == s + t[..|t| - 1];
      TimesOfConcat(s, t[..|t| - 1], x);
    }
  }

  lemma {:induction false} TimesIffIn(s: seq<nat>, x: nat)
    ensures x in s <==> 0 < Times(s, x)
  {
    if s != [] {
      TimesIffIn(s[..|s| - 1], x);
      assert s == s[..|s| - 1] + [s[|s| - 1]];
    }
  }

  lemma {:induction false} PartCount(list: seq<nat>, n: nat, m: nat, b: nat, a: nat)
    requires m <= |list|
    ensures Times(Part(list, n, m, b), a) == if a == n then Times(list[..m], b) else 0
  {
    if m > 0 {
      PartCount(list, n, m - 1, b, a);
      assert list[..m][..m - 1] == list[..m - 1];
      TimesOfConcat(Part(list, n, m - 1, b), if list[m - 1] == b then [n] else [], a);
      assert Times([n], a) == (if n == a then 1 else 0) by {
        assert [n][..0] == [];
      }
    }
  }

  /** The predecessor lists are the successor lists transposed: `a` is listed for `b` as often as `b` for `a`. */
  lemma {:induction false} PredsTranspose(succs: Succs, n: nat, b: nat, a: nat)
    requires n <= |succs|
    ensures Times(Preds(succs, n, b), a) == if a < n then Times(succs[a], b) else 0
  {
    hide Part, Times;
    if n > 0 {
      PredsTranspose(succs, n - 1, b, a);
      var list := succs[n - 1];
      PartCount(list, n - 1, |list|, b, a);
      assert list[..|list|] == list;
      TimesOfConcat(Preds(succs, n - 1, b), Part(list, n - 1, |list|, b), a);
    } else {
      NoTimes(a);
    }
  }

  lemma NoTimes(a: nat)
    ensures Times([], a) == 0
  {
  }

  lemma {:induction false} PartIsOne(list: seq<nat>, n: nat, m: nat, b: nat)
    requires m <= |list|
    ensures forall i :: 0 <= i < |Part(list, n, m, b)| ==> Part(list, n, m, b)[i] == n
  {
    if 0 < m {
      PartIsOne(list, n, m - 1, b);
    }
  }

  /** And they are in block order. */
  lemma {:induction false} PredsInOrder(succs: Succs, n: nat, b: nat)
    requires n <= |succs|
    ensures forall i :: 0 <= i < |Preds(succs, n, b)| ==> Preds(succs, n, b)[i] < n
    ensures forall i, j :: 0 <= i < j < |Preds(succs, n, b)| ==> Preds(succs, n, b)[i] <= Preds(succs, n, b)[j]
  {
    hide Part;
    if 0 < n {
      PredsInOrder(succs, n - 1, b);
      PartIsOne(succs[n - 1], n - 1, |succs[n - 1]|, b);
    }
  }

  ghost predicate Transposed(preds: seq<seq<nat>>, succs: Succs) {
    |preds| == |succs| && forall a: nat, b: nat :: b < |succs| ==> (a in preds[b] <==> a < |succs| && b in succs[a])
  }

  lemma PredsAreTransposed(preds: seq<seq<nat>>, succs: Succs)
    requires |preds| == |succs| && forall b: nat :: b < |succs| ==> preds[b] == Preds(succs, |succs|, b)
    ensures Transposed(preds, succs)
  {
    forall a: nat, b: nat | b < |succs|
      ensures a in preds[b] <==> a < |succs| && b in succs[a]
    {
      PredsTranspose(succs, |succs|, b, a);
      TimesIffIn(preds[b], a);
      if a < |succs| {
        TimesIffIn(succs[a], b);
      }
    }
  }

  class PredPass {
    const succs: Succs
    var num: seq<nat>
    var preds: seq<seq<nat>>

    constructor (succs: Succs)
      ensures this.succs == succs && |num| == |preds| == |succs|
      ensures forall b :: 0 <= b < |succs| ==> num[b] == 0
    {
      this.succs := succs;
      num := seq(|succs|, _ => 0);
      preds := seq(|succs|, _ => []);
    }

    method CountOne(n: nat, m: nat)
      requires ValidSuccs(succs) && |num| == |succs| && n < |succs| && m < |succs[n]|
      requires forall b: nat :: b < |succs| ==> num[b] == |Met(succs, n, m, b)|
      modifies `num
      ensures |num| == |succs| && forall b: nat :: b < |succs| ==> num[b] == |Met(succs, n, m + 1, b)|
    {
      var b := succs[n][m];
      num := num[b := num[b] + 1];
      forall c: nat | c < |succs|
        ensures num[c] == |Met(succs, n, m + 1, c)|
      {
        MetNext(succs, n, m, c);
      }
    }

    method Count()
      requires ValidSuccs(succs) && |num| == |succs| && forall b: nat :: b < |succs| ==> num[b] == 0
      modifies `num
      ensures |num| == |succs| && forall b: nat :: b < |succs| ==> num[b] == |Preds(succs, |succs|, b)|
    {
      hide Part;
      for n := 0 to |succs|
        invariant |num| == |succs| && forall b: nat :: b < |succs| ==> num[b] == |Preds(succs, n, b)|
      {
        forall b: nat | b < |succs|
          ensures Met(succs, n, 0, b) == Preds(succs, n, b) && Met(succs, n, |succs[n]|, b) == Preds(succs, n + 1, b)
        {
          MetBlock(succs, n, b);
        }
        for m := 0 to |succs[n]|
          invariant |num| == |succs| && forall b: nat :: b < |succs| ==> num[b] == |Met(succs, n, m, b)|
        {
          CountOne(n, m);
        }
      }
    }

    /** Gives every block an array of its counted size and resets the counts to fill cursors. */
    method Allocate()
      requires |succs| == |num|
      modifies `num, `preds
      ensures |num| == |preds| == |succs|
      ensures forall b: nat :: b < |succs| ==> |preds[b]| == old(num[b]) && num[b] == 0
    {
      preds := seq(|succs|, b requires 0 <= b < |num| reads this => seq(num[b], _ => 0));
      num := seq(|succs|, _ => 0);
    }

    ghost predicate Sized()
      reads this
    {
      |num| == |preds| == |succs| && forall b: nat :: b < |succs| ==> |preds[b]| == |Preds(succs, |succs|, b)|
    }

    method FillOne(n: nat, m: nat)
      requires ValidSuccs(succs) && Sized() && n < |succs| && m < |succs[n]|
      requires forall b: nat :: b < |succs| ==> num[b] <= |preds[b]| && preds[b][..num[b]] == Met(succs, n, m, b)
      modifies `num, `preds
      ensures Sized()
      ensures forall b: nat :: b < |succs| ==> num[b] <= |preds[b]| && preds[b][..num[b]] == Met(succs, n, m + 1, b)
    {
      hide Met, Preds;
      var b := succs[n][m];
      var i := num[b];
      RoomForNext(succs, n, m);
      assert |preds[b][..i]| == i < |preds[b]|;
      var list: seq<nat> := preds[b];
      list := list[i := n];
      preds := preds[b := list];
      num := num[b := i + 1];
      forall c: nat | c < |succs|
        ensures num[c] <= |preds[c]| && preds[c][..num[c]] == Met(succs, n, m + 1, c)
      {
        MetNext(succs, n, m, c);
      }
    }

    method FillBlock(n: nat)
      requires ValidSuccs(succs) && Sized() && n < |succs|
      requires forall b: nat :: b < |succs| ==> num[b] <= |preds[b]| && preds[b][..num[b]] == Preds(succs, n, b)
      modifies `num, `preds
      ensures Sized()
      ensures forall b: nat :: b < |succs| ==> num[b] <= |preds[b]| && preds[b][..num[b]] == Preds(succs, n + 1, b)
    {
      hide Met, Preds;
      forall b: nat | b < |succs|
        ensures Met(succs, n, 0, b) == Preds(succs, n, b) && Met(succs, n, |succs[n]|, b) == Preds(succs, n + 1, b)
      {
        MetBlock(succs, n, b);
      }
      for m := 0 to |succs[n]|
        invariant Sized()
        invariant forall b: nat :: b < |succs| ==> num[b] <= |preds[b]| && preds[b][..num[b]] == Met(succs, n, m, b)
      {
        FillOne(n, m);
      }
    }

    /** pn_function_calculate_pred_bbs */
    method CalculatePredBbs()
      requires ValidSuccs(succs) && |num| == |succs| && forall b: nat :: b < |succs| ==> num[b] == 0
      modifies `num, `preds
      ensures |num| == |preds| == |succs|
      ensures forall b: nat :: b < |succs| ==> preds[b] == Preds(succs, |succs|, b) && num[b] == |preds[b]|
      ensures Transposed(preds, succs)
    {
      Count();
      Allocate();
      forall b: nat | b < |succs|
        ensures Preds(succs, 0, b) == []
      {
      }
      for n := 0 to |succs|
        invariant Sized()
        invariant forall b: nat :: b < |succs| ==> num[b] <= |preds[b]| && preds[b][..num[b]] == Preds(succs, n, b)
      {
        FillBlock(n);
      }
      forall b: nat | b < |succs|
        ensures preds[b] == Preds(succs, |succs|, b) && num[b] == |preds[b]|
      {
        assert |preds[b][..num[b]]| == num[b];
        assert preds[b][..|preds[b]|] == preds[b];
      }
      PredsAreTransposed(preds, succs);
    }
  }
}
