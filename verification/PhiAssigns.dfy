/** Phi assignments: the pass that hands every phi use to the block it comes from, the scan that
    allows a one-pass update, and what the one-pass and two-pass updates compute. */
module PhiAssigns {
  import opened Common

  /** One incoming entry of a phi: `dest` becomes `value` when control arrives from block `bb`. */
  datatype PhiUse = PhiUse(dest: nat, bb: nat, value: nat)

  /** `dest := source`, to be done when control goes on to `bb`. */
  datatype PhiAssign = PhiAssign(bb: nat, source: nat, dest: nat)

  /** `uses[n]` are the phi uses of block `n`, in order. */
  type Uses = seq<seq<PhiUse>>

  ghost predicate ValidUses(uses: Uses) {
    forall n, m :: 0 <= n < |uses| && 0 <= m < |uses[n]| ==> uses[n][m].bb < |uses|
  }

  // ----- the assignments of a block -----

  /** The uses among `us`, phi uses of block `n`, that come from block `p`. */
  ghost function AssignsTo(us: seq<PhiUse>, n: nat, p: nat): seq<PhiAssign> {
    if us == [] then []
    else
      var u := us[|us| - 1];
      AssignsTo(us[..|us| - 1], n, p) + if u.bb == p then [PhiAssign(n, u.value, u.dest)] else []
  }

  /** The uses of the first `k` blocks that come from block `p`. */
  ghost function AssignsFrom(uses: Uses, k: nat, p: nat): seq<PhiAssign>
    requires k <= |uses|
  {
    if k == 0 then [] else AssignsFrom(uses, k - 1, p) + AssignsTo(uses[k - 1], k - 1, p)
  }

  /** What is collected for `p` before use `m` of block `n` is looked at. */
  ghost function Collected(uses: Uses, n: nat, m: nat, p: nat): seq<PhiAssign>
    requires n < |uses| && m <= |uses[n]|
  {
    AssignsFrom(uses, n, p) + AssignsTo(uses[n][..m], n, p)
  }

  lemma CollectNext(uses: Uses, n: nat, m: nat, p: nat)
    requires n < |uses| && m < |uses[n]|
    ensures Collected(uses, n, m + 1, p) ==
      Collected(uses, n, m, p) +
      if uses[n][m].bb == p then [PhiAssign(n, uses[n][m].value, uses[n][m].dest)] else []
  {
    assert uses[n][..m + 1][..m] == uses[n][..m];
  }

  lemma CollectBlock(uses: Uses, n: nat, p: nat)
    requires n < |uses|
    ensures Collected(uses, n, 0, p) == AssignsFrom(uses, n, p)
    ensures Collected(uses, n, |uses[n]|, p) == AssignsFrom(uses, n + 1, p)
  {
    assert uses[n][..|uses[n]|] == uses[n];
  }

  lemma {:induction false} FromPrefix(uses: Uses, k: nat, p: nat)
    requires k <= |uses|
    ensures AssignsFrom(uses, k, p) <= AssignsFrom(uses, |uses|, p)
    decreases |uses| - k
  {
    if k < |uses| {
      FromPrefix(uses, k + 1, p);
    }
  }

  lemma {:induction false} ToPrefix(us: seq<PhiUse>, m: nat, n: nat, p: nat)
    requires m <= |us|
    ensures AssignsTo(us[..m], n, p) <= AssignsTo(us, n, p)
    decreases |us|
  {
    if m < |us| {
      assert us[..|us| - 1][..m] == us[..m];
      ToPrefix(us[..|us| - 1], m, n, p);
    } else {
      assert us[..m] == us;
    }
  }

  lemma NothingFrom(uses: Uses)
    ensures forall p :: AssignsFrom(uses, 0, p) == []
  {
  }

  /** The array sized by the first pass has room for the next assignment of the second. */
  lemma RoomToCollect(uses: Uses, n: nat, m: nat)
    requires ValidUses(uses) && n < |uses| && m < |uses[n]|
    ensures |Collected(uses, n, m, uses[n][m].bb)| < |AssignsFrom(uses, |uses|, uses[n][m].bb)|
  {
    var p := uses[n][m].bb;
    CollectNext(uses, n, m, p);
    ToPrefix(uses[n], m + 1, n, p);
    FromPrefix(uses, n + 1, p);
  }

  /** The one-pass flag: no assignment to the first listed target reads an earlier destination. */
  ghost predicate FastFlag(a: seq<PhiAssign>) {
    forall k, m :: 0 <= k < m < |a| && a[m].bb == a[0].bb ==> a[m].source != a[k].dest
  }

  /** The phi fields that the pass keeps per basic block. */
  class PhiPass {
    const uses: Uses
    var num: seq<nat>
    var assigns: seq<seq<PhiAssign>>
    var fast: seq<bool>

    constructor (uses: Uses)
      ensures this.uses == uses && |num| == |assigns| == |fast| == |uses|
      ensures forall p :: 0 <= p < |uses| ==> num[p] == 0
    {
      this.uses := uses;
      num := seq(|uses|, _ => 0);
      assigns := seq(|uses|, _ => []);
      fast := seq(|uses|, _ => false);
    }

    /** First pass: count the uses naming each block. */
    method Count()
      requires ValidUses(uses) && |uses| == |num| && forall p :: 0 <= p < |uses| ==> num[p] == 0
      modifies `num
      ensures |num| == |uses|
      ensures forall p: nat :: p < |uses| ==> num[p] == |AssignsFrom(uses, |uses|, p)|
    {
      for n := 0 to |uses|
        invariant |num| == |uses|
        invariant forall p: nat :: p < |uses| ==> num[p] == |AssignsFrom(uses, n, p)|
      {
        forall p: nat | p < |uses|
          ensures Collected(uses, n, 0, p) == AssignsFrom(uses, n, p)
          ensures Collected(uses, n, |uses[n]|, p) == AssignsFrom(uses, n + 1, p)
        {
          CollectBlock(uses, n, p);
        }
        for m := 0 to |uses[n]|
          invariant |num| == |uses|
          invariant forall p: nat :: p < |uses| ==> num[p] == |Collected(uses, n, m, p)|
        {
          CountOne(n, m);
        }
      }
    }

    /** Counts use `m` of block `n`. */
    method CountOne(n: nat, m: nat)
      requires ValidUses(uses) && |num| == |uses| && n < |uses| && m < |uses[n]|
      requires forall p: nat :: p < |uses| ==> num[p] == |Collected(uses, n, m, p)|
      modifies `num
      ensures |num| == |uses|
      ensures forall p: nat :: p < |uses| ==> num[p] == |Collected(uses, n, m + 1, p)|
    {
      var p := uses[n][m].bb;
      num := num[p := num[p] + 1];
      forall q: nat | q < |uses|
        ensures num[q] == |Collected(uses, n, m + 1, q)|
      {
        CollectNext(uses, n, m, q);
      }
    }

    /** Second pass: allocate each block's array at its counted size, and fill it. */
    method Fill()
      requires ValidUses(uses) && |uses| == |num|
      requires forall p: nat :: p < |uses| ==> num[p] == |AssignsFrom(uses, |uses|, p)|
      modifies `num, `assigns
      ensures |num| == |assigns| == |uses|
      ensures forall p: nat :: p < |uses| ==> assigns[p] == AssignsFrom(uses, |uses|, p) && num[p] == |assigns[p]|
    {
      hide Collected, AssignsFrom, ValidUses;
      Allocate();
      NothingFrom(uses);
      for n := 0 to |uses|
        invariant |num| == |assigns| == |uses|
        invariant forall p: nat :: p < |uses| ==> |assigns[p]| == |AssignsFrom(uses, |uses|, p)|
        invariant forall p: nat :: p < |uses| ==>
          num[p] <= |assigns[p]| && assigns[p][..num[p]] == AssignsFrom(uses, n, p)
      {
        FillBlock(n);
      }
      forall p: nat | p < |uses|
        ensures assigns[p] == AssignsFrom(uses, |uses|, p) && num[p] == |assigns[p]|
      {
        assert |assigns[p][..num[p]]| == num[p];
        assert assigns[p][..|assigns[p]|] == assigns[p];
      }
    }

    method FillBlock(n: nat)
      requires ValidUses(uses) && |num| == |assigns| == |uses| && n < |uses|
      requires forall p: nat :: p < |uses| ==> |assigns[p]| == |AssignsFrom(uses, |uses|, p)|
      requires forall p: nat :: p < |uses| ==> num[p] <= |assigns[p]| && assigns[p][..num[p]] == AssignsFrom(uses, n, p)
      modifies `num, `assigns
      ensures |num| == |assigns| == |uses|
      ensures forall p: nat :: p < |uses| ==> |assigns[p]| == |AssignsFrom(uses, |uses|, p)|
      ensures forall p: nat :: p < |uses| ==>
        num[p] <= |assigns[p]| && assigns[p][..num[p]] == AssignsFrom(uses, n + 1, p)
    {
      hide Collected, AssignsFrom;
      forall p: nat | p < |uses|
        ensures Collected(uses, n, 0, p) == AssignsFrom(uses, n, p)
        ensures Collected(uses, n, |uses[n]|, p) == AssignsFrom(uses, n + 1, p)
      {
        CollectBlock(uses, n, p);
      }
      for m := 0 to |uses[n]|
        invariant |num| == |assigns| == |uses|
        invariant forall p: nat :: p < |uses| ==> |assigns[p]| == |AssignsFrom(uses, |uses|, p)|
        invariant forall p: nat :: p < |uses| ==>
          num[p] <= |assigns[p]| && assigns[p][..num[p]] == Collected(uses, n, m, p)
      {
        FillOne(n, m);
      }
    }

    /** Gives every block an array of its counted size and resets the counts to fill cursors. */
    method Allocate()
      requires |uses| == |num|
      modifies `num, `assigns
      ensures |num| == |assigns| == |uses|
      ensures forall p: nat :: p < |uses| ==> |assigns[p]| == old(num[p]) && num[p] == 0
    {
      assigns := seq(|uses|, p requires 0 <= p < |num| reads this => seq(num[p], _ => PhiAssign(0, 0, 0)));
      num := seq(|uses|, _ => 0);
    }

    /** Stores use `m` of block `n` at the fill cursor of the block it comes from. */
    method FillOne(n: nat, m: nat)
      requires ValidUses(uses) && |num| == |assigns| == |uses| && n < |uses| && m < |uses[n]|
      requires forall p: nat :: p < |uses| ==> |assigns[p]| == |AssignsFrom(uses, |uses|, p)|
      requires forall p: nat :: p < |uses| ==>
        num[p] <= |assigns[p]| && assigns[p][..num[p]] == Collected(uses, n, m, p)
      modifies `num, `assigns
      ensures |num| == |assigns| == |uses|
      ensures forall p: nat :: p < |uses| ==> |assigns[p]| == |AssignsFrom(uses, |uses|, p)|
      ensures forall p: nat :: p < |uses| ==>
        num[p] <= |assigns[p]| && assigns[p][..num[p]] == Collected(uses, n, m + 1, p)
    {
      var use := uses[n][m];
      var p := use.bb;
      var i := num[p];
      RoomToCollect(uses, n, m);
      assert |assigns[p][..i]| == i < |assigns[p]|;
      assigns := assigns[p := assigns[p][i := PhiAssign(n, use.value, use.dest)]];
      num := num[p := i + 1];
      forall q: nat | q < |uses|
        ensures num[q] <= |assigns[q]| && assigns[q][..num[q]] == Collected(uses, n, m + 1, q)
      {
        CollectNext(uses, n, m, q);
        if q == p {
          assert assigns[p][..i + 1] == old(assigns)[p][..i] + [PhiAssign(n, use.value, use.dest)];
        }
      }
    }

    /** The scan that clears `fast_phi_assign`. Its `bbId` is set by the first assignment and never
        reset, so only assignments to the first listed target are looked at. */
    method ScanFlags()
      requires |num| == |assigns| == |fast| == |uses|
      requires forall p :: 0 <= p < |uses| ==> num[p] == |assigns[p]|
      requires forall p, m :: 0 <= p < |uses| && 0 <= m < |assigns[p]| ==> assigns[p][m].bb < INVALID_BB_ID
      modifies `fast
      ensures |fast| == |uses|
      ensures forall p :: 0 <= p < |uses| ==> fast[p] == FastFlag(assigns[p])
    {
      for n := 0 to |uses|
        invariant |fast| == |uses|
        invariant forall p :: 0 <= p < n ==> fast[p] == FastFlag(assigns[p])
      {
        var flag := ScanBlock(assigns[n]);
        fast := fast[n := flag];
      }
    }

    method ScanBlock(a: seq<PhiAssign>) returns (flag: bool)
      requires forall m :: 0 <= m < |a| ==> a[m].bb < INVALID_BB_ID
      ensures flag == FastFlag(a)
    {
      flag := true;
      var seen: set<nat> := {};
      var first: nat, bbId, done := 0, INVALID_BB_ID, false;
      var m: nat := 0;
      while m < |a| && !done
        invariant m <= |a| && flag == !done
        invariant if m == 0 then bbId == INVALID_BB_ID && seen == {} else bbId == a[0].bb && first == 0
        invariant done ==> !FastFlag(a)
        invariant !done ==>
          forall k, j :: 0 <= k < j < m && a[j].bb == a[0].bb ==> a[j].source != a[k].dest
      {
        if bbId == INVALID_BB_ID && a[m].bb !in seen {
          seen := seen + {a[m].bb};
          bbId := a[m].bb;
          first := m;
        } else if a[m].bb == bbId {
          var k := first;
          while k < m
            invariant first <= k <= m && flag && !done
            invariant forall j :: first <= j < k ==> a[m].source != a[j].dest
          {
            if a[m].source == a[k].dest {
              flag := false;
              done := true;
              break;
            }
            k := k + 1;
          }
        }
        m := m + 1;
      }
    }

    /** The whole pass. */
    method CalculatePhiAssigns()
      requires ValidUses(uses) && |uses| <= INVALID_BB_ID && |num| == |fast| == |uses|
      requires forall p :: 0 <= p < |uses| ==> num[p] == 0
      modifies this
      ensures |num| == |assigns| == |fast| == |uses|
      ensures forall p: nat :: p < |uses| ==>
        assigns[p] == AssignsFrom(uses, |uses|, p) && num[p] == |assigns[p]| && fast[p] == FastFlag(assigns[p])
    {
      Count();
      Fill();
      forall p: nat, m: nat | p < |uses| && m < |assigns[p]|
        ensures assigns[p][m].bb < INVALID_BB_ID
      {
        FromGrouped(uses, |uses|, p);
      }
      ScanFlags();
    }
  }

  // ----- the list of a block -----

  lemma {:induction false} ToBlock(us: seq<PhiUse>, n: nat, p: nat)
    ensures forall i :: 0 <= i < |AssignsTo(us, n, p)| ==> AssignsTo(us, n, p)[i].bb == n
    decreases |us|
  {
    if us != [] {
      ToBlock(us[..|us| - 1], n, p);
    }
  }

  /** The list is grouped by target, in increasing order. */
  lemma {:induction false} FromGrouped(uses: Uses, k: nat, p: nat)
    requires k <= |uses|
    ensures forall i :: 0 <= i < |AssignsFrom(uses, k, p)| ==> AssignsFrom(uses, k, p)[i].bb < k
    ensures forall i, j :: 0 <= i <= j < |AssignsFrom(uses, k, p)| ==>
      AssignsFrom(uses, k, p)[i].bb <= AssignsFrom(uses, k, p)[j].bb
    decreases k
  {
    if k > 0 {
      FromGrouped(uses, k - 1, p);
      ToBlock(uses[k - 1], k - 1, p);
    }
  }

  /** The members of `a` with target `g`, in order. */
  ghost function Group(a: seq<PhiAssign>, g: nat): seq<PhiAssign> {
    if a == [] then []
    else Group(a[..|a| - 1], g) + if a[|a| - 1].bb == g then [a[|a| - 1]] else []
  }

  lemma {:induction false} GroupConcat(a: seq<PhiAssign>, b: seq<PhiAssign>, g: nat)
    ensures Group(a + b, g) == Group(a, g) + Group(b, g)
    decreases |b|
  {
    if b == [] {
      assert a + b == a;
    } else {
      assert (a + b)[..|a + b| - 1] == a + b[..|b| - 1];
      GroupConcat(a, b[..|b| - 1], g);
    }
  }

  lemma {:induction false} GroupUniform(a: seq<PhiAssign>, n: nat, g: nat)
    requires forall i :: 0 <= i < |a| ==> a[i].bb == n
    ensures Group(a, g) == if n == g then a else []
    decreases |a|
  {
    if a != [] {
      GroupUniform(a[..|a| - 1], n, g);
    }
  }

  lemma {:induction false} GroupBeyond(a: seq<PhiAssign>, g: nat)
    requires forall i :: 0 <= i < |a| ==> a[i].bb != g
    ensures Group(a, g) == []
    decreases |a|
  {
    if a != [] {
      GroupBeyond(a[..|a| - 1], g);
    }
  }

  /** The assignments block `p` keeps for target `g` are exactly the phi uses of `g` that name
      `p`, in the order of the phis. */
  lemma {:induction false} GroupIsUses(uses: Uses, k: nat, p: nat, g: nat)
    requires k <= |uses| && g < |uses|
    ensures Group(AssignsFrom(uses, k, p), g) == if g < k then AssignsTo(uses[g], g, p) else []
    decreases k
  {
    hide *;
    NextFrom(uses, k, p);
    if k == 0 {
      GroupBeyond([], g);
    } else {
      GroupIsUses(uses, k - 1, p, g);
      ToBlock(uses[k - 1], k - 1, p);
      GroupAppend(AssignsFrom(uses, k - 1, p), AssignsTo(uses[k - 1], k - 1, p), k - 1, g);
    }
  }

  lemma NextFrom(uses: Uses, k: nat, p: nat)
    requires k <= |uses|
    ensures k == 0 ==> AssignsFrom(uses, k, p) == []
    ensures 0 < k ==> AssignsFrom(uses, k, p) == AssignsFrom(uses, k - 1, p) + AssignsTo(uses[k - 1], k - 1, p)
  {
  }

  lemma GroupAppend(a: seq<PhiAssign>, b: seq<PhiAssign>, n: nat, g: nat)
    requires forall i :: 0 <= i < |b| ==> b[i].bb == n
    ensures n != g ==> Group(a + b, g) == Group(a, g)
    ensures n == g && Group(a, g) == [] ==> Group(a + b, g) == b
  {
    hide Group;
    GroupConcat(a, b, g);
    GroupUniform(b, n, g);
  }

  // ----- one pass and two passes -----

  /** Values of the function's ids; an id not yet written reads as zero. */
  type Env = map<nat, int>

  function Get(env: Env, v: nat): int {
    if v in env then env[v] else 0
  }

  /** Assignments done one after the other. */
  ghost function InOrder(a: seq<PhiAssign>, env: Env): Env {
    if a == [] then env
    else
      var e := InOrder(a[..|a| - 1], env);
      e[a[|a| - 1].dest := Get(e, a[|a| - 1].source)]
  }

  /** Assignments written to `env` in order, with all sources read from `from`. */
  ghost function Write(a: seq<PhiAssign>, from: Env, env: Env): Env {
    if a == [] then env
    else Write(a[..|a| - 1], from, env)[a[|a| - 1].dest := Get(from, a[|a| - 1].source)]
  }

  /** Simultaneous assignment: what the phis of a block mean. */
  ghost function AtOnce(a: seq<PhiAssign>, env: Env): Env {
    Write(a, env, env)
  }

  ghost predicate HazardFree(a: seq<PhiAssign>) {
    forall k, m :: 0 <= k < m < |a| ==> a[m].source != a[k].dest
  }

  /** The id whose initial value `v` holds after the assignments are done in order. */
  function OrderOrigin(a: seq<PhiAssign>, v: nat): nat
    decreases |a|
  {
    if a == [] then v
    else OrderOrigin(a[..|a| - 1], if v == a[|a| - 1].dest then a[|a| - 1].source else v)
  }

  /** The id whose initial value `v` holds after the assignments are done at once. */
  function OnceOrigin(a: seq<PhiAssign>, v: nat): nat
    decreases |a|
  {
    if a == [] then v
    else if v == a[|a| - 1].dest then a[|a| - 1].source
    else OnceOrigin(a[..|a| - 1], v)
  }

  /** Doing the assignments in order moves the same initial values as doing them at once. */
  predicate SameOrigins(a: seq<PhiAssign>) {
    forall i :: 0 <= i < |a| ==> OrderOrigin(a, a[i].dest) == OnceOrigin(a, a[i].dest)
  }

  ghost predicate IsDest(a: seq<PhiAssign>, v: nat) {
    exists i :: 0 <= i < |a| && a[i].dest == v
  }

  lemma {:induction false} OrderOriginCorrect(a: seq<PhiAssign>, env: Env, v: nat)
    ensures Get(InOrder(a, env), v) == Get(env, OrderOrigin(a, v))
    ensures v in InOrder(a, env) <==> v in env || IsDest(a, v)
    decreases |a|
  {
    if a != [] {
      var l := a[|a| - 1];
      OrderOriginCorrect(a[..|a| - 1], env, v);
      OrderOriginCorrect(a[..|a| - 1], env, l.source);
      LastDest(a, v);
    }
  }

  lemma LastDest(a: seq<PhiAssign>, v: nat)
    requires a != []
    ensures IsDest(a, v) <==> a[|a| - 1].dest == v || IsDest(a[..|a| - 1], v)
  {
    var b := a[..|a| - 1];
    if i :| 0 <= i < |b| && b[i].dest == v {
      assert a[i].dest == v;
    }
    if i :| 0 <= i < |a| && a[i].dest == v && i < |a| - 1 {
      assert b[i].dest == v;
    }
  }

  lemma {:induction false} OnceOriginCorrect(a: seq<PhiAssign>, from: Env, env: Env, v: nat)
    ensures v in Write(a, from, env) <==> v in env || IsDest(a, v)
    ensures if IsDest(a, v)
      then Get(Write(a, from, env), v) == Get(from, OnceOrigin(a, v))
      else Get(Write(a, from, env), v) == Get(env, v) && OnceOrigin(a, v) == v
    decreases |a|
  {
    if a != [] {
      OnceOriginCorrect(a[..|a| - 1], from, env, v);
      LastDest(a, v);
    }
  }

  lemma {:induction false} NotDestOrigin(a: seq<PhiAssign>, v: nat)
    requires forall i :: 0 <= i < |a| ==> a[i].dest != v
    ensures OrderOrigin(a, v) == v
    decreases |a|
  {
    if a != [] {
      NotDestOrigin(a[..|a| - 1], v);
    }
  }

  /** The one-pass update equals the simultaneous one in every environment exactly when it moves
      the same values. */
  lemma OnePassExact(a: seq<PhiAssign>)
    ensures SameOrigins(a) <==> forall env: Env :: InOrder(a, env) == AtOnce(a, env)
  {
    if SameOrigins(a) {
      forall env: Env
        ensures InOrder(a, env) == AtOnce(a, env)
      {
        SameOriginsAgree(a, env);
      }
    } else {
      var i :| 0 <= i < |a| && OrderOrigin(a, a[i].dest) != OnceOrigin(a, a[i].dest);
      var v := a[i].dest;
      var env: Env := map[OnceOrigin(a, v) := 1];
      OrderOriginCorrect(a, env, v);
      OnceOriginCorrect(a, env, env, v);
      assert Get(InOrder(a, env), v) == 0 && Get(AtOnce(a, env), v) == 1;
      assert InOrder(a, env) != AtOnce(a, env);
    }
  }

  lemma SameOriginsAgree(a: seq<PhiAssign>, env: Env)
    requires SameOrigins(a)
    ensures InOrder(a, env) == AtOnce(a, env)
  {
    forall v: nat
      ensures v in InOrder(a, env) <==> v in AtOnce(a, env)
      ensures Get(InOrder(a, env), v) == Get(AtOnce(a, env), v)
    {
      OrderOriginCorrect(a, env, v);
      OnceOriginCorrect(a, env, env, v);
      if !IsDest(a, v) {
        NotDestOrigin(a, v);
      }
    }
    assert forall v: nat :: v in InOrder(a, env) ==> InOrder(a, env)[v] == Get(InOrder(a, env), v);
    assert forall v: nat :: v in AtOnce(a, env) ==> AtOnce(a, env)[v] == Get(AtOnce(a, env), v);
  }

  lemma {:induction false} HazardFreeOrigin(a: seq<PhiAssign>, v: nat)
    requires HazardFree(a)
    ensures OrderOrigin(a, v) == OnceOrigin(a, v)
    decreases |a|
  {
    if a != [] {
      var b, l := a[..|a| - 1], a[|a| - 1];
      assert HazardFree(b);
      if v == l.dest {
        forall i | 0 <= i < |b|
          ensures b[i].dest != l.source
        {
          assert a[i].dest != a[|a| - 1].source;
        }
        NotDestOrigin(b, l.source);
      } else {
        HazardFreeOrigin(b, v);
      }
    }
  }

  /** For the first listed target the flag is exactly the absence of hazards, so the one-pass
      update is right for it. */
  lemma FlagGuardsFirstTarget(uses: Uses, p: nat)
    requires ValidUses(uses) && AssignsFrom(uses, |uses|, p) != []
    ensures var a := AssignsFrom(uses, |uses|, p);
      && (FastFlag(a) <==> HazardFree(Group(a, a[0].bb)))
      && (FastFlag(a) ==> SameOrigins(Group(a, a[0].bb)))
  {
    var a := AssignsFrom(uses, |uses|, p);
    FromGrouped(uses, |uses|, p);
    hide AssignsFrom;
    var n := FirstRun(a, a[0].bb);
    FirstGroup(a, n);
    hide Group, FastFlag, HazardFree, OrderOrigin, OnceOrigin;
    FlagIsHazard(a, n);
    if HazardFree(a[..n]) {
      forall v: nat
        ensures OrderOrigin(a[..n], v) == OnceOrigin(a[..n], v)
      {
        HazardFreeOrigin(a[..n], v);
      }
    }
  }

  lemma FirstGroup(a: seq<PhiAssign>, n: nat)
    requires a != [] && n <= |a|
    requires forall i :: 0 <= i < n ==> a[i].bb == a[0].bb
    requires forall i :: n <= i < |a| ==> a[i].bb != a[0].bb
    ensures Group(a, a[0].bb) == a[..n]
  {
    hide Group;
    assert a == a[..n] + a[n..];
    GroupConcat(a[..n], a[n..], a[0].bb);
    GroupUniform(a[..n], a[0].bb, a[0].bb);
    GroupBeyond(a[n..], a[0].bb);
  }

  lemma FlagIsHazard(a: seq<PhiAssign>, n: nat)
    requires a != [] && n <= |a|
    requires forall i :: 0 <= i < n ==> a[i].bb == a[0].bb
    requires forall i :: n <= i < |a| ==> a[i].bb != a[0].bb
    ensures FastFlag(a) <==> HazardFree(a[..n])
  {
    if HazardFree(a[..n]) {
      forall k, m | 0 <= k < m < |a| && a[m].bb == a[0].bb
        ensures a[m].source != a[k].dest
      {
        assert a[..n][m] == a[m] && a[..n][k] == a[k];
      }
    }
  }

  /** How many leading members have target `g`, in a list that starts with `g` and is sorted. */
  lemma FirstRun(a: seq<PhiAssign>, g: nat) returns (n: nat)
    requires a != [] && a[0].bb == g
    requires forall i, j :: 0 <= i <= j < |a| ==> a[i].bb <= a[j].bb
    ensures n <= |a|
    ensures forall i :: 0 <= i < n ==> a[i].bb == g
    ensures forall i :: n <= i < |a| ==> a[i].bb != g
  {
    n := 1;
    while n < |a| && a[n].bb == g
      invariant 1 <= n <= |a|
      invariant forall i :: 0 <= i < n ==> a[i].bb == g
    {
      n := n + 1;
    }
  }

  /** A loop that swaps two values: block 0 goes to the loop's head 2, which goes to its latch 3, which
      goes back to 2 or out to 1. The latch gives 2 its two values exchanged and 1 a value of block 0. */
  const SWAP_LOOP: Uses :=
    [[], [PhiUse(5, 3, 6)], [PhiUse(7, 0, 9), PhiUse(7, 3, 8), PhiUse(8, 0, 6), PhiUse(8, 3, 7)], []]

  lemma SwapUses(us: seq<PhiUse>)
    requires us == [PhiUse(7, 0, 9), PhiUse(7, 3, 8), PhiUse(8, 0, 6), PhiUse(8, 3, 7)]
    ensures AssignsTo(us, 2, 3) == [PhiAssign(2, 8, 7), PhiAssign(2, 7, 8)]
  {
    assert us[..3][..2] == us[..2] && us[..2][..1] == us[..1] && us[..1][..0] == [];
    assert AssignsTo(us[..1], 2, 3) == [];
    assert AssignsTo(us[..2], 2, 3) == [PhiAssign(2, 8, 7)];
    assert AssignsTo(us[..3], 2, 3) == [PhiAssign(2, 8, 7)];
  }

  /** The flag does not look past the first target: the latch of the swapping loop has the flag set, and
      the one-pass update of the loop head's phis is wrong. */
  lemma FlagMissesLaterTarget()
    ensures var a := AssignsFrom(SWAP_LOOP, 4, 3);
      ValidUses(SWAP_LOOP) && FastFlag(a) && !SameOrigins(Group(a, 2))
  {
    hide SameOrigins;
    var b := [PhiAssign(2, 8, 7), PhiAssign(2, 7, 8)];
    LatchAssigns();
    hide AssignsFrom, AssignsTo;
    GroupIsUses(SWAP_LOOP, 4, 3, 2);
    SwapUses(SWAP_LOOP[2]);
    SwapDiffers(b);
  }

  lemma LatchAssigns()
    ensures AssignsFrom(SWAP_LOOP, 4, 3) == [PhiAssign(1, 6, 5), PhiAssign(2, 8, 7), PhiAssign(2, 7, 8)]
  {
    assert AssignsFrom(SWAP_LOOP, 1, 3) == [];
    assert SWAP_LOOP[1][..0] == [];
    assert AssignsFrom(SWAP_LOOP, 2, 3) == [PhiAssign(1, 6, 5)];
    SwapUses(SWAP_LOOP[2]);
    assert AssignsFrom(SWAP_LOOP, 3, 3) == [PhiAssign(1, 6, 5), PhiAssign(2, 8, 7), PhiAssign(2, 7, 8)];
  }

  /** Exchanging two values in order loses one of them. */
  lemma SwapDiffers(b: seq<PhiAssign>)
    requires b == [PhiAssign(2, 8, 7), PhiAssign(2, 7, 8)]
    ensures !SameOrigins(b)
  {
    assert b[..1] == [PhiAssign(2, 8, 7)] && b[..1][..0] == [];
    assert OrderOrigin(b, 8) == OrderOrigin(b[..1], 7) == OrderOrigin([], 8) == 8;
    assert OnceOrigin(b, 8) == 7;
    assert b[1].dest == 8;
  }
}
