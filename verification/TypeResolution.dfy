/** Types of the results of binary operators and selects, found by a worklist. */
module TypeResolution {

  const INVALID_TYPE_ID: nat := 0xffff

  datatype Type = Integer(width: nat) | Function | OtherType

  /** A binary operator or a select: its result has the type its two operands cast to. */
  datatype Inst = Inst(result: nat, value0: nat, value1: nat)

  /** The module's types, the function's instructions of these two kinds in program order, and the types
      known from the start; the results are not among them. */
  datatype Problem = Problem(types: seq<Type>, insts: seq<Inst>, known: seq<nat>)

  ghost predicate WellFormed(p: Problem) {
    && |p.types| <= INVALID_TYPE_ID
    && (forall v :: 0 <= v < |p.known| ==> p.known[v] == INVALID_TYPE_ID || p.known[v] < |p.types|)
    && (forall k :: 0 <= k < |p.insts| ==>
      p.insts[k].result < |p.known| && p.insts[k].value0 < |p.known| && p.insts[k].value1 < |p.known|)
    && (forall k :: 0 <= k < |p.insts| ==> p.known[p.insts[k].result] == INVALID_TYPE_ID)
    && (forall j, k :: 0 <= j < k < |p.insts| ==> p.insts[j].result != p.insts[k].result)
  }

  function ImplicitCast(types: seq<Type>, a: nat, b: nat): (r: nat)
    requires a < |types| && b < |types| <= INVALID_TYPE_ID
    ensures r == INVALID_TYPE_ID || r == b
  {
    if a == b then a
    else if types[a] == Function && types[b] == Integer(32) then b
    else if types[a] == Integer(32) && types[b] == Function then b
    else INVALID_TYPE_ID
  }

  /** Operands cast if and only if they have the same type or are a function and a 32-bit integer. */
  lemma CastIs(types: seq<Type>, a: nat, b: nat)
    requires a < |types| && b < |types| <= INVALID_TYPE_ID
    ensures ImplicitCast(types, a, b) ==
      if a == b || {types[a], types[b]} == {Function, Integer(32)} then b else 0xffff
  {
  }

  /** The order of the operands matters exactly when a function meets a 32-bit integer: the type of the
      second one wins. */
  lemma CastCommutes(types: seq<Type>, a: nat, b: nat)
    requires a < |types| && b < |types| <= INVALID_TYPE_ID
    ensures ImplicitCast(types, a, b) == ImplicitCast(types, b, a)
      <==> !((types[a] == Function && types[b] == Integer(32)) || (types[a] == Integer(32) && types[b] == Function))
  {
  }

  // ----- what is to be found -----

  ghost predicate Typing(p: Problem, t: seq<nat>) {
    |t| == |p.known| && forall v :: 0 <= v < |t| ==> t[v] == INVALID_TYPE_ID || t[v] < |p.types|
  }

  /** Every type known in `a` is the same in `b`. */
  ghost predicate Below(a: seq<nat>, b: seq<nat>) {
    |a| == |b| && forall v :: 0 <= v < |a| && a[v] != INVALID_TYPE_ID ==> b[v] == a[v]
  }

  ghost predicate Ready(t: seq<nat>, i: Inst) {
    && i.value0 < |t| && i.value1 < |t| && i.result < |t|
    && t[i.value0] != INVALID_TYPE_ID && t[i.value1] != INVALID_TYPE_ID
  }

  /** A typing that agrees with what is known and gives every instruction whose operands have types the
      type they cast to. */
  ghost predicate Solution(p: Problem, t: seq<nat>)
    requires WellFormed(p)
  {
    && Typing(p, t) && Below(p.known, t)
    && forall k :: 0 <= k < |p.insts| && Ready(t, p.insts[k]) ==>
         t[p.insts[k].result] != INVALID_TYPE_ID
         && t[p.insts[k].result] == ImplicitCast(p.types, t[p.insts[k].value0], t[p.insts[k].value1])
  }

  ghost predicate Least(p: Problem, t: seq<nat>)
    requires WellFormed(p)
  {
    Solution(p, t) && forall u :: Solution(p, u) ==> Below(t, u)
  }

  /** There is at most one least solution, so it cannot depend on the order of the work. */
  lemma LeastIsUnique(p: Problem, t: seq<nat>, u: seq<nat>)
    requires WellFormed(p) && Least(p, t) && Least(p, u)
    ensures t == u
  {
    assert Below(t, u) && Below(u, t);
    assert forall v :: 0 <= v < |t| ==> t[v] == u[v];
  }

  /** No typing can be right: some instruction has operands that do not cast. */
  ghost predicate Contradictory(p: Problem)
    requires WellFormed(p)
  {
    forall t :: !Solution(p, t)
  }

  /** When all types known from the start are one type, there is no mismatch, and every type found is
      that one. */
  lemma OneTypeSuffices(p: Problem, a: nat)
    requires WellFormed(p) && a < |p.types|
    requires forall v :: 0 <= v < |p.known| ==> p.known[v] == INVALID_TYPE_ID || p.known[v] == a
    ensures !Contradictory(p)
    ensures forall t, v :: Least(p, t) && 0 <= v < |t| && t[v] != INVALID_TYPE_ID ==> t[v] == a
  {
    var u := seq(|p.known|, _ => a);
    assert Solution(p, u);
    forall t, v | Least(p, t) && 0 <= v < |t| && t[v] != INVALID_TYPE_ID
      ensures t[v] == a
    {
      assert Below(t, u);
    }
  }

  /** A function and a 32-bit integer give a 32-bit integer, or a function, as the second operand says. */
  lemma SecondOperandWins(t: seq<nat>, a: nat)
    requires a < 2
    requires Least(Problem([Function, Integer(32)], [Inst(2, 1 - a, a)], [0, 1, INVALID_TYPE_ID]), t)
    ensures t == [0, 1, a]
  {
    var p := Problem([Function, Integer(32)], [Inst(2, 1 - a, a)], [0, 1, INVALID_TYPE_ID]);
    assert t[0] == 0 && t[1] == 1;
    assert Ready(t, p.insts[0]);
  }

  // ----- what the work keeps -----

  /** Every type found so far is forced, and every result that has one got it from its operands. */
  ghost predicate Progress(p: Problem, t: seq<nat>)
    requires WellFormed(p)
  {
    && Typing(p, t) && Below(p.known, t)
    && (forall u :: Solution(p, u) ==> Below(t, u))
    && (forall k :: 0 <= k < |p.insts| && t[p.insts[k].result] != INVALID_TYPE_ID ==>
         Ready(t, p.insts[k])
         && t[p.insts[k].result] == ImplicitCast(p.types, t[p.insts[k].value0], t[p.insts[k].value1]))
  }

  ghost predicate Unresolved(p: Problem, t: seq<nat>, k: nat)
    requires k < |p.insts|
  {
    p.insts[k].result < |t| && t[p.insts[k].result] == INVALID_TYPE_ID
  }

  lemma AssignKeeps(p: Problem, t: seq<nat>, k: nat)
    requires WellFormed(p) && Progress(p, t) && k < |p.insts| && Ready(t, p.insts[k]) && Unresolved(p, t, k)
    requires ImplicitCast(p.types, t[p.insts[k].value0], t[p.insts[k].value1]) != INVALID_TYPE_ID
    ensures Progress(p, t[p.insts[k].result := ImplicitCast(p.types, t[p.insts[k].value0], t[p.insts[k].value1])])
  {
    var i := p.insts[k];
    var r := ImplicitCast(p.types, t[i.value0], t[i.value1]);
    var n := t[i.result := r];
    forall u | Solution(p, u)
      ensures Below(n, u)
    {
      assert Below(t, u);
      assert Ready(u, i);
    }
  }

  lemma MismatchContradicts(p: Problem, t: seq<nat>, k: nat)
    requires WellFormed(p) && Progress(p, t) && k < |p.insts| && Ready(t, p.insts[k])
    requires ImplicitCast(p.types, t[p.insts[k].value0], t[p.insts[k].value1]) == INVALID_TYPE_ID
    ensures Contradictory(p)
  {
    forall u
      ensures !Solution(p, u)
    {
      if Solution(p, u) {
        assert Below(t, u);
        assert Ready(u, p.insts[k]);
      }
    }
  }

  lemma StuckIsLeast(p: Problem, t: seq<nat>)
    requires WellFormed(p) && Progress(p, t)
    requires forall k :: 0 <= k < |p.insts| && Unresolved(p, t, k) ==> !Ready(t, p.insts[k])
    ensures Least(p, t)
  {
    forall k | 0 <= k < |p.insts| && Ready(t, p.insts[k])
      ensures t[p.insts[k].result] != INVALID_TYPE_ID
    {
      assert !Unresolved(p, t, k);
    }
  }

  // ----- when every type is found -----

  /** A type follows for value `v` in `n` steps: it is known, or `v` is the result of an instruction for
      whose operands types follow. */
  ghost predicate Derivable(p: Problem, v: nat, n: nat)
    requires WellFormed(p)
    decreases n, 0
  {
    v < |p.known|
    && (p.known[v] != INVALID_TYPE_ID
        || (0 < n && exists k :: 0 <= k < |p.insts| && p.insts[k].result == v && OperandsDerivable(p, k, n - 1)))
  }

  ghost predicate OperandsDerivable(p: Problem, k: nat, n: nat)
    requires WellFormed(p) && k < |p.insts|
    decreases n, 1
  {
    Derivable(p, p.insts[k].value0, n) && Derivable(p, p.insts[k].value1, n)
  }

  ghost predicate Follows(p: Problem, v: nat)
    requires WellFormed(p)
  {
    exists n: nat :: Derivable(p, v, n)
  }

  lemma {:induction false} DerivableMonotone(p: Problem, v: nat, n: nat, m: nat)
    requires WellFormed(p) && Derivable(p, v, n) && n <= m
    ensures Derivable(p, v, m)
    decreases n
  {
    if p.known[v] == INVALID_TYPE_ID {
      var k :| 0 <= k < |p.insts| && p.insts[k].result == v && OperandsDerivable(p, k, n - 1);
      DerivableMonotone(p, p.insts[k].value0, n - 1, m - 1);
      DerivableMonotone(p, p.insts[k].value1, n - 1, m - 1);
      assert OperandsDerivable(p, k, m - 1);
    }
  }

  lemma {:induction false} DerivableIsTyped(p: Problem, t: seq<nat>, v: nat, n: nat)
    requires WellFormed(p) && Solution(p, t) && Derivable(p, v, n)
    ensures t[v] != INVALID_TYPE_ID
    decreases n
  {
    if p.known[v] == INVALID_TYPE_ID {
      var k :| 0 <= k < |p.insts| && p.insts[k].result == v && OperandsDerivable(p, k, n - 1);
      DerivableIsTyped(p, t, p.insts[k].value0, n - 1);
      DerivableIsTyped(p, t, p.insts[k].value1, n - 1);
      assert Ready(t, p.insts[k]);
    }
  }

  lemma ReadyFollows(p: Problem, k: nat)
    requires WellFormed(p) && k < |p.insts| && Follows(p, p.insts[k].value0) && Follows(p, p.insts[k].value1)
    ensures Follows(p, p.insts[k].result)
  {
    var m: nat :| Derivable(p, p.insts[k].value0, m);
    var n: nat :| Derivable(p, p.insts[k].value1, n);
    DerivableMonotone(p, p.insts[k].value0, m, m + n);
    DerivableMonotone(p, p.insts[k].value1, n, m + n);
    assert OperandsDerivable(p, k, m + n);
    assert Derivable(p, p.insts[k].result, m + n + 1);
  }

  /** The least solution gives a value a type exactly if a type follows for it. */
  lemma TypedIffFollows(p: Problem, t: seq<nat>, v: nat)
    requires WellFormed(p) && Least(p, t) && v < |t|
    ensures t[v] != INVALID_TYPE_ID <==> Follows(p, v)
  {
    if Follows(p, v) {
      var n: nat :| Derivable(p, v, n);
      DerivableIsTyped(p, t, v, n);
    }
    if t[v] != INVALID_TYPE_ID {
      var u := seq(|t|, w requires 0 <= w < |t| => if Follows(p, w) then t[w] else INVALID_TYPE_ID);
      forall w: nat | w < |t| && p.known[w] != INVALID_TYPE_ID
        ensures Follows(p, w)
      {
        assert Derivable(p, w, 0);
      }
      forall k | 0 <= k < |p.insts| && Ready(u, p.insts[k])
        ensures Ready(t, p.insts[k]) && Follows(p, p.insts[k].result)
      {
        ReadyFollows(p, k);
      }
      assert Solution(p, u);
      assert Below(t, u);
    }
  }

  // ----- the worklist -----

  datatype Outcome = Resolved | Unresolvable(count: nat) | Mismatch

  /** The list holds each instruction among the first `seen` that has no type yet, once. */
  ghost predicate Listed(p: Problem, t: seq<nat>, list: seq<nat>, seen: nat) {
    && seen <= |p.insts|
    && (forall n :: 0 <= n < |list| ==> list[n] < seen && Unresolved(p, t, list[n]))
    && (forall m, n :: 0 <= m < n < |list| ==> list[m] != list[n])
    && (forall k :: 0 <= k < seen && Unresolved(p, t, k) ==> k in list)
  }

  /** Instruction `k` has been resolved, and no other. */
  ghost predicate OnlyResolves(p: Problem, t: seq<nat>, u: seq<nat>, k: nat) {
    && k < |p.insts| && !Unresolved(p, u, k)
    && forall j :: 0 <= j < |p.insts| && j != k ==> Unresolved(p, u, j) == Unresolved(p, t, j)
  }

  lemma ListPush(p: Problem, t: seq<nat>, list: seq<nat>, k: nat)
    requires Listed(p, t, list, k) && k < |p.insts| && Unresolved(p, t, k)
    ensures Listed(p, t, list + [k], k + 1)
  {
  }

  lemma ListSkip(p: Problem, t: seq<nat>, u: seq<nat>, list: seq<nat>, k: nat)
    requires Listed(p, t, list, k) && OnlyResolves(p, t, u, k)
    ensures Listed(p, u, list, k + 1)
  {
  }

  /** Removing a resolved instruction by putting the last one in its place. */
  lemma ListSwapRemove(p: Problem, t: seq<nat>, u: seq<nat>, list: seq<nat>, n: nat)
    requires n < |list| && Listed(p, t, list, |p.insts|) && OnlyResolves(p, t, u, list[n])
    ensures Listed(p, u, list[n := list[|list| - 1]][..|list| - 1], |p.insts|)
  {
    var last := |list| - 1;
    var l := list[n := list[last]][..last];
    forall k | 0 <= k < |p.insts| && Unresolved(p, u, k)
      ensures k in l
    {
      var i :| 0 <= i < |list| && list[i] == k;
      assert l[if i == last then n else i] == k;
    }
  }

  ghost function UnresolvedSet(p: Problem, t: seq<nat>): set<nat> {
    set k: nat | k < |p.insts| && Unresolved(p, t, k)
  }

  lemma {:induction false} DistinctCount(list: seq<nat>, s: set<nat>)
    requires forall m, n :: 0 <= m < n < |list| ==> list[m] != list[n]
    requires forall k :: k in s <==> k in list
    ensures |s| == |list|
  {
    if list == [] {
      assert s == {};
    } else {
      var last := |list| - 1;
      DistinctCount(list[..last], s - {list[last]});
    }
  }

  lemma ListCounts(p: Problem, t: seq<nat>, list: seq<nat>)
    requires Listed(p, t, list, |p.insts|)
    ensures |list| == |UnresolvedSet(p, t)|
  {
    DistinctCount(list, UnresolvedSet(p, t));
  }

  lemma ResolvedIff(p: Problem, t: seq<nat>, list: seq<nat>)
    requires WellFormed(p) && Least(p, t) && Listed(p, t, list, |p.insts|)
    ensures list == [] <==> forall k :: 0 <= k < |p.insts| ==> Follows(p, p.insts[k].result)
  {
    forall k | 0 <= k < |p.insts|
      ensures Unresolved(p, t, k) <==> !Follows(p, p.insts[k].result)
    {
      TypedIffFollows(p, t, p.insts[k].result);
    }
    if list != [] {
      assert Unresolved(p, t, list[0]);
    }
  }

  class TypePass {
    const problem: Problem
    const typeOf: array<nat>
    const invalid: array<nat>
    var numInvalid: nat

    ghost predicate Valid()
      reads this, typeOf, invalid
    {
      && WellFormed(problem) && typeOf != invalid
      && Progress(problem, typeOf[..])
      && invalid.Length == |problem.insts| && numInvalid <= invalid.Length
    }

    ghost function List(): seq<nat>
      reads this, invalid
      requires numInvalid <= invalid.Length
    {
      invalid[..numInvalid]
    }

    constructor (p: Problem)
      requires WellFormed(p)
      ensures Valid() && fresh(typeOf) && fresh(invalid) && problem == p
      ensures typeOf[..] == p.known && numInvalid == 0
    {
      problem := p;
      typeOf := new nat[|p.known|](i requires 0 <= i < |p.known| => p.known[i]);
      invalid := new nat[|p.insts|](_ => 0);
      numInvalid := 0;
      new;
      assert typeOf[..] == p.known;
    }

    /** Give instruction `k` its type, if its operands have types; none is left if they do not cast. */
    method Calculate(k: nat) returns (done: bool, mismatch: bool)
      requires Valid() && k < |problem.insts| && Unresolved(problem, typeOf[..], k)
      modifies typeOf
      ensures done == Ready(old(typeOf[..]), problem.insts[k])
      ensures mismatch ==> done && Contradictory(problem)
      ensures !mismatch ==> Valid()
      ensures !done ==> typeOf[..] == old(typeOf[..])
      ensures done && !mismatch ==> OnlyResolves(problem, old(typeOf[..]), typeOf[..], k)
    {
      var i := problem.insts[k];
      ghost var t := typeOf[..];
      if typeOf[i.value0] == INVALID_TYPE_ID || typeOf[i.value1] == INVALID_TYPE_ID {
        return false, false;
      }
      var r := ImplicitCast(problem.types, typeOf[i.value0], typeOf[i.value1]);
      if r == INVALID_TYPE_ID {
        MismatchContradicts(problem, t, k);
        return true, true;
      }
      AssignKeeps(problem, t, k);
      typeOf[i.result] := r;
      assert typeOf[..] == t[i.result := r];
      return true, false;
    }

    /** Try each instruction once, in program order, and list those to be tried again. */
    method FirstPass() returns (mismatch: bool)
      requires Valid() && numInvalid == 0 && typeOf[..] == problem.known
      modifies this`numInvalid, typeOf, invalid
      ensures mismatch ==> Contradictory(problem)
      ensures !mismatch ==> Valid() && Listed(problem, typeOf[..], List(), |problem.insts|)
    {
      hide Progress, Contradictory, OnlyResolves, Listed;
      StartsEmpty();
      for k := 0 to |problem.insts|
        invariant Valid() && Listed(problem, typeOf[..], List(), k) && numInvalid <= k
        invariant forall j :: k <= j < |problem.insts| ==> Unresolved(problem, typeOf[..], j)
      {
        ghost var before, list := typeOf[..], List();
        var done, bad := Calculate(k);
        if bad {
          return true;
        }
        if done {
          ListSkip(problem, before, typeOf[..], list, k);
          OthersUnresolved(before, k);
        } else {
          ListPush(problem, before, list, k);
          invalid[numInvalid] := k;
          numInvalid := numInvalid + 1;
          assert List() == list + [k];
        }
      }
      mismatch := false;
    }

    lemma StartsEmpty()
      requires Valid() && numInvalid == 0 && typeOf[..] == problem.known
      ensures Listed(problem, typeOf[..], List(), 0)
      ensures forall j :: 0 <= j < |problem.insts| ==> Unresolved(problem, typeOf[..], j)
    {
    }

    lemma OthersUnresolved(before: seq<nat>, k: nat)
      requires OnlyResolves(problem, before, typeOf[..], k)
      requires forall j :: k <= j < |problem.insts| ==> Unresolved(problem, before, j)
      ensures forall j :: k < j < |problem.insts| ==> Unresolved(problem, typeOf[..], j)
    {
    }

    /** None of the first `n` listed instructions is ready. */
    ghost predicate NotReady(n: nat)
      reads this, typeOf, invalid
    {
      n <= numInvalid <= invalid.Length
      && forall j :: 0 <= j < n ==> invalid[j] < |problem.insts| && !Ready(typeOf[..], problem.insts[invalid[j]])
    }

    /** Take entry `n` off the list by putting the last one in its place. */
    method Remove(n: nat)
      requires n < numInvalid <= invalid.Length
      modifies this`numInvalid, invalid
      ensures numInvalid == old(numInvalid) - 1
      ensures List() == old(List())[n := old(List())[old(numInvalid) - 1]][..old(numInvalid) - 1]
    {
      numInvalid := numInvalid - 1;
      invalid[n] := invalid[numInvalid];
    }

    /** Try entry `n` of the list, and take it off if it is resolved. */
    method Retry(n: nat) returns (done: bool, mismatch: bool)
      requires Valid() && Listed(problem, typeOf[..], List(), |problem.insts|) && n < numInvalid
      modifies this`numInvalid, typeOf, invalid
      ensures mismatch ==> Contradictory(problem)
      ensures !mismatch ==> Valid() && Listed(problem, typeOf[..], List(), |problem.insts|)
      ensures !mismatch && done ==> numInvalid == old(numInvalid) - 1
      ensures !mismatch && !done ==>
        numInvalid == old(numInvalid) && typeOf[..] == old(typeOf[..]) && invalid[..] == old(invalid[..])
        && invalid[n] < |problem.insts| && !Ready(typeOf[..], problem.insts[invalid[n]])
    {
      hide Progress, Contradictory, OnlyResolves, WellFormed, Ready;
      ghost var before, list := typeOf[..], List();
      assert invalid[n] == list[n];
      hide Listed;
      done, mismatch := Calculate(invalid[n]);
      if done && !mismatch {
        ListSwapRemove(problem, before, typeOf[..], list, n);
        Remove(n);
      }
    }

    /** Try the listed instructions once. If none was removed, none of them is ready. */
    method RetryPass() returns (mismatch: bool)
      requires Valid() && Listed(problem, typeOf[..], List(), |problem.insts|)
      modifies this`numInvalid, typeOf, invalid
      ensures mismatch ==> Contradictory(problem)
      ensures !mismatch ==>
        Valid() && Listed(problem, typeOf[..], List(), |problem.insts|) && numInvalid <= old(numInvalid)
      ensures !mismatch && numInvalid == old(numInvalid) ==> NotReady(numInvalid)
    {
      hide Progress, Contradictory, WellFormed, Ready, Listed;
      var n := 0;
      while n < numInvalid
        invariant n <= numInvalid <= old(numInvalid)
        invariant Valid() && Listed(problem, typeOf[..], List(), |problem.insts|)
        invariant numInvalid == old(numInvalid) ==> NotReady(n)
        decreases numInvalid - n
      {
        var done, bad := Retry(n);
        if bad {
          return true;
        }
        if !done {
          n := n + 1;
        }
      }
      mismatch := false;
    }

    /** Every instruction that has no type is listed and not ready: the types are the least solution. */
    lemma Stuck()
      requires Valid() && Listed(problem, typeOf[..], List(), |problem.insts|)
      requires NotReady(numInvalid)
      ensures Least(problem, typeOf[..])
      ensures numInvalid == |UnresolvedSet(problem, typeOf[..])|
    {
      StuckIsLeast(problem, typeOf[..]);
      ListCounts(problem, typeOf[..], List());
    }

    /** pn_function_calculate_result_value_types: fails on a mismatch exactly when no typing is a solution;
        otherwise finds the least one, and fails exactly when it leaves some result without a type. */
    method CalculateResultValueTypes() returns (r: Outcome)
      requires Valid() && numInvalid == 0 && typeOf[..] == problem.known
      modifies this`numInvalid, typeOf, invalid
      ensures r.Mismatch? <==> Contradictory(problem)
      ensures !r.Mismatch? ==> Least(problem, typeOf[..])
      ensures r.Resolved? <==>
        !r.Mismatch? && forall k :: 0 <= k < |problem.insts| ==> Follows(problem, problem.insts[k].result)
      ensures r.Unresolvable? ==> 0 < r.count == |UnresolvedSet(problem, typeOf[..])|
    {
      var mismatch := FirstPass();
      if mismatch {
        return Mismatch;
      }
      var lastInvalid := 0;
      ghost var stuck := numInvalid == 0;
      while lastInvalid != numInvalid
        invariant Valid() && Listed(problem, typeOf[..], List(), |problem.insts|)
        invariant lastInvalid == numInvalid ==> NotReady(numInvalid)
        decreases numInvalid + if lastInvalid == numInvalid then 0 else 1
      {
        lastInvalid := numInvalid;
        mismatch := RetryPass();
        if mismatch {
          return Mismatch;
        }
      }
      Stuck();
      ResolvedIff(problem, typeOf[..], List());
      r := if numInvalid > 0 then Unresolvable(numInvalid) else Resolved;
    }
  }
}
