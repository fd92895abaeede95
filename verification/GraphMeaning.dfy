/** What one block of the graph does, said in terms of the values it finds. */
module GraphMeaning {
  import opened PhiAssigns
  import opened InstructionStream
  import opened FlatExecution

  // ----- conditions and switches -----

  /** A condition is true unless its low byte is zero. */
  lemma TruthIs(v: int, k: int)
    ensures 0 <= v < 0x100 ==> (Truth(v) <==> v != 0)
    ensures Truth(v + 0x100 * k) <==> Truth(v)
  {
  }

  /** `key` is the signed number of `bits` bits with the low bits of `v`. */
  ghost predicate StandsFor(bits: nat, v: int, key: int) {
    if bits <= 8 then -0x80 <= key < 0x80 && (v - key) % 0x100 == 0
    else if bits <= 16 then -0x8000 <= key < 0x8000 && (v - key) % 0x1_0000 == 0
    else if bits <= 32 then -0x8000_0000 <= key < 0x8000_0000 && (v - key) % 0x1_0000_0000 == 0
    else
      && -0x8000_0000_0000_0000 <= key < 0x8000_0000_0000_0000
      && (v - key) % 0x1_0000_0000_0000_0000 == 0
  }

  /** There is exactly one, the one a switch looks for. */
  lemma SignedLowIs(bits: nat, v: int, key: int)
    ensures StandsFor(bits, v, key) <==> key == SignedLow(bits, v)
  {
    if bits <= 8 {
      Low8(v, key);
    } else if bits <= 16 {
      Low16(v, key);
    } else if bits <= 32 {
      Low32(v, key);
    } else {
      Low64(v, key);
    }
  }

  lemma Low8(v: int, key: int)
    ensures -0x80 <= key < 0x80 && (v - key) % 0x100 == 0
      <==> key == if v % 0x100 < 0x80 then v % 0x100 else v % 0x100 - 0x100
  {
  }

  lemma Low16(v: int, key: int)
    ensures -0x8000 <= key < 0x8000 && (v - key) % 0x1_0000 == 0
      <==> key == if v % 0x1_0000 < 0x8000 then v % 0x1_0000 else v % 0x1_0000 - 0x1_0000
  {
  }

  lemma Low32(v: int, key: int)
    ensures -0x8000_0000 <= key < 0x8000_0000 && (v - key) % 0x1_0000_0000 == 0
      <==> key == if v % 0x1_0000_0000 < 0x8000_0000 then v % 0x1_0000_0000 else v % 0x1_0000_0000 - 0x1_0000_0000
  {
  }

  lemma Low64(v: int, key: int)
    ensures
      && -0x8000_0000_0000_0000 <= key < 0x8000_0000_0000_0000 && (v - key) % 0x1_0000_0000_0000_0000 == 0
      <==>
        var low := v % 0x1_0000_0000_0000_0000;
        key == if low < 0x8000_0000_0000_0000 then low else low - 0x1_0000_0000_0000_0000
  {
  }

  /** A switch with these cases goes to `g`: the block of the first case with the key, or the default if
      no case has it. */
  ghost predicate Picks(cases: seq<Case>, c: nat, key: int, otherwise: nat, g: nat) {
    || (g == otherwise && forall i :: c <= i < |cases| ==> cases[i].value != key)
    || (exists i ::
         && c <= i < |cases| && cases[i].value == key && cases[i].bb == g
         && forall j :: c <= j < i ==> cases[j].value != key)
  }

  lemma {:induction false} FirstMatchIs(cases: seq<Case>, c: nat, key: int, otherwise: nat)
    ensures Picks(cases, c, key, otherwise, FirstMatch(cases, c, key, otherwise))
    decreases |cases| - c
  {
    if c < |cases| && cases[c].value != key {
      FirstMatchIs(cases, c + 1, key, otherwise);
    }
  }

  /** Where a terminator goes on to. */
  ghost predicate GoesTo(t: Term, env: Env, g: nat)
    requires Branches(t)
  {
    match t
    case Br(a) => g == a
    case BrIf(v, a, b) => g == if Get(env, v) % 0x100 == 0 then b else a
    case Switch(bits, v, a, cases) => exists key: int :: StandsFor(bits, Get(env, v), key) && Picks(cases, 0, key, a, g)
  }

  lemma ChooseIs(t: Term, env: Env)
    requires Branches(t)
    ensures GoesTo(t, env, Choose(t, env))
  {
    if t.Switch? {
      var key := SignedLow(t.bits, Get(env, t.id));
      SignedLowIs(t.bits, Get(env, t.id), key);
      FirstMatchIs(t.cases, 0, key, t.otherwise);
    }
  }

  // ----- straight-line code -----

  /** Instructions take effect one after the other, each once. */
  lemma {:induction false} StraightConcat(m: Machine, a: seq<Inst>, b: seq<Inst>, env: Env, mem: int)
    ensures var r := Straight(m, a, env, mem); Straight(m, a + b, env, mem) == Straight(m, b, r.0, r.1)
    decreases |b|
  {
    if b == [] {
      assert a + b == a;
    } else {
      assert (a + b)[..|a + b| - 1] == a + b[..|b| - 1];
      StraightConcat(m, a, b[..|b| - 1], env, mem);
    }
  }

  lemma StraightOne(m: Machine, code: nat, size: nat, env: Env, mem: int)
    ensures Straight(m, [Op(code, size)], env, mem) == m.exec(code, env, mem)
    ensures Straight(m, [Nothing], env, mem) == Straight(m, [], env, mem) == (env, mem)
  {
    assert [Op(code, size)][..0] == [] && [Nothing][..0] == [];
  }

  // ----- phis -----

  /** Use `i` is the last one, among those of block `p`, with its destination. */
  ghost predicate Decides(us: seq<PhiUse>, p: nat, i: nat) {
    && i < |us| && us[i].bb == p
    && forall j :: i < j < |us| ==> us[j].bb != p || us[j].dest != us[i].dest
  }

  /** When control comes from block `p`, a value that some phi use names as its destination for `p` becomes
      what the use's source was, and every other value stays. */
  ghost predicate Phis(us: seq<PhiUse>, p: nat, from: Env, env: Env, e: Env) {
    && (forall i: nat :: Decides(us, p, i) ==> Get(e, us[i].dest) == Get(from, us[i].value))
    && (forall v: nat :: (forall i :: 0 <= i < |us| ==> us[i].bb != p || us[i].dest != v) ==> Get(e, v) == Get(env, v))
  }

  lemma WriteNext(us: seq<PhiUse>, n: nat, p: nat, from: Env, env: Env)
    requires us != []
    ensures var u, e := us[|us| - 1], Write(AssignsTo(us[..|us| - 1], n, p), from, env);
      Write(AssignsTo(us, n, p), from, env) == if u.bb == p then e[u.dest := Get(from, u.value)] else e
  {
    var a, b := AssignsTo(us, n, p), AssignsTo(us[..|us| - 1], n, p);
    assert us[|us| - 1].bb == p ==> a[..|a| - 1] == b;
    assert us[|us| - 1].bb != p ==> a == b;
  }

  lemma {:induction false} WriteIs(us: seq<PhiUse>, n: nat, p: nat, from: Env, env: Env)
    ensures Phis(us, p, from, env, Write(AssignsTo(us, n, p), from, env))
    decreases |us|
  {
    if us != [] {
      var k := |us| - 1;
      WriteIs(us[..k], n, p, from, env);
      WriteNext(us, n, p, from, env);
      hide Write, AssignsTo;
      PhisNext(us, p, from, env, Write(AssignsTo(us[..k], n, p), from, env));
    }
  }

  lemma PhisNext(us: seq<PhiUse>, p: nat, from: Env, env: Env, e: Env)
    requires us != [] && Phis(us[..|us| - 1], p, from, env, e)
    ensures var u := us[|us| - 1];
      Phis(us, p, from, env, if u.bb == p then e[u.dest := Get(from, u.value)] else e)
  {
    var k := |us| - 1;
    var l, u := us[..k], us[k];
    var d := if u.bb == p then e[u.dest := Get(from, u.value)] else e;
    forall i: nat | Decides(us, p, i)
      ensures Get(d, us[i].dest) == Get(from, us[i].value)
    {
      if i < k {
        assert Decides(l, p, i);
        assert l[i] == us[i];
      }
    }
    forall v: nat | forall i :: 0 <= i < |us| ==> us[i].bb != p || us[i].dest != v
      ensures Get(d, v) == Get(env, v)
    {
      assert forall i :: 0 <= i < |l| ==> l[i].bb != p || l[i].dest != v;
    }
  }

  lemma PhisAre(us: seq<PhiUse>, n: nat, p: nat, env: Env)
    ensures Phis(us, p, env, env, AtOnce(AssignsTo(us, n, p), env))
  {
    WriteIs(us, n, p, env, env);
  }

  // ----- blocks -----

  /** A block does its instructions; then it returns, with the value it names, stops, or goes on to the
      block its terminator picks for the values found, with that block's phis done. */
  lemma BlockIs(m: Machine, f: Function, uses: Uses, b: nat, env: Env, mem: int)
    requires |uses| == |f| && ValidFunction(f) && b < |f|
    ensures var r := Straight(m, f[b].insts, env, mem);
      var d := BlockStep(m, f, uses, AtBlock(b, env, mem));
      && d.mem == r.1
      && match f[b].term
         case Ret => d.Done? && d.r == Returned
         case RetValue(v) => d.Done? && d.r == ReturnedValue(Get(r.0, v))
         case Unreachable => d.Done? && d.r == Stopped
         case t => d.AtBlock? && d.b < |f| && GoesTo(t, r.0, d.b) && Phis(uses[d.b], b, r.0, r.0, d.env)
  {
    hide Straight, AtOnce, AssignsTo, Choose, ValidFunction, Phis, GoesTo;
    var r := Straight(m, f[b].insts, env, mem);
    if Branches(f[b].term) {
      BranchesOn(m, f, uses, AtBlock(b, env, mem));
      ChooseIs(f[b].term, r.0);
      var g := Choose(f[b].term, r.0);
      PhisAre(uses[g], g, b, r.0);
    }
  }
}
