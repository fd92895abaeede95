/** The backward walks that find the blocks the uses of a value keep it alive in. */
module Liveness {
  import opened Common
  import opened Predecessors

  /** A walk: the predecessors of each block, which blocks define the value, and where it starts. */
  datatype Graph = Graph(preds: seq<seq<nat>>, kills: seq<bool>, start: nat)

  ghost predicate ValidGraph(g: Graph) {
    && |g.kills| == |g.preds| && g.start < |g.preds|
    && forall b, k :: 0 <= b < |g.preds| && 0 <= k < |g.preds[b]| ==> g.preds[b][k] < |g.preds|
  }

  /** A path backwards from the start through blocks that do not define the value. */
  ghost predicate Path(g: Graph, p: seq<nat>)
    requires ValidGraph(g)
  {
    && 0 < |p| && p[0] == g.start
    && (forall i :: 0 <= i < |p| ==> p[i] < |g.preds| && !g.kills[p[i]])
    && (forall i, j :: 0 <= i < |p| && 0 <= j < |p| && j == i + 1 ==> p[j] in g.preds[p[i]])
  }

  ghost predicate Live(g: Graph, b: nat)
    requires ValidGraph(g)
  {
    exists p :: Path(g, p) && p[|p| - 1] == b
  }

  lemma LiveStart(g: Graph)
    requires ValidGraph(g) && !g.kills[g.start]
    ensures Live(g, g.start)
  {
    assert Path(g, [g.start]);
  }

  lemma LiveStep(g: Graph, c: nat, b: nat)
    requires ValidGraph(g) && Live(g, c) && c < |g.preds| && b in g.preds[c] && b < |g.preds| && !g.kills[b]
    ensures Live(g, b)
  {
    var p :| Path(g, p) && p[|p| - 1] == c;
    assert Path(g, p + [b]);
  }

  /** In terms of successors, a live block is one from which control can reach the start without passing
      a definition. */
  ghost predicate Reaches(succs: Succs, kills: seq<bool>, start: nat, p: seq<nat>) {
    && 0 < |p| && p[|p| - 1] == start && |kills| == |succs|
    && (forall i :: 0 <= i < |p| ==> p[i] < |succs| && !kills[p[i]])
    && (forall i, j :: 0 <= i < |p| && 0 <= j < |p| && j == i + 1 ==> p[j] in succs[p[i]])
  }

  function Reversed(p: seq<nat>): (r: seq<nat>)
    ensures |r| == |p| && forall i :: 0 <= i < |p| ==> r[i] == p[|p| - 1 - i]
  {
    seq(|p|, i requires 0 <= i < |p| => p[|p| - 1 - i])
  }

  lemma LiveIffReaches(g: Graph, succs: Succs, b: nat)
    requires ValidGraph(g) && Transposed(g.preds, succs)
    ensures Live(g, b) <==> exists p :: Reaches(succs, g.kills, g.start, p) && p[0] == b
  {
    if Live(g, b) {
      var p :| Path(g, p) && p[|p| - 1] == b;
      assert Reaches(succs, g.kills, g.start, Reversed(p));
    }
    if exists p :: Reaches(succs, g.kills, g.start, p) && p[0] == b {
      var p :| Reaches(succs, g.kills, g.start, p) && p[0] == b;
      assert Path(g, Reversed(p));
    }
  }

  /** A walk through blocks that do not define the value goes on from one walk into another. */
  lemma LiveThrough(g: Graph, s: nat, b: nat)
    requires ValidGraph(g) && s < |g.preds| && Live(g, s) && Live(g.(start := s), b)
    ensures Live(g, b)
  {
    var p :| Path(g, p) && p[|p| - 1] == s;
    var q :| Path(g.(start := s), q) && q[|q| - 1] == b;
    var r := p + q[1..];
    forall i, j | 0 <= i < |r| && 0 <= j < |r| && j == i + 1
      ensures r[j] in g.preds[r[i]]
    {
      if |p| <= j {
        assert r[j] == q[j - |p| + 1] && r[i] == q[i - |p| + 1];
      }
    }
    assert Path(g, r);
  }

  lemma LiveKills(g: Graph, b: nat)
    requires ValidGraph(g) && g.kills[g.start]
    ensures !Live(g, b)
  {
  }

  /** One walk finds everything that walks from other blocks find if and only if each of those blocks
      defines the value or is found itself. */
  lemma OneWalkSuffices(g: Graph, starts: set<nat>)
    requires ValidGraph(g) && forall s :: s in starts ==> s < |g.preds|
    ensures (forall s: nat, b: nat :: s in starts && Live(g.(start := s), b) ==> Live(g, b))
      <==> forall s: nat :: s in starts ==> g.kills[s] || Live(g, s)
  {
    hide Live;
    if forall s: nat :: s in starts ==> g.kills[s] || Live(g, s) {
      forall s: nat, b: nat | s in starts && Live(g.(start := s), b)
        ensures Live(g, b)
      {
        if g.kills[s] {
          LiveKills(g.(start := s), b);
        } else {
          LiveThrough(g, s, b);
        }
      }
    }
    if s: nat :| s in starts && !g.kills[s] && !Live(g, s) {
      LiveStart(g.(start := s));
    }
  }

  // ----- the state of a walk -----

  datatype State = State(livein: seq<bool>, seen: seq<bool>, stack: seq<nat>)

  ghost predicate Sized(g: Graph, w: State) {
    && |w.livein| == |w.seen| == |g.preds|
    && (forall k :: 0 <= k < |w.stack| ==> w.stack[k] < |g.preds|)
    && (forall j, k :: 0 <= j < k < |w.stack| ==> w.stack[j] != w.stack[k])
  }

  /** A block the walk has come to: the start, or a predecessor of a marked block. */
  ghost predicate Come(g: Graph, w: State, b: nat) {
    b == g.start || exists c :: 0 <= c < |g.preds| && c < |w.livein| && w.livein[c] && b in g.preds[c]
  }

  /** The walk has taken the first `m` predecessors of block `b`, and all those of the other marked blocks. */
  ghost predicate Inv(g: Graph, w: State, b: nat, m: nat) {
    && ValidGraph(g) && Sized(g, w) && w.seen[g.start]
    && (forall c: nat :: c < |g.preds| && w.livein[c] ==> w.seen[c] && !g.kills[c] && Live(g, c))
    && (forall k :: 0 <= k < |w.stack| ==> w.seen[w.stack[k]] && !w.livein[w.stack[k]] && Come(g, w, w.stack[k]))
    && (forall c: nat :: c < |g.preds| && w.seen[c] ==> w.livein[c] || g.kills[c] || c in w.stack)
    && (forall c: nat, k: nat :: c < |g.preds| && k < |g.preds[c]| && w.livein[c] && (c != b || k < m) ==>
      w.seen[g.preds[c][k]])
  }

  /** All predecessors of all marked blocks have been taken. */
  ghost predicate InvAll(g: Graph, w: State) {
    0 < |g.preds| && Inv(g, w, |g.preds|, 0)
  }

  lemma WalkStarts(g: Graph, w: State)
    requires ValidGraph(g) && |w.livein| == |w.seen| == |g.preds| && w.stack == [g.start]
    requires forall b :: 0 <= b < |g.preds| ==> !w.livein[b] && (w.seen[b] <==> b == g.start)
    ensures InvAll(g, w)
  {
  }

  ghost function Popped(w: State): State
    requires w.stack != []
  {
    w.(stack := w.stack[..|w.stack| - 1])
  }

  /** Nothing more is to be done at a definition, or at a block marked before. */
  lemma Bury(g: Graph, w: State)
    requires InvAll(g, w) && w.stack != []
    requires g.kills[w.stack[|w.stack| - 1]] || w.livein[w.stack[|w.stack| - 1]]
    ensures InvAll(g, Popped(w))
  {
    KeepsOthers(w.stack);
  }

  lemma KeepsOthers(s: seq<nat>)
    requires s != []
    ensures forall x :: x in s && x != s[|s| - 1] ==> x in s[..|s| - 1]
  {
    assert s == s[..|s| - 1] + [s[|s| - 1]];
  }

  ghost function Marked(w: State): State
    requires w.stack != [] && w.stack[|w.stack| - 1] < |w.livein|
  {
    Popped(w).(livein := w.livein[w.stack[|w.stack| - 1] := true])
  }

  lemma MarkKeeps(g: Graph, w: State)
    requires InvAll(g, w) && w.stack != [] && !g.kills[w.stack[|w.stack| - 1]]
    ensures Inv(g, Marked(w), w.stack[|w.stack| - 1], 0)
  {
    hide Path;
    var b := w.stack[|w.stack| - 1];
    var u := Marked(w);
    if b == g.start {
      LiveStart(g);
    } else {
      var c :| 0 <= c < |g.preds| && w.livein[c] && b in g.preds[c];
      LiveStep(g, c, b);
    }
    KeepsOthers(w.stack);
    forall k | 0 <= k < |u.stack|
      ensures Come(g, u, u.stack[k])
    {
      assert Come(g, w, w.stack[k]);
      ComeGrows(g, w, u, w.stack[k]);
    }
  }

  lemma ComeGrows(g: Graph, w: State, u: State, b: nat)
    requires Come(g, w, b) && |w.livein| == |u.livein| && forall c :: 0 <= c < |w.livein| && w.livein[c] ==> u.livein[c]
    ensures Come(g, u, b)
  {
  }

  ghost function Pushed(w: State, p: nat): State
    requires p < |w.seen|
  {
    w.(seen := w.seen[p := true], stack := w.stack + [p])
  }

  lemma PushKeeps(g: Graph, w: State, b: nat, m: nat)
    requires Inv(g, w, b, m) && b < |g.preds| && w.livein[b] && m < |g.preds[b]|
    ensures var p := g.preds[b][m];
      p < |g.preds| && if w.seen[p] then Inv(g, w, b, m + 1) else Inv(g, Pushed(w, p), b, m + 1)
  {
    hide Live;
    var p := g.preds[b][m];
    if !w.seen[p] {
      var u := Pushed(w, p);
      assert p in g.preds[b];
      forall k | 0 <= k < |u.stack|
        ensures Come(g, u, u.stack[k])
      {
        if k < |w.stack| {
          assert Come(g, w, w.stack[k]);
          ComeGrows(g, w, u, w.stack[k]);
        }
      }
    }
  }

  lemma BlockDone(g: Graph, w: State, b: nat)
    requires b < |g.preds| && Inv(g, w, b, |g.preds[b]|)
    ensures InvAll(g, w)
  {
  }

  /** When the stack is empty, exactly the live blocks are marked. */
  lemma {:induction false} PathIsMarked(g: Graph, w: State, p: seq<nat>, i: nat)
    requires InvAll(g, w) && w.stack == [] && Path(g, p) && i < |p|
    ensures w.livein[p[i]]
  {
    hide Live;
    if i > 0 {
      PathIsMarked(g, w, p, i - 1);
      assert p[i] in g.preds[p[i - 1]];
    }
  }

  lemma MarkedIffLive(g: Graph, w: State)
    requires InvAll(g, w) && w.stack == []
    ensures forall b: nat :: b < |g.preds| ==> (w.livein[b] <==> Live(g, b))
  {
    forall b: nat | b < |g.preds| && Live(g, b)
      ensures w.livein[b]
    {
      var p :| Path(g, p) && p[|p| - 1] == b;
      PathIsMarked(g, w, p, |p| - 1);
    }
  }

  // ----- the stack never overflows -----

  lemma {:induction false} FewerThan(s: seq<nat>, n: nat)
    requires forall j, k :: 0 <= j < k < |s| ==> s[j] != s[k]
    requires forall k :: 0 <= k < |s| ==> s[k] < n
    ensures |s| <= n
    decreases n
  {
    if s != [] {
      assert 0 <= s[0] < n;
      if n - 1 in s {
        var i :| 0 <= i < |s| && s[i] == n - 1;
        FewerThan(s[..i] + s[i + 1..], n - 1);
      } else {
        FewerThan(s, n - 1);
      }
    }
  }

  /** Each block is pushed once, so there is room for a block that has not been. */
  lemma RoomToPush(g: Graph, w: State, p: nat)
    requires Sized(g, w) && p < |g.preds| && p !in w.stack
    ensures |w.stack| < |g.preds|
  {
    FewerThan(w.stack + [p], |g.preds|);
  }

  lemma UnseenIsNotOnStack(g: Graph, w: State, b: nat, m: nat, p: nat)
    requires Inv(g, w, b, m) && p < |g.preds| && !w.seen[p]
    ensures p !in w.stack
  {
  }

  // ----- the range of a value -----

  const INVALID_VALUE_ID: nat := 0xffff_ffff

  datatype Range = Range(first: nat, last: nat)

  /** The smallest interval that contains `r` and every marked block. */
  ghost predicate Hull(r: Range, marked: seq<bool>, h: Range) {
    && h.first <= r.first && r.last <= h.last
    && (forall b :: 0 <= b < |marked| && marked[b] ==> h.first <= b <= h.last)
    && (h.first == r.first || (h.first < |marked| && marked[h.first]))
    && (h.last == r.last || (h.last < |marked| && marked[h.last]))
  }

  function Widen(r: Range, b: nat): Range {
    if b < r.first then r.(first := b)
    else if r.last < b then r.(last := b)
    else r
  }

  lemma WidenIsHull(r: Range, marked: seq<bool>, h: Range, b: nat)
    requires r.first <= r.last && Hull(r, marked, h) && b < |marked|
    ensures Hull(r, marked[b := true], Widen(h, b))
  {
    var now := marked[b := true];
    assert now[b] && forall c :: 0 <= c < |marked| && marked[c] ==> now[c];
  }

  ghost function Unseen(seen: seq<bool>): set<nat> {
    set b: nat | b < |seen| && !seen[b]
  }

  lemma UnseenPush(seen: seq<bool>, p: nat)
    requires p < |seen| && !seen[p]
    ensures |Unseen(seen[p := true])| == |Unseen(seen)| - 1
  {
    assert Unseen(seen[p := true]) == Unseen(seen) - {p};
  }

  // ----- the pass -----

  /** An incoming value of a phi, and the block it comes from. */
  datatype Incoming = Incoming(value: nat, bb: nat)

  /** The start of a walk: a block that a value with index `rel` in the function must reach. */
  datatype Start = Start(bb: nat, rel: nat)

  /** The walks of the phi uses of a block: from the incoming block of each, up to the first incoming value
      that is not computed in the function. */
  function PhiStarts(us: seq<Incoming>, firstValue: nat, moduleValues: nat): seq<Start>
    requires moduleValues <= firstValue
  {
    if us == [] || us[0].value < firstValue then []
    else [Start(us[0].bb, us[0].value - moduleValues)] + PhiStarts(us[1..], firstValue, moduleValues)
  }

  function UseStarts(us: seq<nat>, bb: nat, moduleValues: nat): seq<Start>
    requires forall i :: 0 <= i < |us| ==> moduleValues <= us[i]
  {
    seq(|us|, i requires 0 <= i < |us| => Start(bb, us[i] - moduleValues))
  }

  /** The first walk for value `rel`. */
  function FirstFor(ws: seq<Start>, rel: nat): (k: nat)
    ensures k <= |ws| && (k < |ws| ==> ws[k].rel == rel) && forall i :: 0 <= i < k ==> ws[i].rel != rel
  {
    if ws == [] then 0
    else
      var k := FirstFor(ws[..|ws| - 1], rel);
      if k < |ws| - 1 || ws[|ws| - 1].rel == rel then k else |ws|
  }

  lemma FirstForAppend(ws: seq<Start>, w: Start, rel: nat)
    ensures FirstFor(ws + [w], rel) == if FirstFor(ws, rel) < |ws| || w.rel == rel then FirstFor(ws, rel) else |ws| + 1
  {
    assert (ws + [w])[..|ws|] == ws;
  }

  /** `h` is the smallest interval that contains `r` and every block the walk `g` finds live. */
  ghost predicate Spans(g: Graph, r: Range, h: Range)
    requires ValidGraph(g)
  {
    && h.first <= r.first && r.last <= h.last
    && (forall b: nat :: b < |g.preds| && Live(g, b) ==> h.first <= b <= h.last)
    && (h.first == r.first || (h.first < |g.preds| && Live(g, h.first)))
    && (h.last == r.last || (h.last < |g.preds| && Live(g, h.last)))
  }

  lemma HullSpans(g: Graph, r: Range, marked: seq<bool>, h: Range)
    requires ValidGraph(g) && |marked| == |g.preds| && Hull(r, marked, h)
    requires forall b: nat :: b < |g.preds| ==> (marked[b] <==> Live(g, b))
    ensures Spans(g, r, h)
  {
    hide Live;
  }

  /** The values a block defines: those from `first` to `last`. */
  datatype Defs = Defs(first: nat, last: nat)

  class LivenessPass {
    const preds: seq<seq<nat>>
    const defs: seq<Defs>
    const numModuleValues: nat
    const seenValues: array<bool>
    const livein: array<bool>
    const seenBbs: array<bool>
    const bbIdStack: array<nat>
    const range: array<Range>
    const phiUses: seq<seq<Incoming>>
    const uses: seq<seq<nat>>
    const firstFunctionValue: nat

    ghost predicate Valid() {
      && livein != seenBbs && livein != seenValues && seenBbs != seenValues
      && livein.Length == seenBbs.Length == bbIdStack.Length == |preds| == |defs|
      && range.Length == seenValues.Length
      && (forall b, k :: 0 <= b < |preds| && 0 <= k < |preds[b]| ==> preds[b][k] < |preds|)
    }

    /** Phis and instructions name blocks and values of the function. */
    static ghost predicate UsesOk(n: nat, phiUses: seq<seq<Incoming>>, uses: seq<seq<nat>>,
      firstValue: nat, moduleValues: nat, numValues: nat)
    {
      && |phiUses| == |uses| == n && moduleValues <= firstValue
      && (forall b, i :: 0 <= b < n && 0 <= i < |phiUses[b]| ==>
        phiUses[b][i].bb < n && phiUses[b][i].value < moduleValues + numValues)
      && (forall b, i :: 0 <= b < n && 0 <= i < |uses[b]| ==> firstValue <= uses[b][i] < moduleValues + numValues)
    }

    ghost predicate HasUses() {
      UsesOk(|preds|, phiUses, uses, firstFunctionValue, numModuleValues, range.Length)
    }

    constructor (preds: seq<seq<nat>>, defs: seq<Defs>, phiUses: seq<seq<Incoming>>, uses: seq<seq<nat>>,
      numModuleValues: nat, firstFunctionValue: nat, numValues: nat)
      requires |defs| == |preds|
      requires forall b, k :: 0 <= b < |preds| && 0 <= k < |preds[b]| ==> preds[b][k] < |preds|
      requires UsesOk(|preds|, phiUses, uses, firstFunctionValue, numModuleValues, numValues)
      ensures Valid() && HasUses() && range.Length == numValues
      ensures this.preds == preds && this.defs == defs && this.phiUses == phiUses && this.uses == uses
      ensures this.numModuleValues == numModuleValues && this.firstFunctionValue == firstFunctionValue
      ensures forall v :: 0 <= v < numValues ==> !seenValues[v]
      ensures fresh(seenValues) && fresh(livein) && fresh(seenBbs) && fresh(bbIdStack) && fresh(range)
    {
      this.preds, this.defs, this.phiUses, this.uses := preds, defs, phiUses, uses;
      this.numModuleValues, this.firstFunctionValue := numModuleValues, firstFunctionValue;
      seenValues := new bool[numValues](_ => false);
      livein := new bool[|preds|](_ => false);
      seenBbs := new bool[|preds|](_ => false);
      bbIdStack := new nat[|preds|](_ => 0);
      range := new Range[numValues](_ => Range(INVALID_BB_ID, INVALID_BB_ID));
    }

    /** The walk from block `start` for the value with index `rel` in the function. */
    ghost function GraphOf(start: nat, rel: nat): (g: Graph)
      requires Valid()
      ensures g.preds == preds && g.start == start && |g.kills| == |preds|
      ensures start < |preds| ==> ValidGraph(g)
    {
      Graph(preds, seq(|preds|, b requires 0 <= b < |preds| => Kills(b, rel)), start)
    }

    predicate Kills(b: nat, rel: nat)
      requires b < |defs|
    {
      defs[b].first <= numModuleValues + rel <= defs[b].last
    }

    /** Every value is defined by one block at most, and a block without definitions has invalid bounds. */
    ghost predicate DefsOk()
      requires Valid()
    {
      && numModuleValues + range.Length <= INVALID_VALUE_ID
      && (forall b :: 0 <= b < |defs| ==>
            (defs[b] == Defs(INVALID_VALUE_ID, INVALID_VALUE_ID)
             || numModuleValues <= defs[b].first <= defs[b].last < numModuleValues + range.Length))
      && (forall b, c :: 0 <= b < c < |defs| && defs[b].first != INVALID_VALUE_ID ==>
        defs[b].last < defs[c].first || defs[c].last < defs[b].first)
    }

    /** Before the walks, the range of a value is its defining block, or invalid. */
    method InitRanges()
      requires Valid() && DefsOk()
      modifies range
      ensures forall b, v :: 0 <= b < |defs| && 0 <= v < range.Length && Kills(b, v) ==> range[v] == Range(b, b)
      ensures forall v :: 0 <= v < range.Length && (forall b :: 0 <= b < |defs| ==> !Kills(b, v)) ==>
        range[v] == Range(INVALID_BB_ID, INVALID_BB_ID)
    {
      for n := 0 to range.Length
        invariant forall v :: 0 <= v < n ==> range[v] == Range(INVALID_BB_ID, INVALID_BB_ID)
      {
        range[n] := Range(INVALID_BB_ID, INVALID_BB_ID);
      }
      for n := 0 to |defs|
        invariant forall b, v :: 0 <= b < n && 0 <= v < range.Length && Kills(b, v) ==> range[v] == Range(b, b)
        invariant forall v :: 0 <= v < range.Length && (forall b :: 0 <= b < n ==> !Kills(b, v)) ==>
          range[v] == Range(INVALID_BB_ID, INVALID_BB_ID)
      {
        if defs[n].first != INVALID_VALUE_ID && defs[n].last != INVALID_VALUE_ID {
          SetRange(n);
        }
      }
    }

    method SetRange(n: nat)
      requires Valid() && DefsOk() && n < |defs| && defs[n].first != INVALID_VALUE_ID
      modifies range
      ensures forall v :: 0 <= v < range.Length ==> range[v] == if Kills(n, v) then Range(n, n) else old(range[v])
    {
      for m := defs[n].first to defs[n].last + 1
        invariant forall v :: 0 <= v < range.Length ==>
          range[v] == if defs[n].first <= numModuleValues + v < m then Range(n, n) else old(range[v])
      {
        range[m - numModuleValues] := Range(n, n);
      }
    }

    ghost function Now(top: nat): State
      reads livein, seenBbs, bbIdStack
      requires top <= bbIdStack.Length
    {
      State(livein[..], seenBbs[..], bbIdStack[..top])
    }

    method Clear(bits: array<bool>)
      modifies bits
      ensures forall i :: 0 <= i < bits.Length ==> !bits[i]
    {
      for i := 0 to bits.Length
        invariant forall j :: 0 <= j < i ==> !bits[j]
      {
        bits[i] := false;
      }
    }

    /** Push the predecessors of the marked block `b` that have not been seen. */
    method PushPreds(ghost g: Graph, b: nat, top: nat) returns (now: nat)
      requires Valid() && g.preds == preds && b < |preds| && top <= bbIdStack.Length
      requires Inv(g, Now(top), b, 0) && livein[b]
      modifies seenBbs, bbIdStack
      ensures now <= bbIdStack.Length && InvAll(g, Now(now))
      ensures |Unseen(seenBbs[..])| + now == old(|Unseen(seenBbs[..])|) + top
    {
      hide Inv, InvAll, Unseen;
      now := top;
      for n := 0 to |preds[b]|
        invariant now <= bbIdStack.Length && Inv(g, Now(now), b, n)
        invariant |Unseen(seenBbs[..])| + now == old(|Unseen(seenBbs[..])|) + top
      {
        var p := preds[b][n];
        ghost var w := Now(now);
        PushKeeps(g, w, b, n);
        if !seenBbs[p] {
          UnseenIsNotOnStack(g, w, b, n, p);
          RoomToPush(g, w, p) by {
            InvSized(g, w, b, n);
          }
          UnseenPush(seenBbs[..], p);
          bbIdStack[now] := p;
          now := now + 1;
          seenBbs[p] := true;
          assert Now(now) == Pushed(w, p);
        }
      }
      BlockDone(g, Now(now), b);
    }

    lemma InvSized(g: Graph, w: State, b: nat, m: nat)
      requires Inv(g, w, b, m)
      ensures ValidGraph(g) && Sized(g, w)
    {
    }

    /** One turn of the walk: take a block off the stack; stop at a definition, else mark it. */
    method Visit(ghost g: Graph, rel: nat, top: nat, ghost r: Range) returns (now: nat)
      requires Valid() && 0 < top <= bbIdStack.Length && rel < range.Length && InvAll(g, Now(top))
      requires g == GraphOf(g.start, rel)
      requires r.first <= r.last && Hull(r, livein[..], range[rel])
      modifies livein, seenBbs, bbIdStack, range
      ensures now <= bbIdStack.Length && InvAll(g, Now(now))
      ensures |Unseen(seenBbs[..])| + now < old(|Unseen(seenBbs[..])|) + top
      ensures Hull(r, livein[..], range[rel])
      ensures forall v :: 0 <= v < range.Length && v != rel ==> range[v] == old(range[v])
    {
      hide Inv, InvAll, Unseen, Hull;
      ghost var w := Now(top);
      TopInGraph(g, w);
      var b := bbIdStack[top - 1];
      assert w.stack[|w.stack| - 1] == b && Popped(w) == Now(top - 1);
      if defs[b].first <= numModuleValues + rel <= defs[b].last {
        Bury(g, w);
        return top - 1;
      }
      if livein[b] {
        Bury(g, w);
        return top - 1;
      }
      MarkKeeps(g, w);
      WidenIsHull(r, livein[..], range[rel], b);
      livein[b] := true;
      assert Now(top - 1) == Marked(w);
      range[rel] := Widen(range[rel], b);
      now := PushPreds(g, b, top - 1);
    }

    lemma TopInGraph(g: Graph, w: State)
      requires InvAll(g, w) && w.stack != []
      ensures ValidGraph(g) && Sized(g, w)
    {
    }

    /** pn_basic_block_calculate_liveness_per_value: the first time a value is met, mark exactly the blocks
        that can reach the use without passing a definition, and widen the value's range to just hold
        them; after that, do nothing. */
    method CalculateLivenessPerValue(initial: nat, rel: nat)
      requires Valid() && initial < |preds| && rel < range.Length && range[rel].first <= range[rel].last
      modifies seenValues, livein, seenBbs, bbIdStack, range
      ensures seenValues[..] == old(seenValues[..])[rel := true]
      ensures forall v :: 0 <= v < range.Length && v != rel ==> range[v] == old(range[v])
      ensures old(seenValues[rel]) ==> range[rel] == old(range[rel]) && livein[..] == old(livein[..])
      ensures !old(seenValues[rel]) ==>
        (forall b: nat :: b < |preds| ==> (livein[b] <==> Live(GraphOf(initial, rel), b)))
      ensures !old(seenValues[rel]) ==> Hull(old(range[rel]), livein[..], range[rel])
    {
      if seenValues[rel] {
        return;
      }
      seenValues[rel] := true;
      Clear(livein);
      Clear(seenBbs);
      seenBbs[initial] := true;
      bbIdStack[0] := initial;
      var stackTop: nat := 1;
      ghost var g := GraphOf(initial, rel);
      WalkStarts(g, Now(1));
      hide Inv, InvAll, Unseen, Live;
      while 0 < stackTop
        invariant stackTop <= bbIdStack.Length && InvAll(g, Now(stackTop))
        invariant Hull(old(range[rel]), livein[..], range[rel])
        invariant forall v :: 0 <= v < range.Length && v != rel ==> range[v] == old(range[v])
        invariant seenValues[..] == old(seenValues[..])[rel := true]
        decreases |Unseen(seenBbs[..])| + stackTop
      {
        stackTop := Visit(g, rel, stackTop, old(range[rel]));
      }
      MarkedIffLive(g, Now(0));
    }

    // ----- the whole pass -----

    /** After the walks `ws`, each value they name has the interval of its first one, and no other value
        has changed. */
    ghost predicate Done(ws: seq<Start>, init: seq<Range>)
      requires Valid()
      reads seenValues, range
    {
      && |init| == range.Length
      && (forall i :: 0 <= i < |ws| ==> ws[i].bb < |preds| && ws[i].rel < range.Length)
      && (forall v :: 0 <= v < range.Length ==> init[v].first <= init[v].last && ValueDone(ws, v, init[v]))
    }

    ghost predicate ValueDone(ws: seq<Start>, v: nat, r: Range)
      requires Valid() && v < range.Length
      reads seenValues, range
    {
      var k := FirstFor(ws, v);
      if k < |ws| then seenValues[v] && ws[k].bb < |preds| && Spans(GraphOf(ws[k].bb, v), r, range[v])
      else !seenValues[v] && range[v] == r
    }

    /** One more walk. */
    method Walk(bb: nat, rel: nat, ghost ws: seq<Start>, ghost init: seq<Range>)
      requires Valid() && bb < |preds| && rel < range.Length && Done(ws, init)
      modifies seenValues, livein, seenBbs, bbIdStack, range
      ensures Done(ws + [Start(bb, rel)], init)
    {
      hide Spans, Hull, Live;
      ghost var before := range[..];
      ghost var seen := seenValues[..];
      assert ValueDone(ws, rel, init[rel]);
      SpansOrdered(ws, rel, init[rel]);
      CalculateLivenessPerValue(bb, rel);
      ghost var now := ws + [Start(bb, rel)];
      if !seen[rel] {
        HullSpans(GraphOf(bb, rel), init[rel], livein[..], range[rel]);
      }
      forall v | 0 <= v < range.Length
        ensures ValueDone(now, v, init[v])
      {
        FirstForAppend(ws, Start(bb, rel), v);
        assert seenValues[v] == if v == rel then true else seen[v];
      }
    }

    lemma SpansOrdered(ws: seq<Start>, v: nat, r: Range)
      requires Valid() && v < range.Length && ValueDone(ws, v, r) && r.first <= r.last
      ensures range[v].first <= range[v].last
    {
      hide Live;
    }

    /** The walks of block `b`. */
    ghost function StartsOf(b: nat): seq<Start>
      requires HasUses() && b < |preds|
    {
      PhiStarts(phiUses[b], firstFunctionValue, numModuleValues) + UseStarts(uses[b], b, numModuleValues)
    }

    /** All walks, blocks from the last one down to `b`. */
    ghost function StartsFrom(b: nat): seq<Start>
      requires HasUses() && b <= |preds|
      decreases |preds| - b
    {
      if b == |preds| then [] else StartsFrom(b + 1) + StartsOf(b)
    }

    /** pn_basic_block_calculate_liveness: the phi uses stop at the first value that is a constant, an
        argument or of the module. */
    method CalculateBlock(b: nat, ghost ws: seq<Start>, ghost init: seq<Range>)
      requires Valid() && HasUses() && b < |preds| && Done(ws, init)
      modifies seenValues, livein, seenBbs, bbIdStack, range
      ensures Done(ws + StartsOf(b), init)
    {
      hide Done, ValueDone;
      var n := 0;
      ghost var did := ws;
      ghost var all := PhiStarts(phiUses[b], firstFunctionValue, numModuleValues);
      assert phiUses[b][0..] == phiUses[b];
      while n < |phiUses[b]| && firstFunctionValue <= phiUses[b][n].value
        invariant n <= |phiUses[b]| && Done(did, init)
        invariant did + PhiStarts(phiUses[b][n..], firstFunctionValue, numModuleValues) == ws + all
      {
        var incoming := phiUses[b][n];
        assert phiUses[b][n..][1..] == phiUses[b][n + 1..];
        Walk(incoming.bb, incoming.value - numModuleValues, did, init);
        did := did + [Start(incoming.bb, incoming.value - numModuleValues)];
        n := n + 1;
      }
      assert did == ws + all;
      ghost var rest := UseStarts(uses[b], b, numModuleValues);
      assert did + rest[..0] == did;
      for m := 0 to |uses[b]|
        invariant Done(did + rest[..m], init)
      {
        Walk(b, uses[b][m] - numModuleValues, did + rest[..m], init);
        assert did + rest[..m] + [rest[m]] == did + rest[..m + 1];
      }
      assert did + rest[..|rest|] == ws + StartsOf(b);
    }

    /** The range is the smallest interval around block `d` and the blocks the walk finds live. */
    ghost predicate Tight(g: Graph, d: nat, h: Range)
      requires ValidGraph(g)
    {
      && h.first <= d <= h.last
      && (forall b: nat :: b < |g.preds| && Live(g, b) ==> h.first <= b <= h.last)
      && (h.first == d || (h.first < |g.preds| && Live(g, h.first)))
      && (h.last == d || (h.last < |g.preds| && Live(g, h.last)))
    }

    /** `h` is tight for the walk of the use met first, blocks taken from the last one down; without a
        walk it is block `d`. */
    ghost predicate FirstTight(v: nat, d: nat, h: Range)
      requires Valid() && HasUses()
    {
      var ws := StartsFrom(0);
      var k := FirstFor(ws, v);
      if k < |ws| then ws[k].bb < |preds| && Tight(GraphOf(ws[k].bb, v), d, h) else h == Range(d, d)
    }

    /** pn_function_calculate_liveness, up to the slots: for every value defined in a block, the range
        reaches from the least to the greatest of that block and the blocks live for the use met first;
        those are the blocks live for any use when one walk is enough. */
    method CalculateLiveness()
      requires Valid() && DefsOk() && HasUses()
      requires forall v :: 0 <= v < range.Length ==> !seenValues[v]
      modifies seenValues, livein, seenBbs, bbIdStack, range
      ensures forall d: nat, v: nat :: d < |defs| && v < range.Length && Kills(d, v) ==> FirstTight(v, d, range[v])
      ensures forall d: nat, v: nat :: d < |defs| && v < range.Length && Kills(d, v) && OneWalkEnough(v) ==>
        TightForUses(v, d, range[v])
    {
      hide Live, FirstTight, Spans, ValueDone, Done, StartsFrom, HasUses, OneWalkEnough, TightForUses;
      InitRanges();
      ghost var init := range[..];
      NothingDone(init);
      CalculateBlocks(init);
      forall d: nat, v: nat | d < |defs| && v < range.Length && Kills(d, v)
        ensures FirstTight(v, d, range[v]) && (OneWalkEnough(v) ==> TightForUses(v, d, range[v]))
      {
        DoneIsTight(init, d, v);
        if OneWalkEnough(v) {
          TightIsForUses(v, d, range[v]);
        }
      }
    }

    /** The blocks from the last one down. */
    method CalculateBlocks(ghost init: seq<Range>)
      requires Valid() && HasUses() && Done([], init)
      modifies seenValues, livein, seenBbs, bbIdStack, range
      ensures Done(StartsFrom(0), init)
    {
      hide Done, StartsOf;
      ghost var ws: seq<Start> := [];
      var n: nat := |preds|;
      while n > 0
        invariant n <= |preds| && ws == StartsFrom(n) && Done(ws, init)
      {
        CalculateBlock(n - 1, ws, init);
        ws := ws + StartsOf(n - 1);
        n := n - 1;
      }
    }

    lemma NothingDone(init: seq<Range>)
      requires Valid() && init == range[..] && forall v :: 0 <= v < range.Length ==> !seenValues[v]
      requires forall b, v :: 0 <= b < |defs| && 0 <= v < range.Length && Kills(b, v) ==> init[v] == Range(b, b)
      requires forall v :: 0 <= v < range.Length && (forall b :: 0 <= b < |defs| ==> !Kills(b, v)) ==>
        init[v] == Range(INVALID_BB_ID, INVALID_BB_ID)
      ensures Done([], init)
    {
      RangesOrdered(init);
    }

    lemma DoneIsTight(init: seq<Range>, d: nat, v: nat)
      requires Valid() && HasUses() && Done(StartsFrom(0), init) && v < range.Length && init[v] == Range(d, d)
      ensures FirstTight(v, d, range[v])
    {
      hide Live, StartsFrom, HasUses;
      assert ValueDone(StartsFrom(0), v, init[v]);
    }

    lemma RangesOrdered(init: seq<Range>)
      requires Valid() && |init| == range.Length
      requires forall b, v :: 0 <= b < |defs| && 0 <= v < range.Length && Kills(b, v) ==> init[v] == Range(b, b)
      requires forall v :: 0 <= v < range.Length && (forall b :: 0 <= b < |defs| ==> !Kills(b, v)) ==>
        init[v] == Range(INVALID_BB_ID, INVALID_BB_ID)
      ensures forall v :: 0 <= v < range.Length ==> init[v].first <= init[v].last
    {
      forall v | 0 <= v < range.Length
        ensures init[v].first <= init[v].last
      {
        if b :| 0 <= b < |defs| && Kills(b, v) {
          assert init[v] == Range(b, b);
        }
      }
    }

    // ----- one walk for all uses -----

    /** A use of the value with index `v` in the function starts from block `s`: it is an incoming value
        from `s` of some phi, or stands in `s` outside the phis. */
    ghost predicate UsedFrom(s: nat, v: nat)
      requires HasUses()
    {
      || (exists b: nat, i: nat :: b < |preds| && i < |phiUses[b]| && phiUses[b][i] == Incoming(numModuleValues + v, s))
      || (s < |preds| && numModuleValues + v in uses[s])
    }

    /** Some use of the value with index `v` keeps it alive in block `b`. */
    ghost predicate LiveForUse(b: nat, v: nat)
      requires Valid() && HasUses()
    {
      exists s: nat :: s < |preds| && UsedFrom(s, v) && Live(GraphOf(s, v), b)
    }

    lemma {:induction false} PhiStartIsUse(us: seq<Incoming>, firstValue: nat, moduleValues: nat, w: Start)
      requires moduleValues <= firstValue && w in PhiStarts(us, firstValue, moduleValues)
      ensures Incoming(moduleValues + w.rel, w.bb) in us
      decreases |us|
    {
      if w != Start(us[0].bb, us[0].value - moduleValues) {
        PhiStartIsUse(us[1..], firstValue, moduleValues, w);
      }
    }

    /** The walks `ws` are one for each of the first `n` phi uses of block `b`, up to the first that is not
        computed in the function, from the block it comes from, and then one for each other use in `b`. */
    ghost predicate WalksOf(b: nat, n: nat, ws: seq<Start>)
      requires HasUses() && b < |preds|
    {
      var (us, vs) := (phiUses[b], uses[b]);
      && n <= |us| && |ws| == n + |vs|
      && (n < |us| ==> us[n].value < firstFunctionValue)
      && (forall i :: 0 <= i < n ==> us[i].value >= firstFunctionValue)
      && (forall i :: 0 <= i < n ==> ws[i].bb == us[i].bb && numModuleValues + ws[i].rel == us[i].value)
      && (forall i :: 0 <= i < |vs| ==> ws[n + i].bb == b && numModuleValues + ws[n + i].rel == vs[i])
    }

    lemma StartsAre(b: nat)
      requires HasUses() && b < |preds|
      ensures exists n: nat :: WalksOf(b, n, StartsOf(b))
    {
      PhiStartsAre(phiUses[b], firstFunctionValue, numModuleValues);
      assert WalksOf(b, |PhiStarts(phiUses[b], firstFunctionValue, numModuleValues)|, StartsOf(b));
    }

    lemma {:induction false} PhiStartsAre(us: seq<Incoming>, firstValue: nat, moduleValues: nat)
      requires moduleValues <= firstValue
      ensures var ws := PhiStarts(us, firstValue, moduleValues);
        && |ws| <= |us| && (|ws| < |us| ==> us[|ws|].value < firstValue)
        && forall i :: 0 <= i < |ws| ==>
             us[i].value >= firstValue && ws[i] == Start(us[i].bb, us[i].value - moduleValues)
      decreases |us|
    {
      if us != [] && us[0].value >= firstValue {
        PhiStartsAre(us[1..], firstValue, moduleValues);
      }
    }

    lemma {:induction false} FirstForConcat(a: seq<Start>, b: seq<Start>, v: nat)
      ensures FirstFor(a + b, v) == if FirstFor(a, v) < |a| then FirstFor(a, v) else |a| + FirstFor(b, v)
      decreases |b|
    {
      if b == [] {
        assert a + b == a;
      } else {
        var k := |b| - 1;
        FirstForConcat(a, b[..k], v);
        FirstForAppend(a + b[..k], b[k], v);
        FirstForAppend(b[..k], b[k], v);
        assert a + b == a + b[..k] + [b[k]] && b == b[..k] + [b[k]];
      }
    }

    /** The walk made for a value is the first one of the last block that has one for it. */
    lemma {:induction false} FirstWalkIs(b: nat, v: nat) returns (c: nat)
      requires HasUses() && b <= |preds|
      ensures b <= c <= |preds|
      ensures forall x: nat :: b <= x < |preds| && c < x ==> FirstFor(StartsOf(x), v) == |StartsOf(x)|
      ensures var k := FirstFor(StartsFrom(b), v);
        if c == |preds| then
          k == |StartsFrom(b)| && forall x: nat :: b <= x < |preds| ==> FirstFor(StartsOf(x), v) == |StartsOf(x)|
        else
          k < |StartsFrom(b)| && FirstFor(StartsOf(c), v) < |StartsOf(c)|
          && StartsFrom(b)[k] == StartsOf(c)[FirstFor(StartsOf(c), v)]
      decreases |preds| - b
    {
      hide HasUses, StartsOf, FirstFor;
      c := b;
      if b < |preds| {
        FirstForConcat(StartsFrom(b + 1), StartsOf(b), v);
        var d := FirstWalkIs(b + 1, v);
        if d < |preds| || FirstFor(StartsOf(b), v) == |StartsOf(b)| {
          c := d;
        }
      }
    }

    /** Every walk is made for a use. */
    lemma {:induction false} StartIsUse(b: nat, w: Start)
      requires HasUses() && b <= |preds| && w in StartsFrom(b)
      ensures UsedFrom(w.bb, w.rel) && w.bb < |preds|
      decreases |preds| - b
    {
      if b < |preds| {
        if w in StartsFrom(b + 1) {
          StartIsUse(b + 1, w);
        } else if w in PhiStarts(phiUses[b], firstFunctionValue, numModuleValues) {
          PhiStartIsUse(phiUses[b], firstFunctionValue, numModuleValues, w);
          var i :| 0 <= i < |phiUses[b]| && phiUses[b][i] == Incoming(numModuleValues + w.rel, w.bb);
        } else {
          assert w in UseStarts(uses[b], b, numModuleValues);
        }
      }
    }

    lemma UsesInGraph(s: nat, v: nat)
      requires HasUses() && UsedFrom(s, v)
      ensures s < |preds|
    {
    }

    lemma SameWalk(s: nat, t: nat, v: nat)
      requires Valid()
      ensures GraphOf(t, v) == GraphOf(s, v).(start := t)
      ensures forall b: nat :: b < |preds| ==> GraphOf(s, v).kills[b] == Kills(b, v)
    {
      assert GraphOf(t, v).kills == GraphOf(s, v).kills;
    }

    lemma WalkExact(s: nat, v: nat)
      requires Valid() && HasUses() && s < |preds| && UsedFrom(s, v)
      ensures (forall b: nat :: LiveForUse(b, v) <==> Live(GraphOf(s, v), b))
        <==> forall t: nat :: UsedFrom(t, v) ==> t < |preds| && (Kills(t, v) || Live(GraphOf(s, v), t))
    {
      hide Live, UsedFrom, HasUses;
      var g := GraphOf(s, v);
      var starts := set t: nat | t < |preds| && UsedFrom(t, v);
      forall t: nat
        ensures GraphOf(t, v) == g.(start := t)
        ensures UsedFrom(t, v) ==> t < |preds|
      {
        SameWalk(s, t, v);
        if UsedFrom(t, v) {
          UsesInGraph(t, v);
        }
      }
      SameWalk(s, s, v);
      OneWalkSuffices(g, starts);
    }

    lemma NoWalkExact(v: nat)
      requires Valid() && HasUses()
      ensures (forall b: nat :: !LiveForUse(b, v)) <==> forall s: nat :: UsedFrom(s, v) ==> s < |preds| && Kills(s, v)
    {
      hide Live, UsedFrom, HasUses;
      forall s: nat | UsedFrom(s, v)
        ensures s < |preds|
        ensures Kills(s, v) ==> forall b: nat :: !Live(GraphOf(s, v), b)
        ensures !Kills(s, v) ==> LiveForUse(s, v)
      {
        UsesInGraph(s, v);
        SameWalk(s, s, v);
        if Kills(s, v) {
          forall b: nat
            ensures !Live(GraphOf(s, v), b)
          {
            LiveKills(GraphOf(s, v), b);
          }
        } else {
          LiveStart(GraphOf(s, v));
        }
      }
    }

    /** The walk made for the value with index `v`, if any, finds block `b`. */
    ghost predicate Found(b: nat, v: nat)
      requires Valid() && HasUses()
    {
      var ws := StartsFrom(0);
      var k := FirstFor(ws, v);
      k < |ws| && ws[k].bb < |preds| && Live(GraphOf(ws[k].bb, v), b)
    }

    /** Every block that a use starts from defines the value or is found by the walk of the use met first. */
    ghost predicate OneWalkEnough(v: nat)
      requires Valid() && HasUses()
    {
      forall s: nat :: UsedFrom(s, v) ==> s < |preds| && (Kills(s, v) || Found(s, v))
    }

    /** That is exactly when the one walk made for a value finds the blocks its uses keep it alive in. */
    lemma OneWalkExact(v: nat)
      requires Valid() && HasUses() && v < range.Length
      ensures OneWalkEnough(v) <==> forall b: nat :: LiveForUse(b, v) <==> Found(b, v)
    {
      hide LiveForUse, HasUses, UsedFrom, StartsFrom, Live;
      var ws := StartsFrom(0);
      var k := FirstFor(ws, v);
      if k < |ws| {
        StartIsUse(0, ws[k]);
        WalkExact(ws[k].bb, v);
      } else {
        NoWalkExact(v);
      }
    }

    /** The smallest interval around block `d` and the blocks that uses keep the value alive in. */
    ghost predicate TightForUses(v: nat, d: nat, h: Range)
      requires Valid() && HasUses()
    {
      && h.first <= d <= h.last
      && (forall b: nat :: LiveForUse(b, v) ==> h.first <= b <= h.last)
      && (h.first == d || LiveForUse(h.first, v))
      && (h.last == d || LiveForUse(h.last, v))
    }

    lemma LiveInGraph(g: Graph, b: nat)
      requires ValidGraph(g) && Live(g, b)
      ensures b < |g.preds|
    {
    }

    /** Then the range left by the pass is the one all uses ask for. */
    lemma TightIsForUses(v: nat, d: nat, h: Range)
      requires Valid() && HasUses() && v < range.Length && OneWalkEnough(v)
      requires FirstTight(v, d, h)
      ensures TightForUses(v, d, h)
    {
      hide LiveForUse, OneWalkEnough, HasUses, StartsFrom, Live;
      OneWalkExact(v);
      var ws := StartsFrom(0);
      var k := FirstFor(ws, v);
      if k < |ws| {
        var g := GraphOf(ws[k].bb, v);
        forall b: nat | LiveForUse(b, v)
          ensures h.first <= b <= h.last
        {
          LiveInGraph(g, b);
        }
      }
    }
  }

  // ----- a value for which one walk is not enough -----

  /** Block 1 goes on to 3 and 5, block 5 to 2; blocks 2 and 3 go on to 4. */
  const FORKED: Succs := [[1], [3, 5], [4], [4], [], [2]]

  const FORKED_PREDS: seq<seq<nat>> := [[], [0], [5], [1], [2, 3], [1]]

  const FORKED_USES: seq<seq<nat>> := [[], [], [0], [0], [], []]

  const NO_DEFS: Defs := Defs(INVALID_VALUE_ID, INVALID_VALUE_ID)

  /** One value, defined in block 1 and used in blocks 2 and 3. */
  ghost predicate Forked(p: LivenessPass) {
    && p.Valid() && p.HasUses() && p.range.Length == 1 && p.numModuleValues == p.firstFunctionValue == 0
    && p.preds == FORKED_PREDS && p.uses == FORKED_USES && p.phiUses == [[], [], [], [], [], []]
    && p.defs == [NO_DEFS, Defs(0, 0), NO_DEFS, NO_DEFS, NO_DEFS, NO_DEFS]
  }

  lemma ForkedStarts(p: LivenessPass)
    requires Forked(p)
    ensures p.StartsFrom(0) == [Start(3, 0), Start(2, 0)] && FirstFor(p.StartsFrom(0), 0) == 0
  {
    assert p.StartsFrom(6) == [];
    assert p.StartsFrom(5) == p.StartsFrom(4) == [];
    assert p.StartsFrom(3) == [Start(3, 0)];
    assert p.StartsFrom(2) == [Start(3, 0), Start(2, 0)];
    assert p.StartsFrom(1) == p.StartsFrom(2);
    assert p.StartsFrom(0) == p.StartsFrom(1);
  }

  lemma FirstStep(g: Graph, p: seq<nat>)
    requires ValidGraph(g) && Path(g, p) && 1 < |p|
    ensures p[1] in g.preds[g.start] && p[1] < |g.kills| && !g.kills[p[1]]
  {
  }

  /** From block 3 the walk stops at the definition at once; from block 2 it comes to block 5. */
  lemma ForkedWalks(p: LivenessPass)
    requires Forked(p)
    ensures forall b: nat :: Live(p.GraphOf(3, 0), b) <==> b == 3
    ensures Live(p.GraphOf(2, 0), 5)
  {
    var g := p.GraphOf(3, 0);
    LiveStart(g);
    forall q | Path(g, q)
      ensures |q| == 1
    {
      if 1 < |q| {
        FirstStep(g, q);
        assert false;
      }
    }
    assert Path(p.GraphOf(2, 0), [2, 5]);
  }

  lemma ForkedRange(p: LivenessPass, h: Range)
    requires Forked(p) && p.FirstTight(0, 1, h)
    ensures h == Range(1, 3) && p.UsedFrom(2, 0) && p.UsedFrom(3, 0) && p.LiveForUse(5, 0)
  {
    hide Live, Path;
    ForkedStarts(p);
    ForkedWalks(p);
    assert Live(p.GraphOf(3, 0), 3);
    assert 0 in p.uses[2] && 0 in p.uses[3];
    assert p.UsedFrom(2, 0);
  }

  lemma ForkedDefs(p: LivenessPass)
    requires Forked(p)
    ensures p.DefsOk() && p.Kills(1, 0) && |p.defs| == 6
  {
  }

  /** Block 3 is met first, so the range ends there, though the use in block 2 keeps the value alive in
      block 5. */
  method OneWalkMisses() returns (p: LivenessPass)
    ensures Transposed(FORKED_PREDS, FORKED)
    ensures Forked(p) && p.range[0] == Range(1, 3)
    ensures p.UsedFrom(2, 0) && p.UsedFrom(3, 0) && p.LiveForUse(5, 0)
  {
    hide LivenessPass.FirstTight, LivenessPass.OneWalkEnough,
      LivenessPass.TightForUses, LivenessPass.UsedFrom, LivenessPass.LiveForUse;
    var defs := [NO_DEFS, Defs(0, 0), NO_DEFS, NO_DEFS, NO_DEFS, NO_DEFS];
    p := new LivenessPass(FORKED_PREDS, defs, [[], [], [], [], [], []], FORKED_USES, 0, 0, 1);
    ForkedDefs(p);
    p.CalculateLiveness();
    ForkedRange(p, p.range[0]);
  }
}
