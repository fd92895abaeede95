/** The loop nesting pass: one depth-first search that links every block to the header of its
    innermost loop, and the theorem that the links are exactly the loop nesting of the search tree. */
module LoopAnalysis {
  import opened Common
  import opened LoopChains
  import opened LoopInvariant

  /** The fields the pass keeps per basic block, and its set of visited blocks. */
  class LoopFinder {
    const g: Cfg
    var seen: set<nat>
    var pos: seq<nat>
    var header: seq<nat>
    var isHeader: seq<bool>
    var reentry: seq<bool>
    var irreducible: seq<bool>
    ghost var tree: Tree
    ghost var num: seq<nat>
    ghost var done: seq<nat>
    ghost var path: seq<nat>

    ghost function St(): State
      reads this
    {
      State(seen, pos, header, isHeader, reentry, irreducible, tree, num, done, path)
    }

    /** Blocks start zeroed with no header. */
    constructor (g: Cfg)
      requires ValidCfg(g)
      ensures this.g == g && Inv(g, St()) && seen == {} && path == []
    {
      var n := |g|;
      this.g := g;
      seen := {};
      pos := seq(n, _ => 0);
      header := seq(n, _ => INVALID_BB_ID);
      isHeader := seq(n, _ => false);
      reentry := seq(n, _ => false);
      irreducible := seq(n, _ => false);
      tree := seq(n, _ => []);
      num := seq(n, _ => 0);
      done := seq(n, _ => 0);
      path := [];
    }

    /** Merges the chain of `b` with `r` and its chain. */
    method TagLoopHeader(b: nat, r: nat)
      requires Taggable(St(), b, r)
      modifies `header
      ensures header == Tagged(old(St()), b, r)
    {
      if r == INVALID_BB_ID || r == b {
        return;
      }
      var cur1: nat, cur2: nat := b, r;
      while header[cur1] != INVALID_BB_ID
        invariant cur1 < |header| == |pos| && cur2 < |header| && cur2 != INVALID_BB_ID
        invariant pos == old(pos) && tree == old(tree)
        invariant PathRanked(header, tree, pos) && 0 < pos[cur2] < pos[cur1]
        invariant Merge(header, tree, pos, cur1, cur2) == Merge(old(header), tree, pos, b, r)
        decreases pos[cur1]
      {
        var parent := header[cur1];
        if parent == cur2 {
          return;
        }
        MergeTurn(header, tree, pos, cur1, cur2);
        if pos[parent] < pos[cur2] {
          header := header[cur1 := cur2];
          cur1, cur2 := cur2, parent;
        } else {
          cur1 := parent;
        }
      }
      header := header[cur1 := cur2];
    }

    /** Marks `w` as re-entering the finished loops around it, and returns the innermost header of
        `w` that is still on the path, if there is one. */
    method MarkReentry(w: nat) returns (r: nat)
      requires Shape(g, St()) && PathInv(g, St()) && HeaderInv(g, St())
      requires w < |g| && pos[w] == 0 && header[w] != INVALID_BB_ID && pos[header[w]] == 0
      modifies `reentry, `irreducible
      ensures Flagged(g, old(St()), St(), w)
      ensures Target(g, old(St()), w, w, r)
    {
      hide ValidTree, ValidCfg, PathInv, HeaderInv, Chain, Ranked;
      var h := header[w];
      ChainNext(header, tree, w);
      reentry := reentry[w := true];
      irreducible := irreducible[h := true];
      while header[h] != INVALID_BB_ID
        invariant h < |g| == |tree| && h in Chain(header, tree, w) && pos[h] == 0
        invariant Chain(header, tree, h) <= Chain(header, tree, w)
        invariant |irreducible| == |g| && reentry == old(reentry)[w := true]
        invariant forall x :: 0 <= x < |g| && x in Chain(header, tree, w) && pos[x] > 0 ==> x in Chain(header, tree, h)
        invariant forall x :: 0 <= x < |g| ==>
          (irreducible[x] <==> (old(irreducible[x]) ||
                                (x in Chain(header, tree, w) && pos[x] == 0 && x !in Chain(header, tree, h))))
        decreases |tree[h]|
      {
        var parent := header[h];
        ChainNext(header, tree, h);
        if pos[parent] > 0 {
          forall x: nat | x in Chain(header, tree, parent)
            ensures x < |g| && pos[x] > 0
          {
            ChainOnPath(g, old(St()), parent, x);
          }
          return parent;
        }
        h := parent;
        irreducible := irreducible[h := true];
      }
      NoChain(header, tree, h);
      r := INVALID_BB_ID;
    }

    /** Marks the flags for an edge from the last path block `b` to the visited block `w`, and
        returns the block to tag `b` with. */
    method ClassifySeen(b: nat, w: nat) returns (r: nat)
      requires Inv(g, St()) && path != [] && b == path[|path| - 1] && w < |g|
      modifies `isHeader, `reentry, `irreducible
      ensures Target(g, old(St()), b, w, r) && Taggable(old(St()), b, r)
      ensures Flagged(g, old(St()), St(), w)
    {
      hide HeaderInv, PathInv, DoneInv, OpenInv, ClosedInv, FlagInv, NumInv, ValidTree;
      if pos[w] > 0 {
        PathTarget(g, St(), b, w);
        isHeader := isHeader[w := true];
        r := w;
      } else if header[w] == INVALID_BB_ID {
        NoTarget(g, St(), b, w);
        r := INVALID_BB_ID;
      } else if pos[header[w]] > 0 {
        HeaderTarget(g, St(), b, w);
        r := header[w];
      } else {
        r := MarkReentry(w);
        CanTag(g, old(St()), b, r);
      }
    }

    /** Examines out-edge `n` of the last path block `b`, which is at position `p`. */
    method ExamineEdge(b: nat, n: nat, p: nat)
      requires Inv(g, St()) && path != [] && b == path[|path| - 1] && b < |g| && n == done[b] < |g[b]| && p == |path|
      modifies this
      ensures Inv(g, St()) && path == old(path) && pos == old(pos) && done[b] == n + 1
      ensures old(seen) <= seen && tree[b] == path
      ensures |tree| == |done| == |g| && forall x :: x in old(seen) ==> x < |g|
      ensures forall x :: x in old(seen) ==> tree[x] == old(tree[x]) && (x != b ==> done[x] == old(done[x]))
      decreases Blocks(g) - seen, 1
    {
      hide Inv, PathRanked;
      Sizes(g, St());
      var w := g[b][n];
      var target;
      ghost var before;
      if w !in seen {
        target := Visit(w, p + 1);
        before := St();
        TreeTarget(g, before, b, w);
      } else {
        before := St();
        target := ClassifySeen(b, w);
      }
      FinishEdge(b, w, target, before);
    }

    /** Tags `b` with the target of the edge to `w` and counts the edge as examined. */
    method FinishEdge(b: nat, w: nat, target: nat, ghost before: State)
      requires Inv(g, before) && before.path != [] && b == before.path[|before.path| - 1] && b < |g|
      requires b < |before.done|
      requires before.done[b] < |g[b]| && w == g[b][before.done[b]] && w in before.seen
      requires Target(g, before, b, w, target) && Taggable(before, b, target)
      requires St() == before.(isHeader := isHeader, reentry := reentry, irreducible := irreducible)
      requires w < |g| && Flagged(g, before, St(), w)
      modifies `header, `done
      ensures Inv(g, St()) && |done| == |g| && done == old(done)[b := old(done[b]) + 1]
    {
      hide Inv, PathRanked;
      Sizes(g, before);
      TagLoopHeader(b, target);
      done := done[b := done[b] + 1];
      EdgeKeepsInv(g, before, St(), b, w, target);
    }

    /** Puts the undiscovered block `b` on the path at position `p`. */
    method Enter(b: nat, p: nat)
      requires Inv(g, St()) && CanDiscover(g, St(), b) && p == |path| + 1
      modifies `seen, `pos, `tree, `num, `path
      ensures |pos| == |tree| == |num| == |done| == |g| && old(|pos| == |tree| == |num|)
      ensures St() == Discover(old(St()), b) && Inv(g, St())
      ensures done[b] == 0 && old(pos[b]) == 0 && forall x :: x in old(seen) ==> x < |g|
    {
      hide Inv;
      Sizes(g, St());
      DiscoverKeepsInv(g, St(), b);
      num := num[b := |seen|];
      seen := seen + {b};
      pos := pos[b := p];
      tree := tree[b := path + [b]];
      path := path + [b];
    }

    /** Takes the last block `b` off the path. */
    method Exit(b: nat)
      requires Inv(g, St()) && path != [] && b == path[|path| - 1] && b < |pos|
      requires b < |g| == |done| && done[b] == |g[b]|
      modifies `pos, `path
      ensures St() == Leave(old(St())) && Inv(g, St()) && b in seen && b < |header|
    {
      hide Inv;
      Sizes(g, St());
      LeaveKeepsInv(g, St());
      pos := pos[b := 0];
      path := path[..|path| - 1];
    }

    /** Searches from the undiscovered block `b`, which goes on the path at position `p`, and
        returns the header of `b`. */
    method Visit(b: nat, p: nat) returns (r: nat)
      requires Inv(g, St()) && CanDiscover(g, St(), b) && p == |path| + 1
      modifies this
      ensures Inv(g, St()) && path == old(path) && pos == old(pos)
      ensures |tree| == |done| == |header| == |g| && forall x :: x in old(seen) ==> x < |g|
      ensures b in seen && tree[b] == path + [b] && r == header[b]
      ensures old(seen) <= seen
      ensures forall x :: x in old(seen) ==> tree[x] == old(tree[x]) && done[x] == old(done[x])
      decreases Blocks(g) - seen, 0
    {
      hide Inv;
      Sizes(g, St());
      Enter(b, p);
      for n := 0 to |g[b]|
        invariant Inv(g, St()) && path == old(path) + [b] && pos == old(pos)[b := p]
        invariant |tree| == |done| == |g| && forall x :: x in old(seen) ==> x < |g|
        invariant old(seen) + {b} <= seen && done[b] == n && tree[b] == path
        invariant forall x :: x in old(seen) ==> tree[x] == old(tree[x]) && done[x] == old(done[x])
      {
        ExamineEdge(b, n, p);
      }
      Sizes(g, St());
      Exit(b);
      r := header[b];
    }

    /** The whole pass, started from the entry block when there is one. */
    method CalculateLoops()
      requires Inv(g, St()) && seen == {} && path == []
      modifies this
      ensures Finished(g, St())
    {
      if |g| > 0 {
        var _ := Visit(0, 1);
      }
    }
  }

  ghost function Blocks(g: Cfg): set<nat> {
    set b: nat {:trigger g[b]} | b < |g|
  }

  // ----- what the finished analysis means -----

  ghost predicate Finished(g: Cfg, s: State) {
    Inv(g, s) && s.path == [] && (|g| > 0 ==> 0 in s.seen)
  }

  ghost predicate CfgWalk(g: Cfg, p: seq<nat>) {
    && p != []
    && (forall i :: 0 <= i < |p| ==> p[i] < |g|)
    && (forall i, j :: 0 <= i < j < |p| && j == i + 1 ==> p[j] in g[p[i]])
  }

  /** There is a walk along edges from `a` to `b`. */
  ghost predicate Reaches(g: Cfg, a: nat, b: nat) {
    exists p :: CfgWalk(g, p) && p[0] == a && p[|p| - 1] == b
  }

  /** Every walk from the entry block to `b` goes through `h`. */
  ghost predicate Dominates(g: Cfg, h: nat, b: nat) {
    forall p :: CfgWalk(g, p) && p[0] == 0 && p[|p| - 1] == b ==> h in p
  }

  /** `t` with discovery numbers `num` is a depth-first tree of the blocks reachable from the
      entry: it spans them, numbers grow down the tree, and an edge to a later block stays inside
      the subtree of its source. */
  ghost predicate DepthFirstTree(g: Cfg, t: Tree, num: seq<nat>) {
    && ValidTree(g, t) && |num| == |g|
    && (forall b: nat :: b < |g| ==> (t[b] != [] <==> Reaches(g, 0, b)))
    && (forall a: nat, b: nat :: a < |g| && b < |g| && t[a] != [] && t[b] != [] && num[a] == num[b] ==> a == b)
    && (forall a: nat, b: nat :: a < |g| && b < |g| && Above(t, a, b) ==> num[a] <= num[b])
    && (forall u: nat, w: nat :: u < |g| && w < |g| && t[u] != [] && w in g[u] && num[w] > num[u] ==> Above(t, u, w))
  }

  lemma AllExplored(g: Cfg, s: State, u: nat, w: nat)
    requires Finished(g, s) && u in s.seen && u < |g| && w in g[u]
    ensures Explored(g, s.done, u, w) && w in s.seen && w < |g|
  {
    hide HeaderInv, OpenInv, ClosedInv, FlagInv, NumInv;
    var k :| 0 <= k < |g[u]| && g[u][k] == w;
    assert s.pos[u] == 0;
    assert s.done[u] == |g[u]|;
  }

  lemma {:induction false} WalkSeen(g: Cfg, s: State, p: seq<nat>)
    requires Finished(g, s) && CfgWalk(g, p) && p[0] == 0
    ensures p[|p| - 1] in s.seen
    decreases |p|
  {
    if |p| > 1 {
      var q := p[..|p| - 1];
      WalkSeen(g, s, q);
      AllExplored(g, s, q[|q| - 1], p[|p| - 1]);
    }
  }

  lemma TreeIsWalk(g: Cfg, t: Tree, b: nat)
    requires ValidTree(g, t) && b < |t| && t[b] != []
    ensures CfgWalk(g, t[b]) && t[b][0] == 0 && t[b][|t[b]| - 1] == b
  {
    assert TreePath(g, t, b);
  }

  /** The search discovers exactly the reachable blocks, along a depth-first tree. */
  lemma SearchTree(g: Cfg, s: State)
    requires Finished(g, s)
    ensures DepthFirstTree(g, s.tree, s.num)
    ensures forall b: nat :: b in s.seen <==> Reaches(g, 0, b)
  {
    hide HeaderInv, OpenInv, ClosedInv, FlagInv, PathInv, DoneInv;
    forall b: nat
      ensures b in s.seen <==> Reaches(g, 0, b)
    {
      if b in s.seen {
        TreeIsWalk(g, s.tree, b);
      }
      if Reaches(g, 0, b) {
        var p :| CfgWalk(g, p) && p[0] == 0 && p[|p| - 1] == b;
        WalkSeen(g, s, p);
      }
    }
    forall u: nat, w: nat | u in s.seen && w in g[u] && w < |g| && s.num[w] > s.num[u]
      ensures Above(s.tree, u, w)
    {
      AllExplored(g, s, u, w);
    }
  }

  lemma {:induction false} WalkToHeader(g: Cfg, s: State, h: nat, p: seq<nat>)
    requires Finished(g, s) && Walk(g, s.tree, h, p) && p[|p| - 1] == h && p[0] != h
    ensures h in Chain(s.header, s.tree, p[0])
    decreases |p|
  {
    hide HeaderInv, OpenInv, FlagInv, NumInv, PathInv, DoneInv;
    var u, w := p[0], p[1];
    AboveFacts(g, s.tree, h, u);
    AllExplored(g, s, u, w);
    if w != h {
      var q := p[1..];
      assert Walk(g, s.tree, h, q) && q[0] == w;
      WalkToHeader(g, s, h, q);
    }
    assert LeadsTo(g, s, u, w, h);
  }

  /** The header chain of a block is exactly the set of loops around it: `h` is on the chain of `b`
      if and only if `h` is a proper ancestor of `b` that `b` leads back to inside its subtree. */
  lemma ChainIsNesting(g: Cfg, s: State, b: nat, h: nat)
    requires Finished(g, s) && b < |g|
    ensures h in Chain(s.header, s.tree, b) <==> InLoop(g, s.tree, b, h)
  {
    if h in Chain(s.header, s.tree, b) {
      ChainInLoop(g, s, b, h);
    }
    if InLoop(g, s.tree, b, h) {
      var p :| Walk(g, s.tree, h, p) && p[0] == b && p[|p| - 1] == h;
      WalkToHeader(g, s, h, p);
    }
  }

  /** `loop_header_id` names the innermost loop around a block, and is invalid only when there
      is none. */
  lemma HeaderIsInnermost(g: Cfg, s: State, b: nat)
    requires Finished(g, s) && b < |g|
    ensures s.header[b] == INVALID_BB_ID ==> forall h :: !InLoop(g, s.tree, b, h)
    ensures s.header[b] != INVALID_BB_ID ==>
      InLoop(g, s.tree, b, s.header[b]) && forall h: nat :: InLoop(g, s.tree, b, h) ==> Above(s.tree, h, s.header[b])
  {
    hide OpenInv, FlagInv, NumInv, PathInv, DoneInv, ClosedInv;
    forall h: nat | InLoop(g, s.tree, b, h)
      ensures s.header[b] != INVALID_BB_ID && Above(s.tree, h, s.header[b])
    {
      ChainIsNesting(g, s, b, h);
      if h != s.header[b] {
        ChainInLoop(g, s, s.header[b], h);
      } else {
        AboveFacts(g, s.tree, h, b);
      }
    }
  }

  /** A block and its header lie on a common cycle of the graph. */
  lemma HeaderOnCycle(g: Cfg, s: State, b: nat)
    requires Finished(g, s) && b < |g| && s.header[b] != INVALID_BB_ID
    ensures Reaches(g, b, s.header[b]) && Reaches(g, s.header[b], b) && s.header[b] != b
  {
    hide OpenInv, FlagInv, NumInv, PathInv, DoneInv, ClosedInv;
    var h := s.header[b];
    AboveFacts(g, s.tree, h, b);
    WithinTree(g, s.tree, h, h, b);
    WithinIsWalk(g, s.tree, h, h, b);
    WithinIsWalk(g, s.tree, h, b, h);
  }

  lemma WithinIsWalk(g: Cfg, t: Tree, h: nat, a: nat, b: nat)
    requires Within(g, t, h, a, b)
    ensures Reaches(g, a, b)
  {
    var p :| Walk(g, t, h, p) && p[0] == a && p[|p| - 1] == b;
    assert CfgWalk(g, p);
  }

  /** `is_loop_header` marks exactly the targets of back edges of the tree. */
  lemma HeaderFlagExact(g: Cfg, s: State, h: nat)
    requires Finished(g, s) && h < |g|
    ensures s.isHeader[h] <==> exists u: nat :: u < |g| && h in g[u] && Above(s.tree, h, u)
  {
    hide HeaderInv, OpenInv, NumInv, ClosedInv;
    if u: nat :| u < |g| && h in g[u] && Above(s.tree, h, u) {
      AllExplored(g, s, u, h);
    }
  }

  /** An edge from a reachable block `u` outside the subtree of `h` into the loop of `h` at `w`. */
  ghost predicate SideEntry(g: Cfg, t: Tree, u: nat, w: nat, h: nat) {
    u < |g| == |t| && t[u] != [] && w in g[u] && InLoop(g, t, w, h) && !Above(t, h, u)
  }

  lemma SideEntryCrosses(g: Cfg, s: State, u: nat, w: nat, h: nat)
    requires Finished(g, s)
    ensures SideEntry(g, s.tree, u, w, h) <==> Explored(g, s.done, u, w) && Crosses(s, u, w, h)
  {
    hide HeaderInv, OpenInv, NumInv, ClosedInv, FlagInv, PathInv;
    if u < |g| && u in s.seen && w in g[u] {
      AllExplored(g, s, u, w);
      ChainIsNesting(g, s, w, h);
    }
  }

  /** `is_reentry` marks exactly the blocks entered from outside a loop around them, and
      `is_irreducible` exactly the headers whose loops are entered from the side. */
  lemma EntryFlagsExact(g: Cfg, s: State, x: nat)
    requires Finished(g, s) && x < |g|
    ensures s.reentry[x] <==> exists u: nat, h: nat :: SideEntry(g, s.tree, u, x, h)
    ensures s.irreducible[x] <==> exists u: nat, w: nat :: SideEntry(g, s.tree, u, w, x)
  {
    hide HeaderInv, OpenInv, NumInv, ClosedInv, PathInv, DoneInv;
    forall u: nat, w: nat, h: nat
      ensures SideEntry(g, s.tree, u, w, h) <==> Explored(g, s.done, u, w) && Crosses(s, u, w, h)
    {
      SideEntryCrosses(g, s, u, w, h);
    }
  }

  lemma EntryIsRoot(g: Cfg, t: Tree, h: nat)
    requires ValidTree(g, t) && Above(t, h, 0)
    ensures h == 0
  {
    assert TreePath(g, t, 0);
    assert t[t[0][0]] == t[0][..1];
  }

  /** A walk from the entry into the loop of `h` that avoids `h` enters the loop from the side. */
  lemma {:induction false} AvoidingWalk(g: Cfg, s: State, h: nat, p: seq<nat>)
    requires Finished(g, s) && CfgWalk(g, p) && p[0] == 0 && h !in p
    requires InLoop(g, s.tree, p[|p| - 1], h)
    ensures exists u: nat, w: nat :: SideEntry(g, s.tree, u, w, h)
    decreases |p|
  {
    hide HeaderInv, OpenInv, NumInv, FlagInv, PathInv, DoneInv, ClosedInv;
    var w := p[|p| - 1];
    if |p| == 1 {
      EntryIsRoot(g, s.tree, h);
      assert false;
    } else {
      var q := p[..|p| - 1];
      var u := q[|q| - 1];
      assert w in g[u];
      WalkSeen(g, s, q);
      if Above(s.tree, h, u) {
        AboveFacts(g, s.tree, h, u);
        BackEdge(g, s.tree, u, w, h);
        AvoidingWalk(g, s, h, q);
      } else {
        assert SideEntry(g, s.tree, u, w, h);
      }
    }
  }

  /** `is_irreducible` marks exactly the headers that fail to dominate some block of their loop. */
  lemma IrreducibleMeansNotDominating(g: Cfg, s: State, h: nat)
    requires Finished(g, s) && h < |g|
    ensures s.irreducible[h] <==> exists b: nat :: InLoop(g, s.tree, b, h) && !Dominates(g, h, b)
  {
    hide HeaderInv, OpenInv, NumInv, ClosedInv, PathInv, DoneInv, FlagInv;
    EntryFlagsExact(g, s, h);
    if u: nat, w: nat :| SideEntry(g, s.tree, u, w, h) {
      TreeIsWalk(g, s.tree, u);
      var p := s.tree[u] + [w];
      assert CfgWalk(g, p);
      assert h !in p;
      assert !Dominates(g, h, w);
    }
    if b: nat :| InLoop(g, s.tree, b, h) && !Dominates(g, h, b) {
      var p :| CfgWalk(g, p) && p[0] == 0 && p[|p| - 1] == b && h !in p;
      AvoidingWalk(g, s, h, p);
    }
  }

  // ----- loops without reference to the search -----

  /** A block other than `h` with a walk to `h` along which `h` dominates every block. */
  ghost predicate InNaturalLoop(g: Cfg, b: nat, h: nat) {
    b != h && exists p :: NaturalWalk(g, p, b, h)
  }

  ghost predicate NaturalWalk(g: Cfg, p: seq<nat>, b: nat, h: nat) {
    CfgWalk(g, p) && p[0] == b && p[|p| - 1] == h && forall i :: 0 <= i < |p| ==> Dominates(g, h, p[i])
  }

  lemma WalkSuffix(g: Cfg, t: Tree, h: nat, p: seq<nat>, i: nat)
    requires Walk(g, t, h, p) && i < |p|
    ensures Within(g, t, h, p[i], p[|p| - 1])
  {
    assert Walk(g, t, h, p[i..]);
  }

  lemma LoopIsNatural(g: Cfg, s: State, b: nat, h: nat)
    requires Finished(g, s) && h < |g| && !s.irreducible[h] && InLoop(g, s.tree, b, h)
    ensures InNaturalLoop(g, b, h)
  {
    hide Finished, Dominates;
    IrreducibleMeansNotDominating(g, s, h);
    var p :| Walk(g, s.tree, h, p) && p[0] == b && p[|p| - 1] == h;
    forall i | 0 <= i < |p|
      ensures Dominates(g, h, p[i])
    {
      if p[i] == h {
        EndDominates(g, h);
      } else {
        WalkSuffix(g, s.tree, h, p, i);
        assert InLoop(g, s.tree, p[i], h);
      }
    }
    assert NaturalWalk(g, p, b, h);
  }

  lemma EndDominates(g: Cfg, h: nat)
    ensures Dominates(g, h, h)
  {
    forall p | CfgWalk(g, p) && p[0] == 0 && p[|p| - 1] == h
      ensures h in p
    {
      assert p[|p| - 1] in p;
    }
  }

  lemma {:induction false} DominatedWalk(g: Cfg, s: State, h: nat, p: seq<nat>, i: nat)
    requires Finished(g, s) && CfgWalk(g, p) && p[0] in s.seen && i < |p|
    requires forall j :: 0 <= j < |p| ==> Dominates(g, h, p[j])
    ensures p[i] in s.seen && Above(s.tree, h, p[i])
  {
    hide HeaderInv, OpenInv, NumInv, ClosedInv, DoneInv, FlagInv, Dominates;
    if i > 0 {
      DominatedWalk(g, s, h, p, i - 1);
      AllExplored(g, s, p[i - 1], p[i]);
    }
    TreeIsWalk(g, s.tree, p[i]);
    DominatesOnWalk(g, h, s.tree[p[i]]);
  }

  lemma DominatesOnWalk(g: Cfg, h: nat, p: seq<nat>)
    requires CfgWalk(g, p) && p[0] == 0 && Dominates(g, h, p[|p| - 1])
    ensures h in p
  {
  }

  lemma NaturalIsLoop(g: Cfg, s: State, b: nat, h: nat)
    requires Finished(g, s) && b in s.seen && InNaturalLoop(g, b, h)
    ensures InLoop(g, s.tree, b, h)
  {
    hide Finished, Dominates;
    var p :| NaturalWalk(g, p, b, h);
    forall i | 0 <= i < |p|
      ensures Above(s.tree, h, p[i])
    {
      DominatedWalk(g, s, h, p, i);
    }
    assert Walk(g, s.tree, h, p);
  }

  lemma NaturalIsDominated(g: Cfg, b: nat, h: nat)
    requires InNaturalLoop(g, b, h)
    ensures Dominates(g, h, b)
  {
    hide Dominates;
  }

  /** A header is not marked irreducible if and only if its loop does not depend on the search: it is on
      the header chain of exactly the reachable blocks of its natural loop. */
  lemma ReducibleIsNatural(g: Cfg, s: State, h: nat)
    requires Finished(g, s) && h < |g|
    ensures !s.irreducible[h] <==>
      forall b: nat :: b < |g| && Reaches(g, 0, b) ==> (h in Chain(s.header, s.tree, b) <==> InNaturalLoop(g, b, h))
  {
    hide Finished, Dominates, InNaturalLoop, Reaches, InLoop, DepthFirstTree, Ranked;
    FinishedSizes(g, s);
    SearchTree(g, s);
    IrreducibleMeansNotDominating(g, s, h);
    forall b: nat | b < |g| && Reaches(g, 0, b)
      ensures h in Chain(s.header, s.tree, b) <==> InLoop(g, s.tree, b, h)
      ensures InNaturalLoop(g, b, h) ==> InLoop(g, s.tree, b, h)
      ensures InLoop(g, s.tree, b, h) && !s.irreducible[h] ==> InNaturalLoop(g, b, h)
      ensures InNaturalLoop(g, b, h) ==> Dominates(g, h, b)
    {
      ChainIsNesting(g, s, b, h);
      if InNaturalLoop(g, b, h) {
        NaturalIsLoop(g, s, b, h);
        NaturalIsDominated(g, b, h);
      }
      if InLoop(g, s.tree, b, h) && !s.irreducible[h] {
        LoopIsNatural(g, s, b, h);
      }
    }
    if b: nat :| InLoop(g, s.tree, b, h) && !Dominates(g, h, b) {
      LoopIsReachable(g, s, b, h);
    }
  }

  lemma FinishedSizes(g: Cfg, s: State)
    requires Finished(g, s)
    ensures Ranked(s.header, s.tree) && |s.header| == |s.irreducible| == |g|
  {
  }

  lemma LoopIsReachable(g: Cfg, s: State, b: nat, h: nat)
    requires Finished(g, s) && InLoop(g, s.tree, b, h)
    ensures b < |g| && Reaches(g, 0, b)
  {
    TreeIsWalk(g, s.tree, b);
  }
}
