/** The invariant of the depth-first loop analysis and its preservation by discovering a
    block, examining an edge and leaving a block. */
module LoopInvariant {
  import opened Common
  import opened LoopChains

  /** The analysis fields of all blocks, with the ghost history that the proof needs: the tree,
      the discovery numbers, how many out-edges of each block are examined, and the current path. */
  datatype State = State(
    seen: set<nat>, pos: seq<nat>, header: seq<nat>,
    isHeader: seq<bool>, reentry: seq<bool>, irreducible: seq<bool>,
    tree: Tree, num: seq<nat>, done: seq<nat>, path: seq<nat>)

  // ----- walks inside a subtree -----

  /** `p` is a walk along edges that never leaves the subtree of `h`. */
  ghost predicate Walk(g: Cfg, t: Tree, h: nat, p: seq<nat>) {
    && p != []
    && (forall i :: 0 <= i < |p| ==> p[i] < |g| && Above(t, h, p[i]))
    && (forall i, j :: 0 <= i < j < |p| && j == i + 1 ==> p[j] in g[p[i]])
  }

  ghost predicate Within(g: Cfg, t: Tree, h: nat, a: nat, b: nat) {
    exists p :: Walk(g, t, h, p) && p[0] == a && p[|p| - 1] == b
  }

  /** Block `b` belongs to the loop of `h`: `h` is a proper ancestor of `b` and `b` leads back to
      `h` without leaving the subtree of `h`. */
  ghost predicate InLoop(g: Cfg, t: Tree, b: nat, h: nat) {
    Above(t, h, b) && h != b && Within(g, t, h, b, h)
  }

  lemma WithinCompose(g: Cfg, t: Tree, h: nat, a: nat, b: nat, c: nat)
    requires Within(g, t, h, a, b) && Within(g, t, h, b, c)
    ensures Within(g, t, h, a, c)
  {
    var p :| Walk(g, t, h, p) && p[0] == a && p[|p| - 1] == b;
    var q :| Walk(g, t, h, q) && q[0] == b && q[|q| - 1] == c;
    var r := p + q[1..];
    assert forall i :: |p| <= i < |r| ==> r[i] == q[i - |p| + 1];
    assert Walk(g, t, h, r);
    assert r[|r| - 1] == c;
  }

  lemma WithinEdge(g: Cfg, t: Tree, h: nat, a: nat, b: nat)
    requires a < |g| && b < |g| && b in g[a] && Above(t, h, a) && Above(t, h, b)
    ensures Within(g, t, h, a, b)
  {
    var p := [a, b];
    assert Walk(g, t, h, p);
  }

  lemma WithinWiden(g: Cfg, t: Tree, h: nat, c: nat, a: nat, b: nat)
    requires ValidTree(g, t) && Above(t, h, c) && Within(g, t, c, a, b)
    ensures Within(g, t, h, a, b)
  {
    var p :| Walk(g, t, c, p) && p[0] == a && p[|p| - 1] == b;
    forall i | 0 <= i < |p|
      ensures Above(t, h, p[i])
    {
      AboveTransitive(g, t, h, c, p[i]);
    }
    assert Walk(g, t, h, p);
  }

  lemma TreeStep(g: Cfg, t: Tree, h: nat, c: nat, b: nat, i: nat)
    requires ValidTree(g, t) && Above(t, h, c) && Above(t, c, b) && |t[c]| - 1 <= i < |t[b]|
    ensures t[b][i] < |g| && Above(t, h, t[b][i])
  {
    AboveFacts(g, t, c, b);
    assert TreePath(g, t, b) && TreePath(g, t, c);
    var x := t[b][i];
    assert t[x] == t[b][..i + 1];
    assert t[x][|t[c]| - 1] == c;
    AboveTransitive(g, t, h, c, x);
  }

  lemma TreeEdge(g: Cfg, t: Tree, b: nat, i: nat)
    requires ValidTree(g, t) && b < |t| && i + 1 < |t[b]|
    ensures t[b][i] < |g| && t[b][i + 1] in g[t[b][i]]
  {
    assert TreePath(g, t, b);
  }

  lemma TreeEnd(g: Cfg, t: Tree, c: nat, b: nat)
    requires ValidTree(g, t) && Above(t, c, b)
    ensures c < |t| && 0 < |t[c]| <= |t[b]| && t[b][|t[c]| - 1] == c && Above(t, b, b)
  {
    AboveFacts(g, t, c, b);
    assert TreePath(g, t, c);
  }

  lemma TreeWalk(g: Cfg, t: Tree, h: nat, c: nat, b: nat)
    requires ValidTree(g, t) && Above(t, h, c) && Above(t, c, b)
    ensures c < |t| && 0 < |t[c]| <= |t[b]|
    ensures Walk(g, t, h, t[b][|t[c]| - 1..])
  {
    AboveFacts(g, t, c, b);
    var k := |t[c]| - 1;
    var p := t[b][k..];
    forall i | 0 <= i < |p|
      ensures p[i] < |g| && Above(t, h, p[i])
    {
      TreeStep(g, t, h, c, b, k + i);
    }
    forall i, j | 0 <= i < j < |p| && j == i + 1
      ensures p[j] in g[p[i]]
    {
      TreeEdge(g, t, b, k + i);
    }
  }

  /** The tree path from `c` down to `b`. */
  lemma WithinTree(g: Cfg, t: Tree, h: nat, c: nat, b: nat)
    requires ValidTree(g, t) && Above(t, h, c) && Above(t, c, b)
    ensures Within(g, t, h, c, b)
  {
    AboveFacts(g, t, c, b);
    TreeWalk(g, t, h, c, b);
    TreeEnd(g, t, c, b);
    TreeEnd(g, t, b, b);
    var p := t[b][|t[c]| - 1..];
    assert p[0] == c && p[|p| - 1] == b;
  }

  // ----- the invariant -----

  ghost predicate Explored(g: Cfg, done: seq<nat>, u: nat, w: nat) {
    u < |g| == |done| && exists k :: 0 <= k < done[u] && k < |g[u]| && g[u][k] == w
  }

  /** `x` heads a loop around `w` that an edge from `u` to `w` enters from outside its subtree. */
  ghost predicate Crosses(s: State, u: nat, w: nat, x: nat)
    requires Ranked(s.header, s.tree)
  {
    w < |s.header| && x in Chain(s.header, s.tree, w) && !Above(s.tree, x, u)
  }

  ghost predicate Shape(g: Cfg, s: State) {
    && ValidCfg(g) && ValidTree(g, s.tree)
    && |s.pos| == |s.header| == |s.isHeader| == |s.reentry| == |s.irreducible| == |g|
    && |s.num| == |s.done| == |g|
    && (forall b: nat :: b in s.seen <==> b < |g| && s.tree[b] != [])
    && Ranked(s.header, s.tree)
  }

  ghost predicate PathInv(g: Cfg, s: State)
    requires Shape(g, s)
  {
    && (forall i :: 0 <= i < |s.path| ==>
         s.path[i] < |g| && s.pos[s.path[i]] == i + 1 && s.tree[s.path[i]] == s.path[..i + 1])
    && (forall b :: 0 <= b < |g| && s.pos[b] > 0 ==> s.pos[b] <= |s.path| && s.path[s.pos[b] - 1] == b)
  }

  ghost predicate DoneInv(g: Cfg, s: State)
    requires Shape(g, s)
  {
    && (forall b :: 0 <= b < |g| ==> s.done[b] <= |g[b]|)
    && (forall b :: 0 <= b < |g| && b !in s.seen ==> s.done[b] == 0)
    && (forall b :: 0 <= b < |g| && b in s.seen && s.pos[b] == 0 ==> s.done[b] == |g[b]|)
    && (forall u: nat, w: nat :: Explored(g, s.done, u, w) ==> w in s.seen && u in s.seen)
  }

  /** Soundness: every link points at a flagged header of a loop around the block. */
  ghost predicate HeaderInv(g: Cfg, s: State)
    requires Shape(g, s)
  {
    forall b {:trigger s.header[b]} :: 0 <= b < |g| && s.header[b] != INVALID_BB_ID ==>
      s.isHeader[s.header[b]] && InLoop(g, s.tree, b, s.header[b])
  }

  /** A path block above the target of an examined edge is above its source too. */
  ghost predicate OpenInv(g: Cfg, s: State)
    requires Shape(g, s)
  {
    forall u: nat, w: nat, c: nat :: Explored(g, s.done, u, w) && c < |g| && s.pos[c] > 0 && Above(s.tree, c, w) ==>
      Above(s.tree, c, u)
  }

  ghost predicate LeadsTo(g: Cfg, s: State, u: nat, w: nat, h: nat)
    requires Shape(g, s)
  {
    w < |g| && OnChain(s.header, s.tree, w, h) && Above(s.tree, h, u) && h != u
  }

  /** Completeness: a header that an examined edge leads to is on the chain of its source. */
  ghost predicate ClosedInv(g: Cfg, s: State)
    requires Shape(g, s)
  {
    forall u: nat, w: nat, h: nat :: Explored(g, s.done, u, w) && LeadsTo(g, s, u, w, h) ==>
      h in Chain(s.header, s.tree, u)
  }

  ghost predicate FlagInv(g: Cfg, s: State)
    requires Shape(g, s)
  {
    && (forall h :: 0 <= h < |g| ==>
         (s.isHeader[h] <==> exists u: nat :: Explored(g, s.done, u, h) && Above(s.tree, h, u)))
    && (forall w :: 0 <= w < |g| ==>
         (s.reentry[w] <==> exists u: nat, x: nat :: Explored(g, s.done, u, w) && Crosses(s, u, w, x)))
    && (forall x :: 0 <= x < |g| ==>
         (s.irreducible[x] <==> exists u: nat, w: nat :: Explored(g, s.done, u, w) && Crosses(s, u, w, x)))
  }

  /** Discovery numbers are a preorder of the tree, and no examined edge leads to a later block
      outside the subtree of its source. */
  ghost predicate NumInv(g: Cfg, s: State)
    requires Shape(g, s)
  {
    && (forall b: nat :: b in s.seen ==> s.num[b] < |s.seen|)
    && (forall a: nat, b: nat :: a in s.seen && b in s.seen && s.num[a] == s.num[b] ==> a == b)
    && (forall a: nat, b: nat :: a < |g| && Above(s.tree, a, b) ==> s.num[a] <= s.num[b])
    && (forall c: nat, x: nat :: c < |g| && s.pos[c] > 0 && x in s.seen && s.num[c] <= s.num[x] ==> Above(s.tree, c, x))
    && (forall u: nat, w: nat :: Explored(g, s.done, u, w) && w < |g| && s.num[w] > s.num[u] ==> Above(s.tree, u, w))
  }

  ghost predicate Inv(g: Cfg, s: State) {
    && Shape(g, s) && PathInv(g, s) && DoneInv(g, s) && HeaderInv(g, s)
    && OpenInv(g, s) && ClosedInv(g, s) && FlagInv(g, s) && NumInv(g, s)
  }

  // ----- consequences -----

  lemma OnPath(g: Cfg, s: State, b: nat, c: nat)
    requires Shape(g, s) && PathInv(g, s) && b < |g| && s.pos[b] > 0
    ensures b in s.seen && s.pos[b] == |s.tree[b]|
    ensures Above(s.tree, c, b) ==> c < |g| && s.pos[c] > 0
    ensures c < |g| && 0 < s.pos[c] <= s.pos[b] ==> Above(s.tree, c, b)
  {
    var i := s.pos[b] - 1;
    assert s.path[i] == b && s.tree[b] == s.path[..i + 1];
    if Above(s.tree, c, b) {
      var j :| 0 <= j < |s.tree[b]| && s.tree[b][j] == c;
      assert s.path[j] == c;
    }
    if c < |g| && 0 < s.pos[c] <= s.pos[b] {
      assert s.tree[b][s.pos[c] - 1] == c;
    }
  }

  lemma PathIsRanked(g: Cfg, s: State)
    requires Shape(g, s) && PathInv(g, s) && HeaderInv(g, s)
    ensures PathRanked(s.header, s.tree, s.pos)
  {
    forall a | 0 <= a < |g| && s.pos[a] > 0
      ensures s.pos[a] == |s.tree[a]|
      ensures s.header[a] != INVALID_BB_ID ==> s.pos[s.header[a]] > 0
    {
      OnPath(g, s, a, s.header[a]);
    }
  }

  /** Every header on a chain is flagged and heads a loop around the block. */
  lemma {:induction false} ChainInLoop(g: Cfg, s: State, b: nat, c: nat)
    requires Shape(g, s) && HeaderInv(g, s) && b < |g| && c in Chain(s.header, s.tree, b)
    ensures c < |g| && s.isHeader[c] && InLoop(g, s.tree, b, c)
    decreases |s.tree[b]|
  {
    var h := s.header[b];
    if c != h {
      ChainInLoop(g, s, h, c);
      ChainDepth(s.header, s.tree, b, c);
      AboveTransitive(g, s.tree, c, h, b);
      WithinWiden(g, s.tree, c, h, b, h);
      WithinCompose(g, s.tree, c, b, h, c);
    } else {
      AboveFacts(g, s.tree, h, b);
    }
  }

  lemma ChainOnPath(g: Cfg, s: State, b: nat, c: nat)
    requires Shape(g, s) && PathInv(g, s) && HeaderInv(g, s)
    requires b < |g| && s.pos[b] > 0 && c in Chain(s.header, s.tree, b)
    ensures c < |g| && s.pos[c] > 0
  {
    ChainInLoop(g, s, b, c);
    OnPath(g, s, b, c);
  }

  // ----- examining one edge -----

  /** A block that may be tagged onto the path block `b`: none, `b` itself, or a path block above it. */
  ghost predicate Taggable(s: State, b: nat, r: nat) {
    && PathRanked(s.header, s.tree, s.pos)
    && b < |s.pos| && s.pos[b] > 0
    && (r != INVALID_BB_ID ==> r < |s.pos| && s.pos[r] > 0 && (r != b ==> s.pos[r] < s.pos[b]))
  }

  /** The header links after tagging `b` with `r`. */
  ghost function Tagged(s: State, b: nat, r: nat): seq<nat>
    requires Taggable(s, b, r)
  {
    if r == INVALID_BB_ID || r == b then s.header else Merge(s.header, s.tree, s.pos, b, r)
  }

  /** `r` is what the edge from `b` to `w` tags `b` with: the deepest path block among `w` and its
      chain, if there is one. */
  ghost predicate Target(g: Cfg, s: State, b: nat, w: nat, r: nat)
    requires Shape(g, s)
  {
    && w < |g|
    && (r != INVALID_BB_ID ==> r < |g| && s.pos[r] > 0 && OnChain(s.header, s.tree, w, r))
    && (forall h: nat :: h < |g| && s.pos[h] > 0 && OnChain(s.header, s.tree, w, h) ==>
         r != INVALID_BB_ID && OnChain(s.header, s.tree, r, h))
  }

  /** The flags of `s'` are those of `s` with the marks for an edge to `w` added. */
  ghost predicate Flagged(g: Cfg, s: State, s': State, w: nat)
    requires Shape(g, s) && w < |g|
  {
    && |s'.isHeader| == |s'.reentry| == |s'.irreducible| == |g|
    && (forall h :: 0 <= h < |g| ==> (s'.isHeader[h] <==> s.isHeader[h] || (h == w && s.pos[w] > 0)))
    && (forall v :: 0 <= v < |g| ==>
         (s'.reentry[v] <==> s.reentry[v] || (v == w && s.header[w] != INVALID_BB_ID && s.pos[s.header[w]] == 0)))
    && (forall x :: 0 <= x < |g| ==>
         (s'.irreducible[x] <==> s.irreducible[x] || (x in Chain(s.header, s.tree, w) && s.pos[x] == 0)))
  }

  /** The effect of examining the next out-edge of the last path block, whose target is known. */
  ghost predicate EdgeStep(g: Cfg, s: State, s': State, b: nat, w: nat, r: nat) {
    && Inv(g, s)
    && s.path != [] && b == s.path[|s.path| - 1] && s.done[b] < |g[b]| && w == g[b][s.done[b]] && w in s.seen
    && Target(g, s, b, w, r) && Taggable(s, b, r)
    && s' == s.(header := Tagged(s, b, r), done := s.done[b := s.done[b] + 1],
                isHeader := s'.isHeader, reentry := s'.reentry, irreducible := s'.irreducible)
    && Flagged(g, s, s', w)
  }

  lemma TaggedRanked(s: State, b: nat, r: nat)
    requires Taggable(s, b, r)
    ensures PathRanked(Tagged(s, b, r), s.tree, s.pos)
  {
    if r != INVALID_BB_ID && r != b {
      MergeChain(s.header, s.tree, s.pos, b, r, b, 0);
    }
  }

  /** Tagging drops no header from any chain. */
  lemma TaggedKeeps(s: State, b: nat, r: nat, x: nat, m: nat)
    requires Taggable(s, b, r) && x < |s.header|
    ensures PathRanked(Tagged(s, b, r), s.tree, s.pos)
    ensures m in Chain(s.header, s.tree, x) ==> m in Chain(Tagged(s, b, r), s.tree, x)
  {
    if r != INVALID_BB_ID && r != b {
      MergeChain(s.header, s.tree, s.pos, b, r, x, m);
    }
  }

  /** A header that tagging adds to the chain of `x` is a path block, properly above some path
      block `c` that was `x` or on its chain, and `b` leads back to it. */
  lemma TaggedGain(g: Cfg, s: State, b: nat, w: nat, r: nat, x: nat, m: nat) returns (c: nat)
    requires Shape(g, s) && PathInv(g, s) && HeaderInv(g, s) && Taggable(s, b, r) && x < |g|
    requires s.path != [] && b == s.path[|s.path| - 1] && w < |g| && w in g[b]
    requires Target(g, s, b, w, r)
    requires PathRanked(Tagged(s, b, r), s.tree, s.pos)
    requires m in Chain(Tagged(s, b, r), s.tree, x) && m !in Chain(s.header, s.tree, x)
    ensures r != INVALID_BB_ID && r != b
    ensures c < |g| && s.pos[c] > 0 && OnChain(s.header, s.tree, x, c) && c in Both(s.header, s.tree, b, r)
    ensures m < |g| && s.pos[m] > 0 && m in Both(s.header, s.tree, b, r)
    ensures Above(s.tree, m, c) && m != c && m != b && |s.tree[m]| < |s.tree[c]|
  {
    MergeChain(s.header, s.tree, s.pos, b, r, x, m);
    var both := Both(s.header, s.tree, b, r);
    c :| c in both && c < |s.tree| && OnChain(s.header, s.tree, x, c) && |s.tree[m]| < |s.tree[c]|;
    BothOnPath(g, s, b, r, c);
    BothOnPath(g, s, b, r, m);
    OnPath(g, s, c, m);
    OnPath(g, s, m, c);
    if c != b {
      BothDepth(s.header, s.tree, b, r, c);
    }
  }

  lemma BothOnPath(g: Cfg, s: State, b: nat, r: nat, m: nat)
    requires Shape(g, s) && PathInv(g, s) && HeaderInv(g, s) && Taggable(s, b, r) && r != INVALID_BB_ID
    requires m in Both(s.header, s.tree, b, r)
    ensures m < |g| && s.pos[m] > 0
  {
    if m in Chain(s.header, s.tree, b) {
      ChainOnPath(g, s, b, m);
    } else if m in Chain(s.header, s.tree, r) {
      ChainOnPath(g, s, r, m);
    }
  }

  /** Every member of the merged chains is `b` itself or heads a loop around `b`; it is flagged
      unless it is the edge's own target. */
  lemma BothInLoop(g: Cfg, s: State, b: nat, w: nat, r: nat, m: nat)
    requires Shape(g, s) && PathInv(g, s) && HeaderInv(g, s) && Taggable(s, b, r) && Target(g, s, b, w, r)
    requires r != INVALID_BB_ID && r != b && b < |g| && w in g[b]
    requires m in Both(s.header, s.tree, b, r) && m != b
    ensures m < |g| && (s.isHeader[m] || m == w) && InLoop(g, s.tree, b, m)
  {
    hide PathInv, HeaderInv;
    if m in Chain(s.header, s.tree, b) {
      ChainInLoop(g, s, b, m);
    } else {
      BothOnPath(g, s, b, r, m);
      BothDepth(s.header, s.tree, b, r, m);
      OnPath(g, s, b, m);
      if w == m {
        AboveFacts(g, s.tree, m, b);
      } else {
        if m != r && r != w {
          ChainTransitive(s.header, s.tree, w, r);
        }
        ChainInLoop(g, s, w, m);
      }
      BackEdge(g, s.tree, b, w, m);
    }
  }

  lemma BackEdge(g: Cfg, t: Tree, b: nat, w: nat, m: nat)
    requires b < |g| && w < |g| && w in g[b] && Above(t, m, b) && m != b
    requires if w == m then Above(t, m, m) else InLoop(g, t, w, m)
    ensures InLoop(g, t, b, m)
  {
    WithinEdge(g, t, m, b, w);
    if w != m {
      WithinCompose(g, t, m, b, w, m);
    }
  }

  lemma EdgeHeaderInv(g: Cfg, s: State, s': State, b: nat, w: nat, r: nat)
    requires EdgeStep(g, s, s', b, w, r)
    ensures Shape(g, s') && HeaderInv(g, s')
  {
    TaggedRanked(s, b, r);
    forall x | 0 <= x < |g| && s'.header[x] != INVALID_BB_ID
      ensures s'.isHeader[s'.header[x]] && InLoop(g, s.tree, x, s'.header[x])
    {
      var m := s'.header[x];
      assert m in Chain(s'.header, s.tree, x);
      if m in Chain(s.header, s.tree, x) {
        ChainInLoop(g, s, x, m);
      } else {
        var c := TaggedGain(g, s, b, w, r, x, m);
        BothInLoop(g, s, b, w, r, m);
        OnPath(g, s, b, c);
        GainInLoop(g, s, b, x, c, m);
      }
    }
  }

  lemma GainInLoop(g: Cfg, s: State, b: nat, x: nat, c: nat, m: nat)
    requires Shape(g, s) && HeaderInv(g, s) && x < |g| && OnChain(s.header, s.tree, x, c)
    requires Above(s.tree, m, c) && Above(s.tree, c, b) && m != c
    requires InLoop(g, s.tree, b, m)
    ensures InLoop(g, s.tree, x, m)
  {
    var t := s.tree;
    AboveFacts(g, t, m, c);
    WithinTree(g, t, m, c, b);
    WithinCompose(g, t, m, c, b, m);
    if c != x {
      ChainInLoop(g, s, x, c);
      AboveTransitive(g, t, m, c, x);
      AboveFacts(g, t, c, x);
      WithinWiden(g, t, m, c, x, c);
      WithinCompose(g, t, m, x, c, m);
    }
  }

  lemma EdgeExplored(g: Cfg, done: seq<nat>, b: nat, u: nat, v: nat)
    requires |done| == |g| && b < |g| && done[b] < |g[b]|
    ensures Explored(g, done[b := done[b] + 1], u, v) <==>
      Explored(g, done, u, v) || (u == b && v == g[b][done[b]])
  {
  }

  lemma EdgeShape(g: Cfg, s: State, s': State, b: nat, w: nat, r: nat)
    requires EdgeStep(g, s, s', b, w, r)
    ensures Shape(g, s') && PathInv(g, s')
  {
    hide HeaderInv, OpenInv, ClosedInv, FlagInv, NumInv, DoneInv;
    TaggedRanked(s, b, r);
  }

  /** `s'` differs from `s` only in its flags, links and one more examined edge of `b`. */
  ghost predicate OneMoreEdge(g: Cfg, s: State, s': State, b: nat) {
    && Shape(g, s) && Shape(g, s') && b < |g| && s.pos[b] > 0 && b in s.seen && s.done[b] < |g[b]|
    && s'.seen == s.seen && s'.pos == s.pos && s'.tree == s.tree && s'.num == s.num && s'.path == s.path
    && s'.done == s.done[b := s.done[b] + 1]
  }

  lemma EdgeDoneInv(g: Cfg, s: State, s': State, b: nat)
    requires OneMoreEdge(g, s, s', b) && DoneInv(g, s) && g[b][s.done[b]] in s.seen
    ensures DoneInv(g, s')
  {
    forall u: nat, v: nat | Explored(g, s'.done, u, v)
      ensures v in s.seen && u in s.seen
    {
      EdgeExplored(g, s.done, b, u, v);
    }
  }

  lemma EdgeOpenInv(g: Cfg, s: State, s': State, b: nat, w: nat, r: nat)
    requires EdgeStep(g, s, s', b, w, r)
    ensures Shape(g, s') && OpenInv(g, s')
  {
    hide HeaderInv, ClosedInv, FlagInv, NumInv, DoneInv;
    TaggedRanked(s, b, r);
    forall u: nat, v: nat, c: nat | Explored(g, s'.done, u, v) && c < |g| && s.pos[c] > 0 && Above(s.tree, c, v)
      ensures Above(s.tree, c, u)
    {
      EdgeExplored(g, s.done, b, u, v);
      OnPath(g, s, b, c);
    }
  }

  lemma EdgeNumInv(g: Cfg, s: State, s': State, b: nat)
    requires OneMoreEdge(g, s, s', b) && NumInv(g, s) && g[b][s.done[b]] in s.seen
    ensures NumInv(g, s')
  {
    forall u: nat, v: nat | Explored(g, s'.done, u, v) && v < |g| && s.num[v] > s.num[u]
      ensures Above(s.tree, u, v)
    {
      EdgeExplored(g, s.done, b, u, v);
    }
  }

  lemma EdgeClosedInv(g: Cfg, s: State, s': State, b: nat, w: nat, r: nat)
    requires EdgeStep(g, s, s', b, w, r)
    ensures Shape(g, s') && ClosedInv(g, s')
  {
    TaggedRanked(s, b, r);
    forall u: nat, v: nat, h: nat | Explored(g, s'.done, u, v) && LeadsTo(g, s', u, v, h)
      ensures h in Chain(s'.header, s'.tree, u)
    {
      EdgeExplored(g, s.done, b, u, v);
      if Explored(g, s.done, u, v) {
        OldEdgeClosed(g, s, b, w, r, u, v, h);
      } else {
        NewEdgeClosed(g, s, b, w, r, h);
      }
    }
  }

  lemma OldEdgeClosed(g: Cfg, s: State, b: nat, w: nat, r: nat, u: nat, v: nat, h: nat)
    requires Shape(g, s) && PathInv(g, s) && HeaderInv(g, s) && OpenInv(g, s) && ClosedInv(g, s)
    requires Taggable(s, b, r) && Target(g, s, b, w, r)
    requires s.path != [] && b == s.path[|s.path| - 1] && w in g[b]
    requires Explored(g, s.done, u, v) && v < |g| && Above(s.tree, h, u) && h != u
    requires PathRanked(Tagged(s, b, r), s.tree, s.pos) && OnChain(Tagged(s, b, r), s.tree, v, h)
    ensures h in Chain(Tagged(s, b, r), s.tree, u)
  {
    hide PathInv, HeaderInv, PathRanked;
    if OnChain(s.header, s.tree, v, h) {
      assert LeadsTo(g, s, u, v, h);
      TaggedKeeps(s, b, r, u, h);
    } else {
      var c := TaggedGain(g, s, b, w, r, v, h);
      if c != v {
        ChainInLoop(g, s, v, c);
      } else {
        OnPath(g, s, c, c);
        AboveFacts(g, s.tree, h, c);
      }
      assert Above(s.tree, c, v);
      assert Above(s.tree, c, u);
      if c != u {
        assert LeadsTo(g, s, u, v, c);
      }
      MergeChain(s.header, s.tree, s.pos, b, r, u, h);
      assert Gains(s.header, s.tree, Both(s.header, s.tree, b, r), u, h);
    }
  }

  lemma NewEdgeClosed(g: Cfg, s: State, b: nat, w: nat, r: nat, h: nat)
    requires Shape(g, s) && PathInv(g, s) && HeaderInv(g, s)
    requires Taggable(s, b, r) && Target(g, s, b, w, r)
    requires s.path != [] && b == s.path[|s.path| - 1] && w in g[b]
    requires Above(s.tree, h, b) && h != b
    requires PathRanked(Tagged(s, b, r), s.tree, s.pos) && OnChain(Tagged(s, b, r), s.tree, w, h)
    ensures h in Chain(Tagged(s, b, r), s.tree, b)
  {
    hide PathInv, HeaderInv, PathRanked;
    OnPath(g, s, b, h);
    if !OnChain(s.header, s.tree, w, h) {
      var c := TaggedGain(g, s, b, w, r, w, h);
    }
    if r != b {
      AboveFacts(g, s.tree, h, b);
      assert h in Both(s.header, s.tree, b, r);
      MergeChain(s.header, s.tree, s.pos, b, r, b, h);
      assert Gains(s.header, s.tree, Both(s.header, s.tree, b, r), b, h);
    }
  }

  /** Tagging changes no crossing of an edge that was already examined. */
  lemma OldEdgeCrosses(g: Cfg, s: State, s': State, b: nat, w: nat, r: nat, u: nat, v: nat, x: nat)
    requires EdgeStep(g, s, s', b, w, r) && Shape(g, s') && Explored(g, s.done, u, v)
    ensures Crosses(s', u, v, x) <==> Crosses(s, u, v, x)
  {
    TaggedKeeps(s, b, r, v, x);
    if Crosses(s', u, v, x) && !Crosses(s, u, v, x) {
      var c := TaggedGain(g, s, b, w, r, v, x);
      if c != v {
        ChainInLoop(g, s, v, c);
      } else {
        OnPath(g, s, c, c);
        AboveFacts(g, s.tree, x, c);
      }
      assert Above(s.tree, c, v) && Above(s.tree, c, u);
      AboveTransitive(g, s.tree, x, c, u);
    }
  }

  /** The examined edge itself enters the loops of exactly the off-path headers of its target. */
  lemma NewEdgeCrosses(g: Cfg, s: State, s': State, b: nat, w: nat, r: nat, x: nat)
    requires EdgeStep(g, s, s', b, w, r) && Shape(g, s')
    ensures Crosses(s', b, w, x) <==> x < |g| && x in Chain(s.header, s.tree, w) && s.pos[x] == 0
  {
    TaggedKeeps(s, b, r, w, x);
    OnPath(g, s, b, x);
    if x in Chain(s.header, s.tree, w) {
      ChainDepth(s.header, s.tree, w, x);
    } else if x in Chain(s'.header, s.tree, w) {
      var c := TaggedGain(g, s, b, w, r, w, x);
    }
  }

  lemma EdgeFlagInv(g: Cfg, s: State, s': State, b: nat, w: nat, r: nat)
    requires EdgeStep(g, s, s', b, w, r)
    ensures Shape(g, s') && FlagInv(g, s')
  {
    EdgeShape(g, s, s', b, w, r);
    forall h: nat | h < |g|
      ensures s'.isHeader[h] <==> exists u: nat :: Explored(g, s'.done, u, h) && Above(s.tree, h, u)
    {
      EdgeHeaderFlag(g, s, s', b, w, r, h);
    }
    forall v: nat | v < |g|
      ensures s'.reentry[v] <==> exists u: nat, x: nat :: Explored(g, s'.done, u, v) && Crosses(s', u, v, x)
    {
      EdgeReentryFlag(g, s, s', b, w, r, v);
    }
    forall x: nat | x < |g|
      ensures s'.irreducible[x] <==> exists u: nat, v: nat :: Explored(g, s'.done, u, v) && Crosses(s', u, v, x)
    {
      EdgeIrreducibleFlag(g, s, s', b, w, r, x);
    }
  }

  lemma EdgeHeaderFlag(g: Cfg, s: State, s': State, b: nat, w: nat, r: nat, h: nat)
    requires EdgeStep(g, s, s', b, w, r) && h < |g|
    ensures s'.isHeader[h] <==> exists u: nat :: Explored(g, s'.done, u, h) && Above(s.tree, h, u)
  {
    hide HeaderInv, ClosedInv, OpenInv, NumInv, DoneInv;
    OnPath(g, s, b, h);
    if s.isHeader[h] {
      var u: nat :| Explored(g, s.done, u, h) && Above(s.tree, h, u);
      EdgeExplored(g, s.done, b, u, h);
    }
    EdgeExplored(g, s.done, b, b, w);
    if u: nat :| Explored(g, s'.done, u, h) && Above(s.tree, h, u) {
      EdgeExplored(g, s.done, b, u, h);
    }
  }

  lemma EdgeFacts(g: Cfg, s: State, s': State, b: nat, w: nat, r: nat)
    requires EdgeStep(g, s, s', b, w, r)
    ensures Shape(g, s) && PathInv(g, s) && HeaderInv(g, s) && Ranked(s.header, s.tree)
    ensures |s.done| == |s.header| == |s.pos| == |s.reentry| == |g| && b < |g| && w < |g|
    ensures s.done[b] < |g[b]| && w == g[b][s.done[b]] && s'.done == s.done[b := s.done[b] + 1]
  {
    hide ClosedInv, OpenInv, NumInv, DoneInv, FlagInv, Target, Taggable, Flagged;
  }

  lemma ShapeIsRanked(g: Cfg, s: State)
    requires Shape(g, s)
    ensures Ranked(s.header, s.tree)
  {
  }

  lemma ReentryFacts(g: Cfg, s: State, s': State, b: nat, w: nat, r: nat, v: nat)
    requires EdgeStep(g, s, s', b, w, r) && v < |g|
    ensures Ranked(s.header, s.tree) && |s.header| == |s.pos| == |s.reentry| == |s'.reentry| == |g| && w < |g|
    ensures s.reentry[v] <==> exists u: nat, x: nat :: Explored(g, s.done, u, v) && Crosses(s, u, v, x)
    ensures s.header[w] != INVALID_BB_ID ==> s.header[w] < |g| && s.header[w] in Chain(s.header, s.tree, w)
    ensures s'.reentry[v] <==> s.reentry[v] || (v == w && s.header[w] != INVALID_BB_ID && s.pos[s.header[w]] == 0)
  {
    hide ClosedInv, OpenInv, NumInv, DoneInv, Target, Taggable, Explored, Crosses;
  }

  lemma EdgeReentryFlag(g: Cfg, s: State, s': State, b: nat, w: nat, r: nat, v: nat)
    requires EdgeStep(g, s, s', b, w, r) && Shape(g, s') && v < |g|
    ensures s'.reentry[v] <==> exists u: nat, x: nat :: Explored(g, s'.done, u, v) && Crosses(s', u, v, x)
  {
    hide EdgeStep, Shape, PathInv, HeaderInv, Explored, Crosses, FlagInv;
    EdgeFacts(g, s, s', b, w, r);
    ShapeIsRanked(g, s');
    ReentryFacts(g, s, s', b, w, r, v);
    if s.reentry[v] {
      var u: nat, x: nat :| Explored(g, s.done, u, v) && Crosses(s, u, v, x);
      EdgeExplored(g, s.done, b, u, v);
      OldEdgeCrosses(g, s, s', b, w, r, u, v, x);
    }
    EdgeExplored(g, s.done, b, b, w);
    if v == w && s.header[w] != INVALID_BB_ID {
      NewEdgeCrosses(g, s, s', b, w, r, s.header[w]);
    }
    if u: nat, x: nat :| Explored(g, s'.done, u, v) && Crosses(s', u, v, x) {
      EdgeExplored(g, s.done, b, u, v);
      if Explored(g, s.done, u, v) {
        OldEdgeCrosses(g, s, s', b, w, r, u, v, x);
      } else {
        NewEdgeCrosses(g, s, s', b, w, r, x);
        FirstOffPath(g, s, w, x);
      }
    }
  }

  /** If any header on a chain is off the path then so is the first one. */
  lemma FirstOffPath(g: Cfg, s: State, w: nat, x: nat)
    requires Shape(g, s) && PathInv(g, s) && HeaderInv(g, s)
    requires w < |g| && x in Chain(s.header, s.tree, w) && x < |g| && s.pos[x] == 0
    ensures s.header[w] != INVALID_BB_ID && s.pos[s.header[w]] == 0
  {
    if s.pos[s.header[w]] > 0 && x != s.header[w] {
      ChainOnPath(g, s, s.header[w], x);
    }
  }

  lemma EdgeIrreducibleFlag(g: Cfg, s: State, s': State, b: nat, w: nat, r: nat, x: nat)
    requires EdgeStep(g, s, s', b, w, r) && Shape(g, s') && x < |g|
    ensures s'.irreducible[x] <==> exists u: nat, v: nat :: Explored(g, s'.done, u, v) && Crosses(s', u, v, x)
  {
    hide HeaderInv, PathInv, ClosedInv, OpenInv, NumInv, DoneInv;
    if s.irreducible[x] {
      var u: nat, v: nat :| Explored(g, s.done, u, v) && Crosses(s, u, v, x);
      EdgeExplored(g, s.done, b, u, v);
      OldEdgeCrosses(g, s, s', b, w, r, u, v, x);
    }
    EdgeExplored(g, s.done, b, b, w);
    NewEdgeCrosses(g, s, s', b, w, r, x);
    if u: nat, v: nat :| Explored(g, s'.done, u, v) && Crosses(s', u, v, x) {
      EdgeExplored(g, s.done, b, u, v);
      if Explored(g, s.done, u, v) {
        OldEdgeCrosses(g, s, s', b, w, r, u, v, x);
      }
    }
  }

  /** Examining an edge keeps the whole invariant. */
  lemma EdgeKeepsInv(g: Cfg, s: State, s': State, b: nat, w: nat, r: nat)
    requires EdgeStep(g, s, s', b, w, r)
    ensures Inv(g, s')
  {
    EdgeShape(g, s, s', b, w, r);
    OnPath(g, s, b, b);
    EdgeDoneInv(g, s, s', b);
    EdgeNumInv(g, s, s', b);
    EdgeHeaderInv(g, s, s', b, w, r);
    EdgeOpenInv(g, s, s', b, w, r);
    EdgeClosedInv(g, s, s', b, w, r);
    EdgeFlagInv(g, s, s', b, w, r);
  }

  // ----- discovering and leaving a block -----

  ghost function Discover(s: State, b: nat): State
    requires b < |s.pos| && |s.tree| == |s.num| == |s.pos|
  {
    s.(seen := s.seen + {b}, pos := s.pos[b := |s.path| + 1], tree := s.tree[b := s.path + [b]],
       num := s.num[b := |s.seen|], path := s.path + [b])
  }

  /** `b` is undiscovered and is the entry block or a successor of the last path block. */
  ghost predicate CanDiscover(g: Cfg, s: State, b: nat)
  {
    && b < |g| && b !in s.seen
    && (if s.path == [] then b == 0 else s.path[|s.path| - 1] < |g| && b in g[s.path[|s.path| - 1]])
  }

  ghost function Leave(s: State): State
    requires s.path != [] && s.path[|s.path| - 1] < |s.pos|
  {
    s.(pos := s.pos[s.path[|s.path| - 1] := 0], path := s.path[..|s.path| - 1])
  }

  /** An undiscovered block is nobody's ancestor and has no header. */
  lemma Undiscovered(g: Cfg, s: State, b: nat, x: nat)
    requires Shape(g, s) && b < |g| && b !in s.seen
    ensures !Above(s.tree, b, x) && !Above(s.tree, x, b)
    ensures HeaderInv(g, s) ==> s.header[b] == INVALID_BB_ID
  {
    if Above(s.tree, b, x) {
      AboveFacts(g, s.tree, b, x);
    }
  }

  lemma DiscoverTree(g: Cfg, s: State, b: nat)
    requires Shape(g, s) && PathInv(g, s) && CanDiscover(g, s, b)
    ensures ValidTree(g, s.tree[b := s.path + [b]])
  {
    var t, t' := s.tree, s.tree[b := s.path + [b]];
    forall x | 0 <= x < |t| && t'[x] != []
      ensures TreePath(g, t', x)
    {
      if x == b {
        DiscoverTreePath(g, s, b);
      } else {
        assert TreePath(g, t, x);
        assert forall i :: 0 <= i < |t[x]| ==> t[x][i] != b;
      }
    }
  }

  /** The tree path of a block, extended along an edge to a block that has none, is a tree path. */
  lemma ExtendPath(g: Cfg, t: Tree, path: seq<nat>, b: nat)
    requires |t| == |g| && b < |g| && t[b] == []
    requires if path == [] then b == 0
      else
        var u := path[|path| - 1];
        u < |g| && t[u] == path && TreePath(g, t, u) && b in g[u]
    requires forall i :: 0 <= i < |path| ==> path[i] != b
    ensures TreePath(g, t[b := path + [b]], b)
  {
    var p := path + [b];
    var u := t[b := p];
    forall i | 0 <= i < |p|
      ensures p[i] < |u| && u[p[i]] == p[..i + 1]
    {
      if i < |path| {
        assert p[..i + 1] == path[..i + 1];
      } else {
        assert p[..i + 1] == p;
      }
    }
  }

  lemma DiscoverTreePath(g: Cfg, s: State, b: nat)
    requires Shape(g, s) && PathInv(g, s) && CanDiscover(g, s, b)
    ensures TreePath(g, s.tree[b := s.path + [b]], b)
  {
    hide TreePath, Ranked, ValidCfg;
    if s.path != [] {
      var l := s.path[|s.path| - 1];
      assert s.path[..|s.path|] == s.path;
      assert s.tree[l] == s.path;
      assert TreePath(g, s.tree, l);
    }
    forall i | 0 <= i < |s.path|
      ensures s.path[i] != b
    {
      assert s.tree[s.path[i]] == s.path[..i + 1];
    }
    ExtendPath(g, s.tree, s.path, b);
  }

  lemma DiscoverShape(g: Cfg, s: State, b: nat)
    requires Shape(g, s) && PathInv(g, s) && HeaderInv(g, s) && CanDiscover(g, s, b)
    ensures Shape(g, Discover(s, b))
  {
    DiscoverTree(g, s, b);
    hide ValidTree, ValidCfg, PathInv;
    Undiscovered(g, s, b, b);
    forall x | 0 <= x < |g| && s.header[x] != INVALID_BB_ID
      ensures s.header[x] != b && x != b
    {
      Undiscovered(g, s, b, x);
    }
  }

  lemma DiscoverPath(g: Cfg, s: State, b: nat)
    requires Shape(g, s) && PathInv(g, s) && CanDiscover(g, s, b) && Shape(g, Discover(s, b))
    ensures PathInv(g, Discover(s, b))
  {
    hide ValidCfg, Ranked;
    var s' := Discover(s, b);
    forall i | 0 <= i < |s'.path|
      ensures s'.path[i] < |g| && s'.pos[s'.path[i]] == i + 1 && s'.tree[s'.path[i]] == s'.path[..i + 1]
    {
      if i < |s.path| {
        OnPath(g, s, s.path[i], b);
        assert s'.path[..i + 1] == s.path[..i + 1];
      }
    }
  }

  lemma DiscoverDone(g: Cfg, s: State, b: nat)
    requires Shape(g, s) && DoneInv(g, s) && CanDiscover(g, s, b) && Shape(g, Discover(s, b))
    ensures DoneInv(g, Discover(s, b))
  {
    hide ValidTree, ValidCfg, Ranked;
  }

  lemma DiscoverWalk(g: Cfg, t: Tree, b: nat, p: seq<nat>, x: nat, h: nat)
    requires b < |t| && t[b] == [] && InLoop(g, t, x, h)
    ensures InLoop(g, t[b := p], x, h)
  {
    var q :| Walk(g, t, h, q) && q[0] == x && q[|q| - 1] == h;
    assert Walk(g, t[b := p], h, q);
  }

  lemma DiscoverHeaders(g: Cfg, s: State, b: nat)
    requires Shape(g, s) && PathInv(g, s) && HeaderInv(g, s) && CanDiscover(g, s, b)
    ensures Shape(g, Discover(s, b)) && HeaderInv(g, Discover(s, b))
  {
    DiscoverShape(g, s, b);
    forall x | 0 <= x < |g| && s.header[x] != INVALID_BB_ID
      ensures InLoop(g, s.tree[b := s.path + [b]], x, s.header[x])
    {
      DiscoverWalk(g, s.tree, b, s.path + [b], x, s.header[x]);
    }
  }

  lemma DiscoverChain(g: Cfg, s: State, b: nat, x: nat)
    requires Shape(g, s) && CanDiscover(g, s, b) && Shape(g, Discover(s, b)) && x < |g|
    ensures Chain(s.header, Discover(s, b).tree, x) == Chain(s.header, s.tree, x)
    ensures !Above(s.tree, b, x)
    ensures forall a: nat :: x != b ==> (Above(Discover(s, b).tree, a, x) <==> Above(s.tree, a, x))
  {
    ChainFrame(s.header, s.tree, Discover(s, b).tree, x);
    Undiscovered(g, s, b, x);
  }

  lemma DiscoverChains(g: Cfg, s: State, b: nat)
    requires Shape(g, s) && CanDiscover(g, s, b) && Shape(g, Discover(s, b))
    requires DoneInv(g, s) && OpenInv(g, s) && ClosedInv(g, s)
    ensures OpenInv(g, Discover(s, b)) && ClosedInv(g, Discover(s, b))
  {
    var s' := Discover(s, b);
    hide ValidTree, ValidCfg, Ranked, Above;
    forall u: nat, w: nat, c: nat | Explored(g, s.done, u, w) && c < |g| && s'.pos[c] > 0 && Above(s'.tree, c, w)
      ensures Above(s'.tree, c, u)
    {
      DiscoverChain(g, s, b, u);
      DiscoverChain(g, s, b, w);
    }
    forall u: nat, w: nat, h: nat | Explored(g, s.done, u, w) && LeadsTo(g, s', u, w, h)
      ensures h in Chain(s'.header, s'.tree, u)
    {
      DiscoverChain(g, s, b, u);
      DiscoverChain(g, s, b, w);
      assert LeadsTo(g, s, u, w, h);
    }
  }

  lemma DiscoverFlags(g: Cfg, s: State, b: nat)
    requires Shape(g, s) && CanDiscover(g, s, b) && Shape(g, Discover(s, b))
    requires DoneInv(g, s) && FlagInv(g, s)
    ensures FlagInv(g, Discover(s, b))
  {
    var s' := Discover(s, b);
    hide ValidTree, ValidCfg, Ranked, Above;
    forall u: nat, w: nat, x: nat | Explored(g, s.done, u, w)
      ensures Crosses(s', u, w, x) <==> Crosses(s, u, w, x)
      ensures Above(s'.tree, x, u) <==> Above(s.tree, x, u)
    {
      DiscoverChain(g, s, b, u);
      DiscoverChain(g, s, b, w);
    }
  }

  lemma DiscoverNum(g: Cfg, s: State, b: nat)
    requires Shape(g, s) && PathInv(g, s) && DoneInv(g, s) && NumInv(g, s)
    requires CanDiscover(g, s, b) && Shape(g, Discover(s, b))
    ensures NumInv(g, Discover(s, b))
  {
    var s' := Discover(s, b);
    hide ValidTree, ValidCfg, Ranked;
    assert |s'.seen| == |s.seen| + 1;
    forall a: nat, x: nat | a < |g| && Above(s'.tree, a, x)
      ensures s'.num[a] <= s'.num[x]
    {
      DiscoverOrder(g, s, b, a, x);
    }
    forall c: nat, x: nat | c < |g| && s'.pos[c] > 0 && x in s'.seen && s'.num[c] <= s'.num[x]
      ensures Above(s'.tree, c, x)
    {
      DiscoverBelow(g, s, b, c, x);
    }
  }

  lemma DiscoverOrder(g: Cfg, s: State, b: nat, a: nat, x: nat)
    requires Shape(g, s) && PathInv(g, s) && NumInv(g, s) && CanDiscover(g, s, b)
    requires a < |g| && Above(Discover(s, b).tree, a, x)
    ensures Discover(s, b).num[a] <= Discover(s, b).num[x]
  {
    hide ValidCfg, Ranked;
    if x != b {
      Undiscovered(g, s, b, x);
    } else if a != b {
      var i :| 0 <= i < |s.path| && s.path[i] == a;
      OnPath(g, s, a, a);
    }
  }

  lemma DiscoverBelow(g: Cfg, s: State, b: nat, c: nat, x: nat)
    requires Shape(g, s) && PathInv(g, s) && NumInv(g, s) && CanDiscover(g, s, b)
    requires c < |g| && Discover(s, b).pos[c] > 0 && x in Discover(s, b).seen
    requires Discover(s, b).num[c] <= Discover(s, b).num[x]
    ensures Above(Discover(s, b).tree, c, x)
  {
    hide ValidCfg, Ranked;
    if c == b {
      assert x == b;
    } else if x == b {
      assert s.path[s.pos[c] - 1] == c;
    }
  }

  lemma DiscoverKeepsInv(g: Cfg, s: State, b: nat)
    requires Inv(g, s) && CanDiscover(g, s, b)
    ensures Inv(g, Discover(s, b))
  {
    DiscoverShape(g, s, b);
    DiscoverPath(g, s, b);
    DiscoverDone(g, s, b);
    DiscoverHeaders(g, s, b);
    DiscoverChains(g, s, b);
    DiscoverFlags(g, s, b);
    DiscoverNum(g, s, b);
  }

  lemma LeavePath(g: Cfg, s: State)
    requires Shape(g, s) && PathInv(g, s) && s.path != []
    ensures Shape(g, Leave(s)) && PathInv(g, Leave(s))
  {
    hide ValidCfg, Ranked;
    var s' := Leave(s);
    forall i | 0 <= i < |s'.path|
      ensures s'.path[i] < |g| && s'.pos[s'.path[i]] == i + 1 && s'.tree[s'.path[i]] == s'.path[..i + 1]
    {
      assert s'.path[..i + 1] == s.path[..i + 1];
    }
  }

  lemma LeaveFlags(g: Cfg, s: State)
    requires Shape(g, s) && FlagInv(g, s) && s.path != [] && s.path[|s.path| - 1] < |g| && Shape(g, Leave(s))
    ensures FlagInv(g, Leave(s))
  {
    hide ValidCfg;
    assert forall u: nat, v: nat, x: nat :: Crosses(Leave(s), u, v, x) <==> Crosses(s, u, v, x);
  }

  /** A block whose out-edges are all examined can be taken off the path. */
  lemma LeaveKeepsInv(g: Cfg, s: State)
    requires Inv(g, s) && s.path != [] && s.path[|s.path| - 1] < |g|
    requires s.done[s.path[|s.path| - 1]] == |g[s.path[|s.path| - 1]]|
    ensures Inv(g, Leave(s))
  {
    LeavePath(g, s);
    LeaveFlags(g, s);
    LeaveRest(g, s);
  }

  lemma LeaveRest(g: Cfg, s: State)
    requires Shape(g, s) && s.path != [] && s.path[|s.path| - 1] < |g| && Shape(g, Leave(s))
    requires s.done[s.path[|s.path| - 1]] == |g[s.path[|s.path| - 1]]|
    requires DoneInv(g, s) && HeaderInv(g, s) && OpenInv(g, s) && ClosedInv(g, s) && NumInv(g, s)
    ensures DoneInv(g, Leave(s)) && HeaderInv(g, Leave(s)) && OpenInv(g, Leave(s)) && ClosedInv(g, Leave(s))
    ensures NumInv(g, Leave(s))
  {
    hide ValidTree, ValidCfg, Ranked, Above, Explored;
    assert forall u: nat, w: nat, h: nat :: LeadsTo(g, Leave(s), u, w, h) <==> LeadsTo(g, s, u, w, h);
  }

  // ----- choosing the block to tag -----

  lemma Sizes(g: Cfg, s: State)
    requires Inv(g, s)
    ensures |s.pos| == |s.header| == |s.isHeader| == |s.reentry| == |s.irreducible| == |g|
    ensures |s.tree| == |s.num| == |s.done| == |g|
    ensures forall b, n :: 0 <= b < |g| && 0 <= n < |g[b]| ==> g[b][n] < |g|
    ensures forall b: nat :: b < |g| && b !in s.seen ==> s.done[b] == 0 && s.pos[b] == 0
    ensures forall b: nat :: b in s.seen ==> b < |g|
    ensures s.path != [] ==> s.path[|s.path| - 1] in s.seen && s.tree[s.path[|s.path| - 1]] == s.path
  {
    hide HeaderInv, OpenInv, ClosedInv, FlagInv, NumInv;
    forall b: nat | b < |g| && b !in s.seen
      ensures s.pos[b] == 0
    {
      if s.pos[b] > 0 {
        OnPath(g, s, b, b);
      }
    }
  }

  lemma CanTag(g: Cfg, s: State, b: nat, r: nat)
    requires Inv(g, s) && s.path != [] && b == s.path[|s.path| - 1]
    requires r != INVALID_BB_ID ==> r < |g| && s.pos[r] > 0
    ensures Taggable(s, b, r)
  {
    hide OpenInv, ClosedInv, FlagInv, NumInv, DoneInv;
    PathIsRanked(g, s);
  }

  /** When every header of an off-path block is on the path, the innermost one is the target. */
  lemma InnermostTarget(g: Cfg, s: State, b: nat, w: nat)
    requires Shape(g, s) && w < |g| && s.pos[w] == 0
    requires forall x: nat :: x in Chain(s.header, s.tree, w) ==> x < |g| && s.pos[x] > 0
    ensures Target(g, s, b, w, s.header[w]) && Flagged(g, s, s, w)
  {
    if s.header[w] != INVALID_BB_ID {
      assert s.header[w] in Chain(s.header, s.tree, w);
    }
  }

  /** A child just left: tag its header. */
  lemma TreeTarget(g: Cfg, s: State, b: nat, w: nat)
    requires Inv(g, s) && s.path != [] && b == s.path[|s.path| - 1]
    requires w < |g| && s.pos[w] == 0 && s.tree[w] == s.path + [w]
    ensures Target(g, s, b, w, s.header[w]) && Taggable(s, b, s.header[w]) && Flagged(g, s, s, w)
  {
    hide HeaderInv, OpenInv, ClosedInv, FlagInv, NumInv, DoneInv;
    forall x: nat | x in Chain(s.header, s.tree, w)
      ensures x < |g| && s.pos[x] > 0
    {
      ChainInLoop(g, s, w, x);
      assert x in s.path;
    }
    InnermostTarget(g, s, b, w);
    CanTag(g, s, b, s.header[w]);
  }

  /** A block on the path: tag it. */
  lemma PathTarget(g: Cfg, s: State, b: nat, w: nat)
    requires Inv(g, s) && s.path != [] && b == s.path[|s.path| - 1]
    requires w < |g| && s.pos[w] > 0
    ensures Target(g, s, b, w, w) && Taggable(s, b, w)
    ensures Flagged(g, s, s.(isHeader := s.isHeader[w := true]), w)
  {
    hide OpenInv, ClosedInv, FlagInv, NumInv, DoneInv;
    forall x: nat | x in Chain(s.header, s.tree, w)
      ensures x < |g| && s.pos[x] > 0
    {
      ChainOnPath(g, s, w, x);
    }
    CanTag(g, s, b, w);
  }

  /** A finished block with no header: nothing to tag. */
  lemma NoTarget(g: Cfg, s: State, b: nat, w: nat)
    requires Inv(g, s) && s.path != [] && b == s.path[|s.path| - 1]
    requires w < |g| && s.pos[w] == 0 && s.header[w] == INVALID_BB_ID
    ensures Target(g, s, b, w, INVALID_BB_ID) && Taggable(s, b, INVALID_BB_ID) && Flagged(g, s, s, w)
  {
    InnermostTarget(g, s, b, w);
    CanTag(g, s, b, INVALID_BB_ID);
  }

  /** A finished block with a header on the path: tag that header. */
  lemma HeaderTarget(g: Cfg, s: State, b: nat, w: nat)
    requires Inv(g, s) && s.path != [] && b == s.path[|s.path| - 1]
    requires w < |g| && s.pos[w] == 0 && s.header[w] != INVALID_BB_ID && s.pos[s.header[w]] > 0
    ensures Target(g, s, b, w, s.header[w]) && Taggable(s, b, s.header[w]) && Flagged(g, s, s, w)
  {
    hide HeaderInv, PathInv, OpenInv, ClosedInv, FlagInv, NumInv, DoneInv;
    forall x: nat | x in Chain(s.header, s.tree, w)
      ensures x < |g| && s.pos[x] > 0
    {
      if x != s.header[w] {
        ChainOnPath(g, s, s.header[w], x);
      }
    }
    InnermostTarget(g, s, b, w);
    CanTag(g, s, b, s.header[w]);
  }
}
