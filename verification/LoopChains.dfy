/** Header chains of the loop analysis: depth-first trees, the chain of loop headers
    above a block, and the in-place merge of two chains. */
module LoopChains {
  import opened Common

  /** Successor lists: `g[b]` holds the successors of block `b`. */
  type Cfg = seq<seq<nat>>

  /** `t[b]` is the tree path from the entry block to `b`, or `[]` when `b` is undiscovered. */
  type Tree = seq<seq<nat>>

  ghost predicate ValidCfg(g: Cfg) {
    && |g| <= INVALID_BB_ID
    && forall b, k :: 0 <= b < |g| && 0 <= k < |g[b]| ==> g[b][k] < |g|
  }

  ghost predicate TreePath(g: Cfg, t: Tree, x: nat)
    requires |t| == |g| && x < |t|
  {
    && t[x] != [] && t[x][0] == 0 && t[x][|t[x]| - 1] == x
    && (forall i :: 0 <= i < |t[x]| ==> t[x][i] < |t| && t[t[x][i]] == t[x][..i + 1])
    && (forall i, j :: 0 <= i < j < |t[x]| && j == i + 1 ==> t[x][j] in g[t[x][i]])
  }

  /** Every recorded tree path follows edges of the graph and agrees with the tree paths of
      the blocks on it. */
  ghost predicate ValidTree(g: Cfg, t: Tree) {
    |t| == |g| && forall x {:trigger TreePath(g, t, x)} :: 0 <= x < |t| && t[x] != [] ==> TreePath(g, t, x)
  }

  /** `a` is an ancestor of `b`, or `b` itself. */
  ghost predicate Above(t: Tree, a: nat, b: nat) {
    b < |t| && a in t[b]
  }

  lemma AboveFacts(g: Cfg, t: Tree, a: nat, b: nat)
    requires ValidTree(g, t) && Above(t, a, b)
    ensures a < |t| && t[a] != [] && |t[a]| <= |t[b]| && t[a] == t[b][..|t[a]|]
    ensures |t[a]| == |t[b]| ==> a == b
    ensures Above(t, b, b) && Above(t, a, a)
  {
    var i :| 0 <= i < |t[b]| && t[b][i] == a;
    assert TreePath(g, t, b);
    assert t[a] == t[b][..i + 1];
    assert TreePath(g, t, a);
    assert t[b][|t[b]| - 1] in t[b];
  }

  lemma AboveTransitive(g: Cfg, t: Tree, a: nat, b: nat, c: nat)
    requires ValidTree(g, t) && Above(t, a, b) && Above(t, b, c)
    ensures Above(t, a, c)
  {
    AboveFacts(g, t, b, c);
    var i :| 0 <= i < |t[b]| && t[b][i] == a;
    assert t[c][i] == a;
  }

  // ----- header chains -----

  /** Following a header link strictly climbs the tree. */
  ghost predicate Ranked(h: seq<nat>, t: Tree) {
    |h| == |t| && forall b {:trigger h[b]} :: 0 <= b < |h| && h[b] != INVALID_BB_ID ==> h[b] < |h| && |t[h[b]]| < |t[b]|
  }

  /** The headers met when following `loop_header_id` from `b`. */
  ghost function Chain(h: seq<nat>, t: Tree, b: nat): set<nat>
    requires Ranked(h, t) && b < |h|
    decreases |t[b]|
  {
    if h[b] == INVALID_BB_ID then {} else {h[b]} + Chain(h, t, h[b])
  }

  /** `b` itself or a header of its chain. */
  ghost predicate OnChain(h: seq<nat>, t: Tree, b: nat, c: nat)
    requires Ranked(h, t) && b < |h|
  {
    c == b || c in Chain(h, t, b)
  }

  lemma {:induction false} ChainDepth(h: seq<nat>, t: Tree, b: nat, c: nat)
    requires Ranked(h, t) && b < |h| && c in Chain(h, t, b)
    ensures c < |h| && |t[c]| < |t[b]|
    decreases |t[b]|
  {
    if c != h[b] {
      ChainDepth(h, t, h[b], c);
    }
  }

  lemma {:induction false} ChainTransitive(h: seq<nat>, t: Tree, b: nat, c: nat)
    requires Ranked(h, t) && b < |h| && c in Chain(h, t, b)
    ensures c < |h| && Chain(h, t, c) <= Chain(h, t, b)
    decreases |t[b]|
  {
    if c != h[b] {
      ChainTransitive(h, t, h[b], c);
    }
  }

  lemma ChainNext(h: seq<nat>, t: Tree, b: nat)
    requires Ranked(h, t) && b < |h| && h[b] != INVALID_BB_ID
    ensures h[b] < |h| && |t[h[b]]| < |t[b]| && Chain(h, t, b) == {h[b]} + Chain(h, t, h[b])
    ensures h[b] !in Chain(h, t, h[b]) && |h| == |t|
  {
    NotOnOwnChain(h, t, h[b]);
  }

  lemma NoChain(h: seq<nat>, t: Tree, b: nat)
    requires Ranked(h, t) && b < |h| && h[b] == INVALID_BB_ID
    ensures Chain(h, t, b) == {}
  {
  }

  lemma NotOnOwnChain(h: seq<nat>, t: Tree, b: nat)
    requires Ranked(h, t) && b < |h|
    ensures b !in Chain(h, t, b)
  {
    if b in Chain(h, t, b) {
      ChainDepth(h, t, b, b);
    }
  }

  /** A chain is linear: of two headers on it the shallower one is on the chain of the deeper. */
  lemma {:induction false} ChainLinear(h: seq<nat>, t: Tree, b: nat, c: nat, d: nat)
    requires Ranked(h, t) && b < |h| && OnChain(h, t, b, c) && OnChain(h, t, b, d)
    requires c < |h| && d < |h| && |t[d]| < |t[c]|
    ensures d in Chain(h, t, c)
    decreases |t[b]|
  {
    if c != b {
      if d == b {
        ChainDepth(h, t, b, c);
      } else {
        if d == h[b] && c != h[b] {
          ChainDepth(h, t, h[b], c);
        }
        ChainLinear(h, t, h[b], c, d);
      }
    }
  }

  /** Redirecting the header link of `c` to `d` replaces the tail of every chain through `c`. */
  lemma {:induction false} ChainRedirect(h: seq<nat>, t: Tree, c: nat, d: nat, x: nat, m: nat)
    requires Ranked(h, t) && c < |h| && d < |h| && d != INVALID_BB_ID && |t[d]| < |t[c]| && x < |h|
    ensures Ranked(h[c := d], t)
    ensures !OnChain(h, t, x, c) ==> Chain(h[c := d], t, x) == Chain(h, t, x)
    ensures OnChain(h, t, x, c) ==>
      (m in Chain(h[c := d], t, x) <==>
        OnChain(h, t, d, m) || (m in Chain(h, t, x) && m < |t| && |t[m]| >= |t[c]|))
    decreases |t[x]|
  {
    var h' := h[c := d];
    if x == c {
      if OnChain(h, t, d, c) {
        ChainDepth(h, t, d, c);
      }
      ChainRedirect(h, t, c, d, d, m);
      if m in Chain(h, t, x) {
        ChainDepth(h, t, x, m);
      }
    } else if h[x] != INVALID_BB_ID {
      ChainRedirect(h, t, c, d, h[x], m);
      if m == h[x] && h[x] != c && c in Chain(h, t, h[x]) {
        ChainDepth(h, t, h[x], c);
      }
    }
  }

  /** Chains depend only on the links, not on the tree used to bound them. */
  lemma {:induction false} ChainFrame(h: seq<nat>, t: Tree, t': Tree, x: nat)
    requires Ranked(h, t) && Ranked(h, t') && x < |h|
    ensures Chain(h, t, x) == Chain(h, t', x)
    decreases |t[x]|
  {
    if h[x] != INVALID_BB_ID {
      ChainFrame(h, t, t', h[x]);
    }
  }

  // ----- merging two chains -----

  /** Positions on the depth-first path: positive positions are distinct, equal the tree depth,
      and headers of path blocks are shallower path blocks. */
  ghost predicate PathRanked(h: seq<nat>, t: Tree, pos: seq<nat>) {
    && Ranked(h, t) && |pos| == |t|
    && (forall a :: 0 <= a < |pos| && pos[a] > 0 ==> pos[a] == |t[a]|)
    && (forall a {:trigger h[a]} :: 0 <= a < |pos| && pos[a] > 0 && h[a] != INVALID_BB_ID ==> pos[h[a]] > 0)
    && (forall a, b :: 0 <= a < |pos| && 0 <= b < |pos| && pos[a] == pos[b] > 0 ==> a == b)
  }

  /** The header links after pn_basic_block_tag_loop_header's loop has run from `c1` and `c2`. */
  ghost function Merge(h: seq<nat>, t: Tree, pos: seq<nat>, c1: nat, c2: nat): seq<nat>
    requires PathRanked(h, t, pos) && c1 < |h| && c2 < |h| && c2 != INVALID_BB_ID && 0 < pos[c2] < pos[c1]
    decreases pos[c1]
  {
    var p := h[c1];
    if p == INVALID_BB_ID then h[c1 := c2]
    else if p == c2 then h
    else if pos[p] < pos[c2] then Merge(h[c1 := c2], t, pos, c2, p)
    else Merge(h, t, pos, p, c2)
  }

  /** One turn of the merge loop that neither ends it nor finds the chains joined. */
  lemma MergeTurn(h: seq<nat>, t: Tree, pos: seq<nat>, c1: nat, c2: nat)
    requires PathRanked(h, t, pos) && c1 < |h| && c2 < |h| && c2 != INVALID_BB_ID && 0 < pos[c2] < pos[c1]
    requires h[c1] != INVALID_BB_ID && h[c1] != c2
    ensures h[c1] < |h| && 0 < pos[h[c1]] < pos[c1]
    ensures pos[h[c1]] < pos[c2] ==>
      PathRanked(h[c1 := c2], t, pos) && Merge(h, t, pos, c1, c2) == Merge(h[c1 := c2], t, pos, c2, h[c1])
    ensures pos[h[c1]] >= pos[c2] ==>
      pos[h[c1]] > pos[c2] && Merge(h, t, pos, c1, c2) == Merge(h, t, pos, h[c1], c2)
  {
  }

  /** The blocks of the two chains being merged. */
  ghost function Both(h: seq<nat>, t: Tree, c1: nat, c2: nat): set<nat>
    requires Ranked(h, t) && c1 < |h| && c2 < |h|
  {
    {c1} + Chain(h, t, c1) + {c2} + Chain(h, t, c2)
  }

  /** `m` reaches the chain of `x` through the merge: some member of the merged set that is `x`
      or on its chain lies deeper than `m`. */
  ghost predicate Gains(h: seq<nat>, t: Tree, both: set<nat>, x: nat, m: nat)
    requires Ranked(h, t) && x < |h|
  {
    m in both && m < |t| && exists c :: c in both && c < |t| && OnChain(h, t, x, c) && |t[m]| < |t[c]|
  }

  /** One merge gives every chain exactly the shallower members of the merged set, and drops
      no header from any chain. */
  lemma {:induction false} MergeChain(h: seq<nat>, t: Tree, pos: seq<nat>, c1: nat, c2: nat, x: nat, m: nat)
    requires PathRanked(h, t, pos) && c1 < |h| && c2 < |h| && c2 != INVALID_BB_ID && 0 < pos[c2] < pos[c1]
    requires x < |h|
    ensures PathRanked(Merge(h, t, pos, c1, c2), t, pos)
    ensures m in Chain(Merge(h, t, pos, c1, c2), t, x) <==>
      m in Chain(h, t, x) || Gains(h, t, Both(h, t, c1, c2), x, m)
    decreases pos[c1]
  {
    var p := h[c1];
    if p == INVALID_BB_ID {
      MergeAtEnd(h, t, c1, c2, x, m);
    } else if p == c2 {
      MergeShared(h, t, c1, x, m);
    } else if pos[p] < pos[c2] {
      ChainRedirect(h, t, c1, c2, x, m);
      MergeChain(h[c1 := c2], t, pos, c2, p, x, m);
      MergeSplice(h, t, c1, c2, x, m);
    } else {
      assert pos[p] > pos[c2];
      MergeChain(h, t, pos, p, c2, x, m);
      MergeAdvance(h, t, c1, c2, x, m);
    }
  }

  /** `c1` is the deepest block of the merged set. */
  lemma BothDepth(h: seq<nat>, t: Tree, c1: nat, c2: nat, m: nat)
    requires Ranked(h, t) && c1 < |h| && c2 < |h| && |t[c2]| < |t[c1]|
    requires m in Both(h, t, c1, c2) && m != c1
    ensures m < |t| && |t[m]| < |t[c1]|
  {
    if m in Chain(h, t, c1) {
      ChainDepth(h, t, c1, m);
    } else if m in Chain(h, t, c2) {
      ChainDepth(h, t, c2, m);
    }
  }

  /** What a chain gains from a set that is itself one chain it already had. */
  lemma GainsWithin(h: seq<nat>, t: Tree, d: nat, x: nat, c: nat, m: nat)
    requires Ranked(h, t) && d < |h| && x < |h|
    requires OnChain(h, t, d, c) && OnChain(h, t, d, m) && OnChain(h, t, x, c)
    requires c < |t| && m < |t| && |t[m]| < |t[c]|
    ensures m in Chain(h, t, x)
  {
    ChainLinear(h, t, d, c, m);
    if c != x {
      ChainTransitive(h, t, x, c);
    }
  }

  lemma MergeAtEnd(h: seq<nat>, t: Tree, c1: nat, c2: nat, x: nat, m: nat)
    requires Ranked(h, t) && c1 < |h| && c2 < |h| && c2 != INVALID_BB_ID && x < |h|
    requires h[c1] == INVALID_BB_ID && |t[c2]| < |t[c1]|
    ensures Ranked(h[c1 := c2], t)
    ensures m in Chain(h[c1 := c2], t, x) <==>
      m in Chain(h, t, x) || Gains(h, t, Both(h, t, c1, c2), x, m)
  {
    var both := Both(h, t, c1, c2);
    ChainRedirect(h, t, c1, c2, x, m);
    if OnChain(h, t, x, c1) {
      if OnChain(h, t, c2, m) {
        if m != c2 {
          ChainDepth(h, t, c2, m);
        }
        assert Gains(h, t, both, x, m);
      }
      if m in Chain(h, t, x) {
        ChainDepth(h, t, x, m);
        if |t[m]| < |t[c1]| {
          ChainLinear(h, t, x, c1, m);
        }
      }
    }
    if Gains(h, t, both, x, m) {
      var c :| c in both && c < |t| && OnChain(h, t, x, c) && |t[m]| < |t[c]|;
      if c != c1 {
        BothDepth(h, t, c1, c2, c);
        GainsWithin(h, t, c2, x, c, m);
      }
    }
  }

  lemma MergeShared(h: seq<nat>, t: Tree, c1: nat, x: nat, m: nat)
    requires Ranked(h, t) && c1 < |h| && h[c1] != INVALID_BB_ID && x < |h|
    ensures Gains(h, t, Both(h, t, c1, h[c1]), x, m) ==> m in Chain(h, t, x)
  {
    var both := Both(h, t, c1, h[c1]);
    if Gains(h, t, both, x, m) {
      var c :| c in both && c < |t| && OnChain(h, t, x, c) && |t[m]| < |t[c]|;
      GainsWithin(h, t, c1, x, c, m);
    }
  }

  lemma MergeSplice(h: seq<nat>, t: Tree, c1: nat, c2: nat, x: nat, m: nat)
    requires Ranked(h, t) && c1 < |h| && c2 < |h| && c2 != INVALID_BB_ID && x < |h|
    requires h[c1] != INVALID_BB_ID && |t[h[c1]]| < |t[c2]| < |t[c1]|
    ensures Ranked(h[c1 := c2], t)
    ensures
      m in Chain(h[c1 := c2], t, x) || Gains(h[c1 := c2], t, Both(h[c1 := c2], t, c2, h[c1]), x, m) <==>
      m in Chain(h, t, x) || Gains(h, t, Both(h, t, c1, c2), x, m)
  {
    var p, h' := h[c1], h[c1 := c2];
    var both, both' := Both(h, t, c1, c2), Both(h', t, c2, p);
    SpliceBoth(h, t, c1, c2);
    ChainRedirect(h, t, c1, c2, x, m);
    if OnChain(h, t, x, c1) {
      SpliceThrough(h, t, c1, c2, x, m);
    } else {
      assert forall c :: OnChain(h', t, x, c) <==> OnChain(h, t, x, c);
      if Gains(h, t, both, x, m) && m == c1 {
        var c :| c in both && c < |t| && OnChain(h, t, x, c) && |t[m]| < |t[c]|;
        BothDepth(h, t, c1, c2, c);
      }
    }
  }

  /** Redirecting `c1` to `c2` leaves the rest of the two chains to be merged from `c2`. */
  lemma SpliceBoth(h: seq<nat>, t: Tree, c1: nat, c2: nat)
    requires Ranked(h, t) && c1 < |h| && c2 < |h| && c2 != INVALID_BB_ID
    requires h[c1] != INVALID_BB_ID && |t[h[c1]]| < |t[c2]| < |t[c1]|
    ensures Ranked(h[c1 := c2], t)
    ensures c1 !in Both(h[c1 := c2], t, c2, h[c1])
    ensures Both(h, t, c1, c2) == {c1} + Both(h[c1 := c2], t, c2, h[c1])
  {
    var p := h[c1];
    ChainRedirect(h, t, c1, c2, c2, 0);
    ChainRedirect(h, t, c1, c2, p, 0);
    if c1 in Chain(h, t, c2) {
      ChainDepth(h, t, c2, c1);
    }
    if c1 in Chain(h, t, p) {
      ChainDepth(h, t, p, c1);
    }
  }

  lemma SpliceThrough(h: seq<nat>, t: Tree, c1: nat, c2: nat, x: nat, m: nat)
    requires Ranked(h, t) && c1 < |h| && c2 < |h| && c2 != INVALID_BB_ID && x < |h|
    requires h[c1] != INVALID_BB_ID && |t[h[c1]]| < |t[c2]| < |t[c1]|
    requires OnChain(h, t, x, c1)
    ensures Ranked(h[c1 := c2], t)
    ensures
      m in Chain(h[c1 := c2], t, x) || Gains(h[c1 := c2], t, Both(h[c1 := c2], t, c2, h[c1]), x, m) <==>
      m in Chain(h, t, x) || Gains(h, t, Both(h, t, c1, c2), x, m)
  {
    var p, h' := h[c1], h[c1 := c2];
    var both, both' := Both(h, t, c1, c2), Both(h', t, c2, p);
    SpliceBoth(h, t, c1, c2);
    ChainRedirect(h, t, c1, c2, x, m);
    ChainRedirect(h, t, c1, c2, x, c2);
    assert OnChain(h', t, x, c2);
    if m in both' {
      BothDepth(h, t, c1, c2, m);
      assert Gains(h, t, both, x, m);
      if m != c2 {
        BothDepth(h', t, c2, p, m);
        assert Gains(h', t, both', x, m);
      }
    } else {
      if m in Chain(h, t, x) {
        ChainDepth(h, t, x, m);
        if |t[m]| < |t[c1]| {
          ChainLinear(h, t, x, c1, m);
        }
      }
      if Gains(h, t, both, x, m) {
        var c :| c in both && c < |t| && OnChain(h, t, x, c) && |t[m]| < |t[c]|;
        BothDepth(h, t, c1, c2, c);
      }
    }
  }

  lemma MergeAdvance(h: seq<nat>, t: Tree, c1: nat, c2: nat, x: nat, m: nat)
    requires Ranked(h, t) && c1 < |h| && c2 < |h| && x < |h|
    requires h[c1] != INVALID_BB_ID && |t[c2]| < |t[h[c1]]|
    ensures
      m in Chain(h, t, x) || Gains(h, t, Both(h, t, h[c1], c2), x, m) <==>
      m in Chain(h, t, x) || Gains(h, t, Both(h, t, c1, c2), x, m)
  {
    var p := h[c1];
    var both, both' := Both(h, t, c1, c2), Both(h, t, p, c2);
    assert both == {c1} + both';
    if Gains(h, t, both, x, m) && m !in Chain(h, t, x) {
      var c :| c in both && c < |t| && OnChain(h, t, x, c) && |t[m]| < |t[c]|;
      if c == c1 {
        if c1 != x {
          ChainTransitive(h, t, x, c1);
        }
        assert OnChain(h, t, x, p);
        BothDepth(h, t, p, c2, m);
        assert Gains(h, t, both', x, m);
      } else if m == c1 {
        BothDepth(h, t, c1, c2, c);
      }
    }
  }
}
