/** The directory tree that the `parent_dir` links of the entry table describe:
    parent chains, a ranking that makes them acyclic, subtrees and absolute paths. */
module FsTree {
  import opened FsTypes

  /** The parent chain from `i` reaches the root (index 0) within `fuel` steps.
      This is exactly when the `while (current != 0)` loop of `get_full_path` stops. */
  ghost predicate ReachesRoot(s: seq<Entry>, i: int, fuel: nat)
    decreases fuel
  {
    0 <= i < |s| && (i == 0 || (fuel > 0 && ReachesRoot(s, s[i].parent, fuel - 1)))
  }

  lemma {:induction false} ReachesRootMono(s: seq<Entry>, i: int, f: nat, g: nat)
    requires ReachesRoot(s, i, f) && f <= g
    ensures ReachesRoot(s, i, g)
    decreases f
  {
    if i != 0 {
      ReachesRootMono(s, s[i].parent, f - 1, g - 1);
    }
  }

  /** The concatenation of "/" + name over the chain, from the entry just below the root
      down to `i`; the root itself contributes nothing. */
  ghost function PathBelow(s: seq<Entry>, i: int, fuel: nat): (p: string)
    requires ReachesRoot(s, i, fuel)
    ensures i == 0 <==> p == ""
    ensures p != "" ==> p[0] == '/'
    decreases fuel
  {
    if i == 0 then "" else PathBelow(s, s[i].parent, fuel - 1) + "/" + s[i].name
  }

  /** What `get_full_path` produces: "/" for the root, the chain's segments otherwise. */
  ghost function FullPath(s: seq<Entry>, i: int, fuel: nat): (p: string)
    requires ReachesRoot(s, i, fuel)
    ensures |p| > 0 && p[0] == '/'
    ensures i != 0 ==> p == PathBelow(s, i, fuel)
  {
    if i == 0 then "/" else PathBelow(s, i, fuel)
  }

  /** The path does not depend on how much fuel proves that the chain ends. */
  lemma {:induction false} PathFuelIrrelevant(s: seq<Entry>, i: int, f: nat, g: nat)
    requires ReachesRoot(s, i, f) && ReachesRoot(s, i, g)
    ensures PathBelow(s, i, f) == PathBelow(s, i, g)
    decreases f
  {
    if i != 0 {
      PathFuelIrrelevant(s, s[i].parent, f - 1, g - 1);
    }
  }

  /** The parent link of a live non-root slot `x` points at a live directory of smaller rank. */
  ghost predicate ParentOk(s: seq<Entry>, depth: seq<nat>, x: int)
    requires |depth| == |s| && 0 <= x < |s|
  {
    var p := s[x].parent;
    0 <= p < |s| && IsLive(s[p]) && s[p].isDirectory && depth[p] < depth[x]
  }

  /** `depth` witnesses that the live entries form a tree rooted at slot 0: every live non-root
      entry's parent is a live directory, and ranks strictly decrease towards the root, so no
      chain other than the root's self-loop is cyclic. */
  ghost predicate Ranked(s: seq<Entry>, depth: seq<nat>) {
    && |depth| == |s|
    && forall x :: 0 < x < |s| && IsLive(s[x]) ==> ParentOk(s, depth, x)
  }

  /** In a ranked table, every live entry's chain reaches the root within its rank. */
  lemma {:induction false} RankedReachesRoot(s: seq<Entry>, depth: seq<nat>, x: int)
    requires Ranked(s, depth) && 0 <= x < |s| && IsLive(s[x])
    ensures ReachesRoot(s, x, depth[x])
    decreases depth[x]
  {
    if x != 0 {
      assert ParentOk(s, depth, x);
      var p := s[x].parent;
      RankedReachesRoot(s, depth, p);
      ReachesRootMono(s, p, depth[p], depth[x] - 1);
    }
  }

  /** `d` is `x` itself or one of its ancestors within `fuel` parent steps
      (the walk stops at the root). */
  ghost predicate Below(s: seq<Entry>, x: int, d: int, fuel: nat)
    decreases fuel
  {
    0 <= x < |s| && (x == d || (fuel > 0 && x != 0 && Below(s, s[x].parent, d, fuel - 1)))
  }

  /** The live entries of the subtree rooted at `d`, `d` included when it is live. */
  ghost function Subtree(s: seq<Entry>, depth: seq<nat>, d: int): set<int>
    requires |depth| == |s|
  {
    set x | 0 <= x < |s| && IsLive(s[x]) && Below(s, x, d, depth[x])
  }

  lemma {:induction false} BelowMono(s: seq<Entry>, x: int, d: int, f: nat, g: nat)
    requires Below(s, x, d, f) && f <= g
    ensures Below(s, x, d, g)
    decreases f
  {
    if x != d {
      BelowMono(s, s[x].parent, d, f - 1, g - 1);
    }
  }

  /** A descendant sits at least as deep as its ancestor. */
  lemma {:induction false} BelowDepth(s: seq<Entry>, depth: seq<nat>, x: int, d: int, f: nat)
    requires Ranked(s, depth) && Below(s, x, d, f) && IsLive(s[x])
    ensures 0 <= d < |s| && depth[d] <= depth[x]
    decreases f
  {
    if x != d {
      assert ParentOk(s, depth, x);
      BelowDepth(s, depth, s[x].parent, d, f - 1);
    }
  }

  /** In a ranked table, the rank of a live entry is always enough fuel to find an ancestor. */
  lemma {:induction false} BelowNormal(s: seq<Entry>, depth: seq<nat>, x: int, d: int, f: nat)
    requires Ranked(s, depth) && Below(s, x, d, f) && IsLive(s[x])
    ensures Below(s, x, d, depth[x])
    decreases f
  {
    if x != d {
      assert ParentOk(s, depth, x);
      var p := s[x].parent;
      BelowNormal(s, depth, p, d, f - 1);
      BelowMono(s, p, d, depth[p], depth[x] - 1);
    }
  }

  /** A live non-root child of a member of a subtree belongs to the subtree. */
  lemma SubtreeHasChild(s: seq<Entry>, depth: seq<nat>, c: int, y: int)
    requires Ranked(s, depth) && 0 < y < |s| && IsLive(s[y])
    requires s[y].parent in Subtree(s, depth, c)
    ensures y in Subtree(s, depth, c)
  {
    assert ParentOk(s, depth, y);
    var p := s[y].parent;
    if y != c {
      assert Below(s, y, c, depth[p] + 1);
      BelowMono(s, y, c, depth[p] + 1, depth[y]);
    }
  }

  /** The step from a child `c` to its parent `d` extends every chain into `c`. */
  lemma {:induction false} BelowStep(s: seq<Entry>, x: int, c: int, d: int, f: nat)
    requires Below(s, x, c, f) && 0 < c < |s| && s[c].parent == d && 0 <= d < |s|
    ensures Below(s, x, d, f + 1)
    decreases f
  {
    if x != c {
      BelowStep(s, s[x].parent, c, d, f - 1);
    }
  }

  /** The subtree of a live child `c` of `d` lies inside the subtree of `d` and misses `d`. */
  lemma SubtreeOfChild(s: seq<Entry>, depth: seq<nat>, c: int, d: int)
    requires Ranked(s, depth) && 0 < c < |s| && IsLive(s[c]) && s[c].parent == d
    ensures Subtree(s, depth, c) <= Subtree(s, depth, d)
    ensures d !in Subtree(s, depth, c)
  {
    assert ParentOk(s, depth, c);
    forall x | x in Subtree(s, depth, c)
      ensures x in Subtree(s, depth, d) && x != d
    {
      BelowStep(s, x, c, d, depth[x]);
      BelowNormal(s, depth, x, d, depth[x] + 1);
      BelowDepth(s, depth, x, c, depth[x]);
    }
  }

  /** Chains of a table `t` whose live entries are unchanged in `s` are chains of `s` too. */
  lemma {:induction false} BelowTransfer(t: seq<Entry>, s: seq<Entry>, depth: seq<nat>, x: int, d: int, f: nat)
    requires Ranked(t, depth) && |s| == |t|
    requires forall y :: 0 <= y < |t| && IsLive(t[y]) ==> s[y] == t[y]
    requires Below(t, x, d, f) && IsLive(t[x])
    ensures Below(s, x, d, f)
    decreases f
  {
    if x != d {
      assert ParentOk(t, depth, x);
      BelowTransfer(t, s, depth, t[x].parent, d, f - 1);
    }
  }

  /** Clearing entries (never changing a live one) can only shrink a subtree. */
  lemma SubtreeShrinks(t: seq<Entry>, s: seq<Entry>, depth: seq<nat>, d: int)
    requires Ranked(t, depth) && |s| == |t|
    requires forall y :: 0 <= y < |t| && IsLive(t[y]) ==> s[y] == t[y]
    ensures Subtree(t, depth, d) <= Subtree(s, depth, d)
  {
    forall x | x in Subtree(t, depth, d) ensures x in Subtree(s, depth, d) {
      BelowTransfer(t, s, depth, x, d, depth[x]);
    }
  }

  /** The table with every slot of `S` zeroed. */
  function ClearSlots(s: seq<Entry>, S: set<int>): (r: seq<Entry>)
    ensures |r| == |s|
    ensures forall x :: 0 <= x < |s| ==> r[x] == if x in S then BlankEntry else s[x]
  {
    seq(|s|, x requires 0 <= x < |s| => if x in S then BlankEntry else s[x])
  }

  /** Removing a whole subtree leaves a ranked table ranked. */
  lemma ClearSubtreeRanked(s: seq<Entry>, depth: seq<nat>, d: int)
    requires Ranked(s, depth)
    ensures Ranked(ClearSlots(s, Subtree(s, depth, d)), depth)
  {
    var S := Subtree(s, depth, d);
    var t := ClearSlots(s, S);
    forall x | 0 < x < |t| && IsLive(t[x]) ensures ParentOk(t, depth, x) {
      assert x !in S && t[x] == s[x];
      assert ParentOk(s, depth, x);
      if s[x].parent in S {
        SubtreeHasChild(s, depth, d, x);
      }
    }
  }

  /** Chains compose: an ancestor of an ancestor is an ancestor. */
  lemma {:induction false} BelowTrans(s: seq<Entry>, x: int, y: int, d: int, f: nat, g: nat)
    requires Below(s, x, y, f) && Below(s, y, d, g)
    ensures Below(s, x, d, f + g)
    decreases f
  {
    if x != y {
      BelowTrans(s, s[x].parent, y, d, f - 1, g);
    } else {
      BelowMono(s, x, d, g, f + g);
    }
  }

  /** Once a subtree is removed, no live entry has any former member on its chain. */
  lemma ClearedSubtreeUnreachable(s: seq<Entry>, depth: seq<nat>, d: int, y: int, x: int)
    requires Ranked(s, depth) && y in Subtree(s, depth, d)
    requires 0 <= x < |s| && IsLive(ClearSlots(s, Subtree(s, depth, d))[x])
    ensures !Below(ClearSlots(s, Subtree(s, depth, d)), x, y, depth[x])
  {
    var S := Subtree(s, depth, d);
    var t := ClearSlots(s, S);
    ClearSubtreeRanked(s, depth, d);
    if Below(t, x, y, depth[x]) {
      BelowTransfer(t, s, depth, x, y, depth[x]);
      BelowTrans(s, x, y, d, depth[x], depth[y]);
      BelowNormal(s, depth, x, d, depth[x] + depth[y]);
      assert false;
    }
  }

  /** Zeroing a file's slot keeps a ranked table ranked: a file is nobody's parent. */
  lemma ClearFileRanked(s: seq<Entry>, depth: seq<nat>, i: int)
    requires Ranked(s, depth) && 0 <= i < |s| && !s[i].isDirectory
    ensures Ranked(s[i := BlankEntry], depth)
  {
    var t := s[i := BlankEntry];
    forall x | 0 < x < |t| && IsLive(t[x]) ensures ParentOk(t, depth, x) {
      assert ParentOk(s, depth, x);
    }
  }

  /** In a ranked table, a proper ancestor of a live entry is a live directory. */
  lemma {:induction false} BelowDirectory(s: seq<Entry>, depth: seq<nat>, x: int, d: int, f: nat)
    requires Ranked(s, depth) && 0 <= d < |s| && Below(s, x, d, f) && IsLive(s[x])
    ensures x == d || (IsLive(s[d]) && s[d].isDirectory)
    decreases f
  {
    if x != d {
      assert ParentOk(s, depth, x);
      BelowDirectory(s, depth, s[x].parent, d, f - 1);
    }
  }
}
