/** Merkle trees over a transaction list: building, branch extraction and checking, for any pair hash. */
module Merkle {
  import opened Common
  import opened Powers

  /** Number of nodes one level up. */
  function Half(n: nat): nat { (n + 1) / 2 }

  /** The next level; a last node without partner is paired with itself. */
  function Up<H>(h: (H, H) -> H, level: seq<H>): (r: seq<H>)
    requires level != []
    ensures |r| == Half(|level|)
  {
    seq(Half(|level|), i requires 0 <= i < Half(|level|) => h(level[2 * i], level[Min(2 * i + 1, |level| - 1)]))
  }

  /** All levels one after the other, as they lie in vMerkleTree. */
  function Tree<H>(h: (H, H) -> H, level: seq<H>): seq<H>
    decreases |level|
  {
    if |level| <= 1 then level else level + Tree(h, Up(h, level))
  }

  function Root<H>(h: (H, H) -> H, level: seq<H>): H
    requires level != []
    decreases |level|
  {
    if |level| == 1 then level[0] else Root(h, Up(h, level))
  }

  function Depth(n: nat): nat {
    if n <= 1 then 0 else 1 + Depth(Half(n))
  }

  /** `i ^ 1` for a non-negative index. */
  function Sibling(i: nat): nat { if i % 2 == 0 then i + 1 else i - 1 }

  function Branch<H>(h: (H, H) -> H, level: seq<H>, i: nat): seq<H>
    decreases |level|
  {
    if |level| <= 1 then [] else [level[Min(Sibling(i), |level| - 1)]] + Branch(h, Up(h, level), i / 2)
  }

  /** The pair that one step of the check hashes. */
  function Step<H>(c: H, other: H, i: int): (H, H) {
    if i % 2 == 1 then (other, c) else (c, other)
  }

  /** A negative index keeps its sign when shifted and has its lowest bit tested in two's complement. */
  function Check<H>(h: (H, H) -> H, c: H, branch: seq<H>, i: int): H {
    if branch == [] then c
    else
      var p := Step(c, branch[0], i);
      Check(h, h(p.0, p.1), branch[1..], i / 2)
  }

  // One level of each definition, for proofs that keep the definitions hidden.

  lemma RootUp<H>(h: (H, H) -> H, level: seq<H>)
    requires level != []
    ensures Root(h, level) == if |level| == 1 then level[0] else Root(h, Up(h, level))
  {
  }

  lemma BranchUp<H>(h: (H, H) -> H, level: seq<H>, i: nat)
    requires |level| > 1
    ensures Branch(h, level, i) == [level[Min(Sibling(i), |level| - 1)]] + Branch(h, Up(h, level), i / 2)
  {
  }

  lemma BranchShort<H>(h: (H, H) -> H, level: seq<H>, i: nat)
    requires |level| <= 1
    ensures Branch(h, level, i) == []
  {
  }

  lemma CheckCons<H>(h: (H, H) -> H, c: H, other: H, branch: seq<H>, i: int)
    ensures Check(h, c, [other] + branch, i) == Check(h, h(Step(c, other, i).0, Step(c, other, i).1), branch, i / 2)
  {
    assert ([other] + branch)[1..] == branch;
  }

  lemma CheckEmpty<H>(h: (H, H) -> H, c: H, i: int)
    ensures Check(h, c, [], i) == c
  {
  }

  lemma DepthHalf(n: nat)
    ensures Depth(n) == if n <= 1 then 0 else 1 + Depth(Half(n))
  {
  }

  lemma TreeUp<H>(h: (H, H) -> H, level: seq<H>)
    ensures Tree(h, level) == if |level| <= 1 then level else level + Tree(h, Up(h, level))
  {
  }

  lemma UpAt<H>(h: (H, H) -> H, level: seq<H>, i: nat)
    requires level != [] && i < Half(|level|)
    ensures |Up(h, level)| == Half(|level|)
    ensures 2 * i < |level| && Up(h, level)[i] == h(level[2 * i], level[Min(2 * i + 1, |level| - 1)])
  {
  }

  // ---------------------------------------------------------------- the tree as a tree

  /** Over a full number of leaves the root is the hash of the roots of the left and the right half, in that order. */
  lemma {:induction false} RootOfHalves<H>(h: (H, H) -> H, xs: seq<H>, d: nat)
    requires |xs| == Pow(2, d + 1)
    ensures 0 < Pow(2, d) < |xs|
    ensures Root(h, xs) == h(Root(h, xs[..Pow(2, d)]), Root(h, xs[Pow(2, d)..]))
    decreases d
  {
    hide Up, Root, Pow;
    PowPos(2, d);
    PowNext(2, d);
    var n := Pow(2, d);
    var left, right := xs[..n], xs[n..];
    RootUp(h, xs);
    RootUp(h, left);
    RootUp(h, right);
    UpAt(h, xs, 0);
    if d == 0 {
      PowZero(2);
      RootUp(h, Up(h, xs));
    } else {
      PowNext(2, d - 1);
      RootOfHalves(h, Up(h, xs), d - 1);
      UpHalves(h, xs, Pow(2, d - 1));
    }
  }

  /** The level above an even split. */
  lemma UpHalves<H>(h: (H, H) -> H, xs: seq<H>, m: nat)
    requires m > 0 && |xs| == 4 * m
    ensures |Up(h, xs)| == 2 * m && Up(h, xs)[..m] == Up(h, xs[..2 * m]) && Up(h, xs)[m..] == Up(h, xs[2 * m..])
  {
    hide Up;
    UpAt(h, xs, 0);
    UpAt(h, xs[..2 * m], 0);
    UpAt(h, xs[2 * m..], 0);
    forall i: nat | i < m
      ensures Up(h, xs)[..m][i] == Up(h, xs[..2 * m])[i] && Up(h, xs)[m..][i] == Up(h, xs[2 * m..])[i]
    {
      UpAt(h, xs, i);
      UpAt(h, xs, m + i);
      UpAt(h, xs[..2 * m], i);
      UpAt(h, xs[2 * m..], i);
    }
  }

  // ---------------------------------------------------------------- completeness

  /** Every leaf's branch checks to the root, odd levels included. */
  lemma {:induction false} BranchChecks<H>(h: (H, H) -> H, level: seq<H>, i: nat)
    requires i < |level|
    ensures |Branch(h, level, i)| == Depth(|level|)
    ensures Check(h, level[i], Branch(h, level, i), i) == Root(h, level)
    decreases |level|
  {
    hide Up, Root, Branch, Check, Depth;
    DepthHalf(|level|);
    RootUp(h, level);
    if |level| == 1 {
      BranchShort(h, level, i);
      CheckEmpty(h, level[i], i);
    } else {
      var up := Up(h, level);
      UpAt(h, level, i / 2);
      BranchChecks(h, up, i / 2);
      BranchUp(h, level, i);
      CheckCons(h, level[i], level[Min(Sibling(i), |level| - 1)], Branch(h, up, i / 2), i);
      assert i == 2 * (i / 2) + i % 2;
    }
  }

  // ---------------------------------------------------------------- soundness

  /** Which leaf index `i` leads to from the root; an index beyond the list ends at a duplicated node. */
  function Actual(n: nat, i: nat): (p: nat)
    requires n > 0
    ensures p < n && (i < n ==> p == i)
    decreases n
  {
    if n == 1 then 0 else Min(2 * Actual(Half(n), i / 2) + i % 2, n - 1)
  }

  function Leaf<H>(level: seq<H>, i: nat): H
    requires level != []
  {
    level[Actual(|level|, i)]
  }

  /** The two children of node `j` of the next level. */
  function Pair<H>(level: seq<H>, j: nat): (H, H)
    requires level != []
  {
    (Leaf(level, 2 * j), Leaf(level, 2 * j + 1))
  }

  predicate Collide<H(==)>(h: (H, H) -> H, p: (H, H), q: (H, H)) {
    p != q && h(p.0, p.1) == h(q.0, q.1)
  }

  lemma LeafUp<H>(h: (H, H) -> H, level: seq<H>, j: nat)
    requires |level| > 1
    ensures Leaf(Up(h, level), j) == h(Pair(level, j).0, Pair(level, j).1)
  {
    UpAt(h, level, Actual(Half(|level|), j));
    assert (2 * j) / 2 == j && (2 * j) % 2 == 0 && (2 * j + 1) / 2 == j && (2 * j + 1) % 2 == 1;
  }

  /** Somewhere on the way up, checking hashes another pair than building did, to the same hash. */
  predicate CollisionOnPath<H(==)>(h: (H, H) -> H, level: seq<H>, c: H, branch: seq<H>, i: nat)
    decreases |level|
  {
    |level| > 1 && branch != [] &&
    var p := Step(c, branch[0], i);
    Collide(h, p, Pair(level, i / 2)) || CollisionOnPath(h, Up(h, level), h(p.0, p.1), branch[1..], i / 2)
  }

  /** A branch of the right length that checks proves the leaf at that index, unless it exhibits a hash collision. */
  lemma {:induction false} CheckProvesLeaf<H>(h: (H, H) -> H, level: seq<H>, c: H, branch: seq<H>, i: nat)
    requires level != [] && |branch| == Depth(|level|) && Check(h, c, branch, i) == Root(h, level)
    ensures c == Leaf(level, i) || CollisionOnPath(h, level, c, branch, i)
    decreases |level|
  {
    hide Up, Root, Check, Depth, Leaf;
    DepthHalf(|level|);
    RootUp(h, level);
    if |level| == 1 {
      CheckEmpty(h, c, i);
      LeafOne(level, i);
    } else {
      var p := Step(c, branch[0], i);
      UpAt(h, level, 0);
      assert branch == [branch[0]] + branch[1..];
      CheckCons(h, c, branch[0], branch[1..], i);
      CheckProvesLeaf(h, Up(h, level), h(p.0, p.1), branch[1..], i / 2);
      LeafUp(h, level, i / 2);
      assert i == 2 * (i / 2) + i % 2;
    }
  }

  lemma LeafOne<H>(level: seq<H>, i: nat)
    requires |level| == 1
    ensures Leaf(level, i) == level[0]
  {
  }

  /** The length matters: every inner node of the first level up checks with its own, shorter branch. */
  lemma InnerNodeChecks<H>(h: (H, H) -> H, level: seq<H>, j: nat)
    requires |level| > 1 && j < Half(|level|)
    ensures var up := Up(h, level);
      |Branch(h, up, j)| == Depth(|level|) - 1 && Check(h, up[j], Branch(h, up, j), j) == Root(h, level)
  {
    hide Up, Root, Branch, Check, Depth;
    UpAt(h, level, j);
    RootUp(h, level);
    DepthHalf(|level|);
    BranchChecks(h, Up(h, level), j);
  }

  // ---------------------------------------------------------------- which lists share a root

  /** At some level the two trees hash different pairs to the same hash. */
  ghost predicate CollisionInTrees<H>(h: (H, H) -> H, l: seq<H>, m: seq<H>)
    decreases |l|
  {
    |l| > 1 && |m| > 1 &&
    ((exists j: nat :: Collide(h, Pair(l, j), Pair(m, j))) || CollisionInTrees(h, Up(h, l), Up(h, m)))
  }

  ghost predicate SameLeaves<H>(l: seq<H>, m: seq<H>)
    requires l != [] && m != []
  {
    forall i: nat :: Leaf(l, i) == Leaf(m, i)
  }

  /** Lists whose leaves agree after duplication have the same root. */
  lemma {:induction false} SameLeavesSameRoot<H>(h: (H, H) -> H, l: seq<H>, m: seq<H>)
    requires l != [] && m != [] && Depth(|l|) == Depth(|m|) && SameLeaves(l, m)
    ensures Root(h, l) == Root(h, m)
    decreases |l|
  {
    hide Up, Root, Depth, Leaf;
    DepthHalf(|l|);
    DepthHalf(|m|);
    RootUp(h, l);
    RootUp(h, m);
    if |l| == 1 {
      assert Leaf(l, 0) == Leaf(m, 0);
      LeafOne(l, 0);
      LeafOne(m, 0);
    } else {
      UpAt(h, l, 0);
      UpAt(h, m, 0);
      forall j: nat ensures Leaf(Up(h, l), j) == Leaf(Up(h, m), j) {
        LeafUp(h, l, j);
        LeafUp(h, m, j);
      }
      SameLeavesSameRoot(h, Up(h, l), Up(h, m));
    }
  }

  /** Lists with the same root agree after duplication, unless the two trees exhibit a hash collision. */
  lemma {:induction false} SameRootSameLeaves<H>(h: (H, H) -> H, l: seq<H>, m: seq<H>)
    requires l != [] && m != [] && Depth(|l|) == Depth(|m|) && Root(h, l) == Root(h, m)
    ensures SameLeaves(l, m) || CollisionInTrees(h, l, m)
    decreases |l|
  {
    hide Up, Root, Depth, Leaf;
    DepthHalf(|l|);
    DepthHalf(|m|);
    RootUp(h, l);
    RootUp(h, m);
    if |l| == 1 {
      forall i: nat ensures Leaf(l, i) == Leaf(m, i) {
        LeafOne(l, i);
        LeafOne(m, i);
      }
    } else {
      UpAt(h, l, 0);
      UpAt(h, m, 0);
      SameRootSameLeaves(h, Up(h, l), Up(h, m));
      if !CollisionInTrees(h, l, m) {
        forall i: nat ensures Leaf(l, i) == Leaf(m, i) {
          LeafUp(h, l, i / 2);
          LeafUp(h, m, i / 2);
          assert Leaf(Up(h, l), i / 2) == Leaf(Up(h, m), i / 2);
          assert !Collide(h, Pair(l, i / 2), Pair(m, i / 2));
          assert i == 2 * (i / 2) + i % 2;
        }
      }
    }
  }

  // Lists of different depth: the deeper one is compared through one of its own inner levels.

  /** The level `k` steps above the leaves. */
  function Lift<H>(h: (H, H) -> H, level: seq<H>, k: nat): (r: seq<H>)
    requires level != []
    ensures r != []
    decreases k
  {
    if k == 0 then level else Lift(h, Up(h, level), k - 1)
  }

  /** Every inner level has the root of the whole, and lies as much less deep as it lies higher up. */
  lemma {:induction false} LiftRoot<H>(h: (H, H) -> H, level: seq<H>, k: nat)
    requires level != [] && k <= Depth(|level|)
    ensures Root(h, Lift(h, level, k)) == Root(h, level) && Depth(|Lift(h, level, k)|) == Depth(|level|) - k
    decreases k
  {
    hide Up, Root, Depth;
    DepthHalf(|level|);
    if k > 0 {
      RootUp(h, level);
      UpAt(h, level, 0);
      LiftRoot(h, Up(h, level), k - 1);
    }
  }

  /**
   Which lists share a root, whatever their lengths: those of which the deeper one has, at the depth of the other, a
   level with the same leaves after duplication; collisions aside, no others.
   */
  lemma SameRootIff<H>(h: (H, H) -> H, l: seq<H>, m: seq<H>, k: nat)
    requires l != [] && m != [] && Depth(|l|) == Depth(|m|) + k
    ensures SameLeaves(Lift(h, l, k), m) ==> Root(h, l) == Root(h, m)
    ensures Root(h, l) == Root(h, m) ==> SameLeaves(Lift(h, l, k), m) || CollisionInTrees(h, Lift(h, l, k), m)
  {
    hide Up, Root, Depth, Lift, SameLeaves, CollisionInTrees;
    LiftRoot(h, l, k);
    if SameLeaves(Lift(h, l, k), m) {
      SameLeavesSameRoot(h, Lift(h, l, k), m);
    }
    if Root(h, l) == Root(h, m) {
      SameRootSameLeaves(h, Lift(h, l, k), m);
    }
  }

  /** In particular a list and the level above it, which is shorter, always share their root. */
  lemma InnerLevelSameRoot<H>(h: (H, H) -> H, l: seq<H>)
    requires |l| > 1
    ensures |Up(h, l)| < |l| && Root(h, Up(h, l)) == Root(h, l)
  {
    hide Up, Root;
    UpAt(h, l, 0);
    RootUp(h, l);
  }

  /** So lists of the same length with the same root are equal, collisions aside. */
  lemma SameRootSameList<H>(h: (H, H) -> H, l: seq<H>, m: seq<H>)
    requires l != [] && |l| == |m| && Root(h, l) == Root(h, m)
    ensures l == m || CollisionInTrees(h, l, m)
  {
    SameRootSameLeaves(h, l, m);
    if SameLeaves(l, m) {
      forall i | 0 <= i < |l| ensures l[i] == m[i] { assert Leaf(l, i) == Leaf(m, i); }
    }
  }

  /** But repeating the last transaction of a longer odd list changes the list and not the root, whatever the hash. */
  lemma DuplicateLast<H>(h: (H, H) -> H, l: seq<H>)
    requires |l| % 2 == 1
    ensures |l| > 1 ==> Root(h, l + [l[|l| - 1]]) == Root(h, l)
    ensures |l| == 1 ==> Root(h, l + [l[|l| - 1]]) == h(l[0], l[0])
  {
    hide Up, Root;
    var m := l + [l[|l| - 1]];
    var up := Up(h, m);
    RootUp(h, m);
    UpAt(h, m, 0);
    UpAt(h, l, 0);
    if |l| > 1 {
      RootUp(h, l);
      forall i | 0 <= i < |up| ensures up[i] == Up(h, l)[i] {
        UpAt(h, m, i);
        UpAt(h, l, i);
      }
      assert up == Up(h, l);
    } else {
      RootUp(h, up);
    }
  }

  // ---------------------------------------------------------------- the source's loops

  /** A level that starts at `j` in the flat tree is followed by the levels above it. */
  lemma LevelInTree<H>(h: (H, H) -> H, tree: seq<H>, j: nat, level: seq<H>)
    requires |level| > 1 && j <= |tree| && tree[j..] == Tree(h, level)
    ensures j + |level| <= |tree| && tree[j + |level|..] == Tree(h, Up(h, level))
    ensures forall k :: 0 <= k < |level| ==> tree[j + k] == level[k]
  {
    hide Up, Tree;
    TreeUp(h, level);
    var rest := Tree(h, Up(h, level));
    assert |tree| - j == |level| + |rest|;
    forall k | 0 <= k < |level| ensures tree[j + k] == level[k] { assert tree[j + k] == tree[j..][k]; }
    assert tree[j + |level|..] == tree[j..][|level|..];
  }

  /** The tree of a level over a shorter one, when the level itself is already below. */
  lemma TreeStep<H>(h: (H, H) -> H, below: seq<H>, level: seq<H>)
    requires |level| > 1
    ensures |Up(h, level)| == (|level| + 1) / 2 && Root(h, Up(h, level)) == Root(h, level)
    ensures (below + level) + Tree(h, Up(h, level)) == below + Tree(h, level)
  {
    hide Up, Root, Tree;
    TreeUp(h, level);
    RootUp(h, level);
  }

  /** One level of a branch: the sibling read from the flat tree, then the branch one level up. */
  lemma BranchStep<H>(h: (H, H) -> H, tree: seq<H>, j: nat, level: seq<H>, branch: seq<H>, i: nat)
    requires |level| > 1 && j <= |tree| && tree[j..] == Tree(h, level)
    ensures var s := Min(Sibling(i), |level| - 1);
            && s >= 0 && j + s < |tree| && |Up(h, level)| == (|level| + 1) / 2
            && (branch + [tree[j + s]]) + Branch(h, Up(h, level), i / 2) == branch + Branch(h, level, i)
            && j + |level| <= |tree| && tree[j + |level|..] == Tree(h, Up(h, level))
  {
    hide Up, Branch, Tree;
    var s := Min(Sibling(i), |level| - 1);
    LevelInTree(h, tree, j, level);
    BranchUp(h, level, i);
    Regroup(branch, level[s], Branch(h, Up(h, level), i / 2));
  }

  lemma PlusNothing<H>(s: seq<H>)
    ensures [] + s == s && s + [] == s
  {
  }

  lemma Regroup<H>(s: seq<H>, x: H, t: seq<H>)
    ensures s + ([x] + t) == (s + [x]) + t
  {
  }

  /** The transaction hashes of a block and its cached tree. */
  class Block<H> {
    const h: (H, H) -> H
    const zero: H
    const hashes: seq<H>
    var vMerkleTree: seq<H>

    /** The cache is empty or up to date. */
    ghost predicate Valid()
      reads this
    {
      vMerkleTree == [] || vMerkleTree == Tree(h, hashes)
    }

    constructor (h: (H, H) -> H, zero: H, hashes: seq<H>)
      ensures Valid() && this.h == h && this.zero == zero && this.hashes == hashes
    {
      this.h, this.zero, this.hashes, vMerkleTree := h, zero, hashes, [];
    }

    /** Appends one level to the tree: `level` are the `size` nodes from `j` on. */
    method BuildLevel(j: nat, size: nat, ghost level: seq<H>)
      requires size > 1 && j + size == |vMerkleTree| && level == vMerkleTree[j..]
      modifies this
      ensures vMerkleTree == old(vMerkleTree) + Up(h, level)
    {
      hide Up;
      ghost var up := Up(h, level);
      UpAt(h, level, 0);
      var i: nat := 0;
      ghost var m: nat := 0;
      while i < size
        invariant i == 2 * m && m <= |up| && (i >= size ==> m == |up|)
        invariant vMerkleTree == old(vMerkleTree) + up[..m]
      {
        var i2 := Min(i + 1, size - 1);
        UpAt(h, level, m);
        assert level[i] == vMerkleTree[j + i] && level[i2] == vMerkleTree[j + i2];
        assert up[..m + 1] == up[..m] + [h(vMerkleTree[j + i], vMerkleTree[j + i2])];
        vMerkleTree := vMerkleTree + [h(vMerkleTree[j + i], vMerkleTree[j + i2])];
        i := i + 2;
        m := m + 1;
      }
      assert up[..|up|] == up;
    }

    method BuildMerkleTree() returns (root: H)
      modifies this
      ensures Valid() && vMerkleTree == Tree(h, hashes)
      ensures root == if hashes == [] then zero else Root(h, hashes)
    {
      hide Up, Root, Tree;
      vMerkleTree := hashes;
      var j: nat, size: nat := 0, |hashes|;
      ghost var level := hashes;
      ghost var below: seq<H> := [];
      while size > 1
        invariant j + size == |vMerkleTree| && size == |level| && below == vMerkleTree[..j] && level == vMerkleTree[j..]
        invariant below + Tree(h, level) == Tree(h, hashes)
        invariant hashes != [] ==> level != [] && Root(h, level) == Root(h, hashes)
        invariant hashes == [] ==> level == [] && vMerkleTree == []
        decreases size
      {
        assert vMerkleTree == below + level;
        TreeStep(h, below, level);
        BuildLevel(j, size, level);
        below := below + level;
        level := Up(h, level);
        j := j + size;
        size := (size + 1) / 2;
      }
      assert vMerkleTree == below + level;
      TreeUp(h, level);
      if level != [] { RootUp(h, level); }
      root := if vMerkleTree == [] then zero else vMerkleTree[|vMerkleTree| - 1];
    }

    method GetMerkleBranch(index: nat) returns (branch: seq<H>)
      requires Valid()
      modifies this
      ensures Valid() && branch == Branch(h, hashes, index)
    {
      if vMerkleTree == [] {
        var root := BuildMerkleTree();
      }
      hide Up, Branch, Tree, Sibling;
      branch := [];
      var i: nat, j: nat, size: nat := index, 0, |hashes|;
      ghost var level := hashes;
      ghost var tree := vMerkleTree;
      assert tree[0..] == tree;
      PlusNothing(Branch(h, hashes, index));
      while size > 1
        invariant vMerkleTree == tree && size == |level| && j <= |tree| && tree[j..] == Tree(h, level)
        invariant branch + Branch(h, level, i) == Branch(h, hashes, index)
        decreases size
      {
        var s := Min(Sibling(i), size - 1);
        BranchStep(h, tree, j, level, branch, i);
        branch := branch + [vMerkleTree[j + s]];
        i := i / 2;
        j := j + size;
        level := Up(h, level);
        size := (size + 1) / 2;
      }
      BranchShort(h, level, i);
      PlusNothing(branch);
    }

    /** -1 stands for "not in a block". */
    method CheckMerkleBranch(hash: H, branch: seq<H>, index: int) returns (r: H)
      ensures r == if index == -1 then zero else Check(h, hash, branch, index)
    {
      if index == -1 {
        return zero;
      }
      r := hash;
      var i := index;
      for k := 0 to |branch|
        invariant Check(h, r, branch[k..], i) == Check(h, hash, branch, index)
      {
        assert branch[k..] == [branch[k]] + branch[k + 1..];
        CheckCons(h, r, branch[k], branch[k + 1..], i);
        if i % 2 == 1 {
          r := h(branch[k], r);
        } else {
          r := h(r, branch[k]);
        }
        i := i / 2;
      }
    }
  }
}
