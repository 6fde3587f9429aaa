/** Merkle tree construction: levels are built bottom-up by hashing the string
    concatenation of sibling pairs; on a level with an odd count the last node is
    paired with itself. A tree is the list of its levels, leaves first. */
module MerkleTrees {
  import opened Arithmetic
  import opened Digests

  /** The right-hand partner of node `i`: node `i + 1`, or node `i` itself when
      `i` is the last node of the level. */
  function RightOf(level: seq<Digest>, i: nat): Digest
    requires i < |level|
  {
    if i + 1 < |level| then level[i + 1] else level[i]
  }

  /** The level above `level`, formed pair by pair from the left. */
  function NextLevel(h: Hasher, level: seq<Digest>): (next: seq<Digest>)
    ensures |next| == (|level| + 1) / 2
    decreases |level|
  {
    if |level| == 0 then []
    else
      var left: string := level[0];
      if |level| == 1 then [h(left + level[0])]
      else [h(left + level[1])] + NextLevel(h, level[2..])
  }

  /** Pairing rule: node k of the level above is the digest of node 2k followed
      by its right-hand partner. */
  lemma {:induction false} NextLevelPairing(h: Hasher, level: seq<Digest>, k: nat)
    requires k < |NextLevel(h, level)|
    ensures 2 * k < |level|
    ensures NextLevel(h, level)[k] == h(level[2 * k] + RightOf(level, 2 * k))
    decreases |level|
  {
    if k > 0 {
      NextLevelPairing(h, level[2..], k - 1);
      assert level[2..][2 * (k - 1)] == level[2 * k];
      assert RightOf(level[2..], 2 * (k - 1)) == RightOf(level, 2 * k);
    }
  }

  /** All levels of the tree over `leaves`, from the leaves up to the first level
      with at most one node. */
  function BuildTree(h: Hasher, leaves: seq<Digest>): seq<seq<Digest>>
    decreases |leaves|
  {
    if |leaves| <= 1 then [leaves] else [leaves] + BuildTree(h, NextLevel(h, leaves))
  }

  /** Inner loop of buildMerkleTree: for i = 0, 2, 4, ... hash `left + right`. */
  method HashLevel(h: Hasher, level: seq<Digest>) returns (next: seq<Digest>)
    ensures next == NextLevel(h, level)
  {
    next := [];
    var i := 0;
    while i < |level|
      invariant 0 <= i <= |level| + 1
      invariant next + NextLevel(h, level[Min(i, |level|)..]) == NextLevel(h, level)
      decreases |level| - i
    {
      ghost var rest := level[i..];
      var left: string := level[i];
      var right := if i + 1 < |level| then level[i + 1] else level[i];
      if |rest| >= 2 {
        assert rest[2..] == level[Min(i + 2, |level|)..];
      } else {
        assert level[Min(i + 2, |level|)..] == [];
      }
      next := next + [h(left + right)];
      i := i + 2;
    }
  }

  /** buildMerkleTree: push levels until the current level has at most one node. */
  method BuildMerkleTree(h: Hasher, leafHashes: seq<Digest>) returns (tree: seq<seq<Digest>>)
    ensures tree == BuildTree(h, leafHashes)
  {
    tree := [leafHashes];
    var currentLevel := leafHashes;
    ghost var below: seq<seq<Digest>> := [];
    while |currentLevel| > 1
      invariant tree == below + [currentLevel]
      invariant below + BuildTree(h, currentLevel) == BuildTree(h, leafHashes)
      decreases |currentLevel|
    {
      var nextLevel := HashLevel(h, currentLevel);
      BuildTreeStep(h, below, currentLevel);
      below := tree;
      tree := tree + [nextLevel];
      currentLevel := nextLevel;
    }
  }

  /** One more level: a prefix of levels followed by the tree over a level with
      two or more nodes is the prefix, that level, and the tree over its successor. */
  lemma BuildTreeStep(h: Hasher, below: seq<seq<Digest>>, level: seq<Digest>)
    requires |level| > 1
    ensures |NextLevel(h, level)| < |level|
    ensures below + BuildTree(h, level) == (below + [level]) + BuildTree(h, NextLevel(h, level))
  {
    var above := BuildTree(h, NextLevel(h, level));
    assert BuildTree(h, level) == [level] + above;
    assert below + ([level] + above) == (below + [level]) + above;
  }

  /** The shape of the tree: level 0 is the leaves; every later level is the
      level above its predecessor, which had at least two nodes; the top level has
      at most one node, and exactly one when there is at least one leaf. */
  lemma {:induction false} TreeLevels(h: Hasher, leaves: seq<Digest>)
    ensures var t := BuildTree(h, leaves);
      && |t| >= 1 && t[0] == leaves
      && (forall l :: 0 <= l < |t| - 1 ==> |t[l]| >= 2 && t[l + 1] == NextLevel(h, t[l]))
      && |t[|t| - 1]| <= 1
      && (leaves != [] ==> |t[|t| - 1]| == 1)
      && (|leaves| <= 1 ==> t == [leaves])
    decreases |leaves|
  {
    if |leaves| > 1 {
      var next := NextLevel(h, leaves);
      TreeLevels(h, next);
      var t, u := BuildTree(h, leaves), BuildTree(h, next);
      assert t == [leaves] + u;
      forall l | 1 <= l < |t| - 1 ensures |t[l]| >= 2 && t[l + 1] == NextLevel(h, t[l]) {
        assert t[l] == u[l - 1] && t[l + 1] == u[l];
      }
    }
  }

  /** The tree over n >= 1 leaves has ceil(log2 n) + 1 levels: 2^(levels - 1) is
      the least power of two that is at least n. */
  lemma {:induction false} TreeHeight(h: Hasher, leaves: seq<Digest>)
    requires leaves != []
    ensures var t := BuildTree(h, leaves);
      && |leaves| <= Pow2(|t| - 1)
      && (|t| >= 2 ==> Pow2(|t| - 2) < |leaves|)
    decreases |leaves|
  {
    if |leaves| > 1 {
      var next := NextLevel(h, leaves);
      TreeHeight(h, next);
      var t, u := BuildTree(h, leaves), BuildTree(h, next);
      assert t == [leaves] + u;
      assert |t| - 1 == |u| >= 1;
      assert Pow2(|t| - 1) == 2 * Pow2(|u| - 1);
    }
  }

  /** The number of levels and the size of each depend only on how many leaves
      there are. */
  lemma {:induction false} TreeSameShape(h: Hasher, leaves1: seq<Digest>, leaves2: seq<Digest>)
    requires |leaves1| == |leaves2|
    ensures var t1, t2 := BuildTree(h, leaves1), BuildTree(h, leaves2);
      |t1| == |t2| && forall l :: 0 <= l < |t1| ==> |t1[l]| == |t2[l]|
    decreases |leaves1|
  {
    if |leaves1| > 1 {
      var n1, n2 := NextLevel(h, leaves1), NextLevel(h, leaves2);
      TreeSameShape(h, n1, n2);
      var t1, t2 := BuildTree(h, leaves1), BuildTree(h, leaves2);
      var u1, u2 := BuildTree(h, n1), BuildTree(h, n2);
      assert t1 == [leaves1] + u1 && t2 == [leaves2] + u2;
      forall l | 1 <= l < |t1| ensures |t1[l]| == |t2[l]| {
        assert t1[l] == u1[l - 1] && t2[l] == u2[l - 1];
      }
    }
  }

  /** Index of the ancestor of node i, l levels up: halve the index once per
      level. */
  function AncestorIndex(i: nat, l: nat): nat
  {
    if l == 0 then i else AncestorIndex(i / 2, l - 1)
  }

  /** Halving once more moves one level further up. */
  lemma {:induction false} AncestorIndexStep(i: nat, l: nat)
    ensures AncestorIndex(i, l + 1) == AncestorIndex(i, l) / 2
  {
    if l > 0 {
      AncestorIndexStep(i / 2, l - 1);
    }
  }

  /** The ancestor l levels up of node i is node floor(i / 2^l). */
  lemma {:induction false} AncestorIndexIsQuotient(i: nat, l: nat)
    ensures AncestorIndex(i, l) == i / Pow2(l)
  {
    if l > 0 {
      AncestorIndexIsQuotient(i / 2, l - 1);
      DivDiv(i, 2, Pow2(l - 1));
    }
  }

  /** The ancestor of leaf i exists on every level of the tree, and on the top
      level it is the root (index 0). */
  lemma {:induction false} AncestorInBounds(h: Hasher, leaves: seq<Digest>, i: nat)
    requires i < |leaves|
    ensures var t := BuildTree(h, leaves);
      && (forall l :: 0 <= l < |t| ==> AncestorIndex(i, l) < |t[l]|)
      && AncestorIndex(i, |t| - 1) == 0
    decreases |leaves|
  {
    if |leaves| > 1 {
      var next := NextLevel(h, leaves);
      AncestorInBounds(h, next, i / 2);
      var t, u := BuildTree(h, leaves), BuildTree(h, next);
      assert t == [leaves] + u;
      forall l | 1 <= l < |t| ensures AncestorIndex(i, l) < |t[l]| {
        assert t[l] == u[l - 1];
      }
    }
  }

  /** Changing leaf j of a level changes which string is hashed into its parent:
      the two strings hashed for node j / 2 differ, provided every node of both
      levels is a digest. */
  lemma PairTamper(h: Hasher, a: seq<Digest>, b: seq<Digest>, j: nat) returns (x: string, y: string)
    requires |a| == |b| && j < |a|
    requires a[j] != b[j]
    ensures x != y
    ensures h(x) == NextLevel(h, a)[j / 2] && h(y) == NextLevel(h, b)[j / 2]
  {
    var k := j / 2;
    NextLevelPairing(h, a, k);
    NextLevelPairing(h, b, k);
    x := a[2 * k] + RightOf(a, 2 * k);
    y := b[2 * k] + RightOf(b, 2 * k);
    assert x[..DigestLength] == a[2 * k] && y[..DigestLength] == b[2 * k];
    assert x[DigestLength..] == RightOf(a, 2 * k) && y[DigestLength..] == RightOf(b, 2 * k);
    if j == 2 * k {
      assert x[..DigestLength] != y[..DigestLength];
    } else {
      assert x[DigestLength..] != y[DigestLength..];
    }
  }

  /** Tamper sensitivity along the ancestor path: if leaf i differs between two
      equally long leaf lists, then wherever the ancestors of i at level l
      coincide, the hash has a collision, exhibited as two different strings
      with the same digest. */
  lemma {:induction false} TamperAlongPath(h: Hasher, leaves1: seq<Digest>, leaves2: seq<Digest>, i: nat, l: nat)
    returns (x: string, y: string)
    requires |leaves1| == |leaves2| && i < |leaves1|
    requires leaves1[i] != leaves2[i]
    requires l < |BuildTree(h, leaves1)|
    ensures l < |BuildTree(h, leaves2)|
    ensures AncestorIndex(i, l) < |BuildTree(h, leaves1)[l]| == |BuildTree(h, leaves2)[l]|
    ensures BuildTree(h, leaves1)[l][AncestorIndex(i, l)] == BuildTree(h, leaves2)[l][AncestorIndex(i, l)]
      ==> x != y && h(x) == h(y)
    decreases |leaves1|
  {
    AncestorInBounds(h, leaves1, i);
    TreeSameShape(h, leaves1, leaves2);
    if l == 0 {
      x, y := leaves1[i], leaves2[i];
    } else {
      var n1, n2 := NextLevel(h, leaves1), NextLevel(h, leaves2);
      assert BuildTree(h, leaves1) == [leaves1] + BuildTree(h, n1);
      assert BuildTree(h, leaves2) == [leaves2] + BuildTree(h, n2);
      if n1[i / 2] != n2[i / 2] {
        x, y := TamperAlongPath(h, n1, n2, i / 2, l - 1);
      } else {
        x, y := PairTamper(h, leaves1, leaves2, i);
      }
    }
  }

  /** Tamper sensitivity of the root: changing one leaf digest leaves the root
      unchanged only through a hash collision. */
  lemma TamperChangesRoot(h: Hasher, leaves1: seq<Digest>, leaves2: seq<Digest>, i: nat)
    returns (x: string, y: string)
    requires |leaves1| == |leaves2| && i < |leaves1|
    requires leaves1[i] != leaves2[i]
    ensures var t1, t2 := BuildTree(h, leaves1), BuildTree(h, leaves2);
      && |t1| == |t2| && |t1[|t1| - 1]| == |t2[|t2| - 1]| == 1
      && (t1[|t1| - 1][0] == t2[|t2| - 1][0] ==> x != y && h(x) == h(y))
  {
    var t1 := BuildTree(h, leaves1);
    TreeLevels(h, leaves1);
    TreeLevels(h, leaves2);
    TreeSameShape(h, leaves1, leaves2);
    AncestorInBounds(h, leaves1, i);
    x, y := TamperAlongPath(h, leaves1, leaves2, i, |t1| - 1);
  }

  /** Five leaves give levels of 5, 3, 2 and 1 nodes. */
  lemma FiveLeavesLevelSizes(h: Hasher, leaves: seq<Digest>)
    requires |leaves| == 5
    ensures var t := BuildTree(h, leaves);
      |t| == 4 && |t[0]| == 5 && |t[1]| == 3 && |t[2]| == 2 && |t[3]| == 1
  {
    var l1 := NextLevel(h, leaves);
    var l2 := NextLevel(h, l1);
    var l3 := NextLevel(h, l2);
    assert BuildTree(h, l3) == [l3];
    assert BuildTree(h, l2) == [l2, l3];
    assert BuildTree(h, l1) == [l1, l2, l3];
  }
}
