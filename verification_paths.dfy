/** The verification path: the ancestors of one leaf, level by level, from the
    leaf up to the root. */
module VerificationPaths {
  import opened MerkleTrees

  /** Index arithmetic of highlightVerificationPath: the node visited on each
      level, as (level, index) pairs, starting at `pieceIndex` on level 0 and
      halving the index once per level, for `levels` levels. The index on level
      l is floor(pieceIndex / 2^l) by AncestorIndexIsQuotient. */
  method VerificationPath(pieceIndex: nat, levels: nat) returns (path: seq<(nat, nat)>)
    ensures |path| == levels
    ensures forall l :: 0 <= l < levels ==> path[l] == (l, AncestorIndex(pieceIndex, l))
  {
    path := [];
    var currentIndex := pieceIndex;
    var level := 0;
    while level < levels
      invariant level <= levels && |path| == level
      invariant currentIndex == AncestorIndex(pieceIndex, level)
      invariant forall l :: 0 <= l < level ==> path[l] == (l, AncestorIndex(pieceIndex, l))
    {
      path := path + [(level, currentIndex)];
      AncestorIndexStep(pieceIndex, level);
      currentIndex := currentIndex / 2;
      level := level + 1;
    }
  }
}
