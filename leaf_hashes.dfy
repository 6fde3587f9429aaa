/** Leaf hashing: each piece, in order, maps to its digest. */
module LeafHashes {
  import opened Digests

  /** The digests of `pieces`, first piece first. */
  function HashAll(h: Hasher, pieces: seq<string>): (hashes: seq<Digest>)
    ensures |hashes| == |pieces|
    ensures forall i :: 0 <= i < |pieces| ==> hashes[i] == h(pieces[i])
  {
    if pieces == [] then [] else [h(pieces[0])] + HashAll(h, pieces[1..])
  }

  /** Loop of hashPieces: push the digest of each piece in turn. */
  method HashPieces(h: Hasher, pieces: seq<string>) returns (hashes: seq<Digest>)
    ensures |hashes| == |pieces|
    ensures forall i :: 0 <= i < |pieces| ==> hashes[i] == h(pieces[i])
    ensures hashes == HashAll(h, pieces)
  {
    hashes := [];
    for i := 0 to |pieces|
      invariant |hashes| == i
      invariant forall k :: 0 <= k < i ==> hashes[k] == h(pieces[k])
    {
      hashes := hashes + [h(pieces[i])];
    }
  }
}
