/** Piece splitting: the file text is cut into consecutive windows of
    `pieceSize` characters; the last window may be shorter. */
module Pieces {
  import opened Arithmetic

  /** The pieces of `content`, first window first. Empty content has no
      pieces whatever the piece size, as the loop never runs. */
  function Split(content: string, pieceSize: int): seq<string>
    requires pieceSize >= 1 || content == []
    decreases |content|
  {
    if |content| == 0 then []
    else if |content| <= pieceSize then [content]
    else [content[..pieceSize]] + Split(content[pieceSize..], pieceSize)
  }

  /** The pieces glued back together, in order. */
  function Concat(pieces: seq<string>): string
  {
    if pieces == [] then [] else pieces[0] + Concat(pieces[1..])
  }

  /** Loop of splitFileIntoPieces: `content.substr(i, pieceSize)` for
      i = 0, pieceSize, 2 * pieceSize, ... while i < |content|. */
  method SplitFileIntoPieces(content: string, pieceSize: int) returns (pieces: seq<string>)
    requires pieceSize >= 1 || content == []
    ensures pieces == Split(content, pieceSize)
  {
    pieces := [];
    var i := 0;
    while i < |content|
      invariant 0 <= i
      invariant pieces + Split(content[Min(i, |content|)..], pieceSize) == Split(content, pieceSize)
      decreases |content| - i
    {
      ghost var rest := content[i..];
      if |rest| > pieceSize {
        assert rest[..pieceSize] == content[i..i + pieceSize];
        assert rest[pieceSize..] == content[i + pieceSize..];
      } else {
        assert rest == content[i..|content|];
        assert content[|content|..] == [];
      }
      pieces := pieces + [content[i..Min(i + pieceSize, |content|)]];
      i := i + pieceSize;
    }
  }

  /** Gluing the pieces back together gives the content exactly. */
  lemma {:induction false} SplitRoundTrip(content: string, pieceSize: nat)
    requires pieceSize >= 1
    ensures Concat(Split(content, pieceSize)) == content
    decreases |content|
  {
    if |content| == 0 {
    } else if |content| <= pieceSize {
      assert Concat([content]) == content + Concat([]);
    } else {
      var rest := Split(content[pieceSize..], pieceSize);
      SplitRoundTrip(content[pieceSize..], pieceSize);
      assert ([content[..pieceSize]] + rest)[1..] == rest;
      assert content[..pieceSize] + content[pieceSize..] == content;
    }
  }

  /** Every piece but the last is exactly `pieceSize` long, the last is 1 to
      `pieceSize` long, and only empty content has no pieces. */
  lemma {:induction false} SplitPieceLengths(content: string, pieceSize: nat)
    requires pieceSize >= 1
    ensures var pieces := Split(content, pieceSize);
      && (pieces == [] <==> content == [])
      && (forall k :: 0 <= k < |pieces| - 1 ==> |pieces[k]| == pieceSize)
      && (pieces != [] ==> 1 <= |pieces[|pieces| - 1]| <= pieceSize)
    decreases |content|
  {
    if |content| > pieceSize {
      SplitPieceLengths(content[pieceSize..], pieceSize);
    }
  }

  /** The number of pieces is ceil(|content| / pieceSize). */
  lemma {:induction false} SplitCount(content: string, pieceSize: nat)
    requires pieceSize >= 1
    ensures |Split(content, pieceSize)| == (|content| + pieceSize - 1) / pieceSize
    decreases |content|
  {
    var n := pieceSize;
    if |content| == 0 {
      assert (n - 1) / n == 0;
    } else if |content| <= n {
      DivIsOne(|content| + n - 1, n);
    } else {
      SplitCount(content[n..], n);
      DivShift(|content| - n + n - 1, n);
    }
  }

  /** Piece k is the window `content.substr(k * pieceSize, pieceSize)`. */
  lemma {:induction false} SplitPieceAt(content: string, pieceSize: nat, k: nat)
    requires pieceSize >= 1
    requires k < |Split(content, pieceSize)|
    ensures k * pieceSize < |content|
    ensures Split(content, pieceSize)[k] == content[k * pieceSize .. Min(k * pieceSize + pieceSize, |content|)]
    decreases |content|
  {
    var n := pieceSize;
    if k > 0 {
      var rest := content[n..];
      var start := (k - 1) * n;
      SplitPieceAt(rest, n, k - 1);
      assert start + n == k * n;
      assert Split(content, n)[k] == rest[start..Min(start + n, |rest|)];
      assert rest[start..Min(start + n, |rest|)] == content[k * n..Min(k * n + n, |content|)];
    }
  }
}
