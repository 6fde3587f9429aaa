/** The simulation's module-level state and the operations that change or read
    it: starting a run, toggling a simulated corruption, verifying the
    downloaded pieces and resetting. */
module Torrent {
  import opened Digests
  import opened Pieces
  import opened LeafHashes
  import opened MerkleTrees
  import opened VerificationPaths

  datatype Option<T> = None | Some(value: T)

  /** The override set after clicking piece i: i's membership flips and no
      other index changes. */
  function Toggle(overrides: set<int>, i: int): (r: set<int>)
    ensures i in r <==> i !in overrides
    ensures forall j :: j != i ==> (j in r <==> j in overrides)
  {
    if i in overrides then overrides - {i} else overrides + {i}
  }

  /** Toggling the same piece twice restores the override set. */
  lemma ToggleTwice(overrides: set<int>, i: int)
    ensures Toggle(Toggle(overrides, i), i) == overrides
  {
  }

  /** Whether verification finds piece i corrupt: it is in the override set, or
      its digest differs from the recorded one (a missing recorded digest never
      matches). */
  predicate IsCorrupt(h: Hasher, pieces: seq<string>, hashes: seq<Digest>, overrides: set<int>, i: nat)
    requires i < |pieces|
  {
    i in overrides || i >= |hashes| || h(pieces[i]) != hashes[i]
  }

  /** Against digests recorded from `recorded`, piece i of `pieces` is corrupt
      exactly when it is in the override set or its digest differs from that of
      the recorded piece i. */
  lemma CorruptAgainstRecorded(h: Hasher, recorded: seq<string>, pieces: seq<string>,
                               overrides: set<int>, i: nat)
    requires |pieces| == |recorded| && i < |pieces|
    ensures IsCorrupt(h, pieces, HashAll(h, recorded), overrides, i)
            <==> i in overrides || h(pieces[i]) != h(recorded[i])
  {
  }

  /** The 1-based numbers of the corrupt pieces among the first n that are
      present (not in `missing`), in the order the loop finds them. */
  function CorruptNumbers(h: Hasher, pieces: seq<string>, hashes: seq<Digest>,
                          overrides: set<int>, missing: set<int>, n: nat): seq<int>
    requires n <= |pieces|
  {
    if n == 0 then []
    else
      CorruptNumbers(h, pieces, hashes, overrides, missing, n - 1)
      + (if n - 1 !in missing && IsCorrupt(h, pieces, hashes, overrides, n - 1) then [n] else [])
  }

  /** `r` lists exactly the 1-based numbers k <= n of the present, corrupt
      pieces, in strictly increasing order. */
  ghost predicate ExactReport(r: seq<int>, h: Hasher, pieces: seq<string>, hashes: seq<Digest>,
                              overrides: set<int>, missing: set<int>, n: nat)
    requires n <= |pieces|
  {
    && (forall k :: k in r <==>
          1 <= k <= n && k - 1 !in missing && IsCorrupt(h, pieces, hashes, overrides, k - 1))
    && (forall a, b :: 0 <= a < b < |r| ==> r[a] < r[b])
  }

  /** Piece number k is reported iff 1 <= k <= n, piece k - 1 is present and it
      is corrupt; the numbers are strictly increasing. */
  lemma {:induction false} CorruptNumbersExact(h: Hasher, pieces: seq<string>, hashes: seq<Digest>,
                                               overrides: set<int>, missing: set<int>, n: nat)
    requires n <= |pieces|
    ensures ExactReport(CorruptNumbers(h, pieces, hashes, overrides, missing, n),
                        h, pieces, hashes, overrides, missing, n)
  {
    if n > 0 {
      CorruptNumbersExact(h, pieces, hashes, overrides, missing, n - 1);
      var before := CorruptNumbers(h, pieces, hashes, overrides, missing, n - 1);
      var r := CorruptNumbers(h, pieces, hashes, overrides, missing, n);
      if n - 1 !in missing && IsCorrupt(h, pieces, hashes, overrides, n - 1) {
        assert r == before + [n];
        forall k ensures k in r <==> k in before || k == n {
        }
        forall a, b | 0 <= a < b < |r| ensures r[a] < r[b] {
          if b == |before| {
            assert r[a] == before[a] && before[a] in before;
          }
        }
      } else {
        assert r == before;
      }
    }
  }

  /** The loop of verifyDownloadedPieces: skip missing pieces, take a piece in
      the override set as corrupt without hashing it, otherwise rehash it and
      compare with the recorded digest; push i + 1 for each corrupt piece. */
  method FindCorruptPieces(h: Hasher, pieces: seq<string>, hashes: seq<Digest>,
                           overrides: set<int>, missing: set<int>) returns (reported: seq<int>)
    ensures reported == CorruptNumbers(h, pieces, hashes, overrides, missing, |pieces|)
  {
    reported := [];
    var i := 0;
    while i < |pieces|
      invariant 0 <= i <= |pieces|
      invariant reported == CorruptNumbers(h, pieces, hashes, overrides, missing, i)
    {
      if i !in missing {
        var isCorrupt;
        if i in overrides {
          isCorrupt := true;
        } else {
          var currentHash := h(pieces[i]);
          isCorrupt := i >= |hashes| || currentHash != hashes[i];
        }
        if isCorrupt {
          reported := reported + [i + 1];
        }
      }
      i := i + 1;
    }
  }

  /** With no simulated corruption and the recorded digests equal to the
      digests of the pieces, verification reports nothing. */
  lemma {:induction false} NothingReportedWithoutCorruption(h: Hasher, pieces: seq<string>, missing: set<int>, n: nat)
    requires n <= |pieces|
    ensures CorruptNumbers(h, pieces, HashAll(h, pieces), {}, missing, n) == []
  {
    if n > 0 {
      NothingReportedWithoutCorruption(h, pieces, missing, n - 1);
    }
  }

  /** A 100-character file with piece size 30 gives pieces of 30, 30, 30 and 10
      characters, four leaves and a tree of three levels (4, 2, 1). */
  lemma HundredCharacterFile(h: Hasher, content: string)
    requires |content| == 100
    ensures var pieces := Split(content, 30);
      && |pieces| == 4
      && |pieces[0]| == 30 && |pieces[1]| == 30 && |pieces[2]| == 30 && |pieces[3]| == 10
      && var t := BuildTree(h, HashAll(h, pieces));
      |t| == 3 && |t[0]| == 4 && |t[1]| == 2 && |t[2]| == 1
  {
    var pieces := Split(content, 30);
    SplitCount(content, 30);
    SplitPieceLengths(content, 30);
    SplitPieceAt(content, 30, 3);
    var leaves := HashAll(h, pieces);
    var l1 := NextLevel(h, leaves);
    var l2 := NextLevel(h, l1);
    assert BuildTree(h, l2) == [l2];
    assert BuildTree(h, l1) == [l1, l2];
  }

  /** Empty text has no pieces for any piece size, and its tree is the one
      empty level `[[]]`. */
  lemma EmptyFile(h: Hasher, pieceSize: int)
    ensures Split([], pieceSize) == []
    ensures BuildTree(h, HashAll(h, Split([], pieceSize))) == [[]]
  {
  }

  /** A file that fits in one piece gives a one-level tree whose root is the
      digest of the whole file. */
  lemma SinglePieceFile(h: Hasher, content: string, pieceSize: nat)
    requires 1 <= |content| <= pieceSize
    ensures BuildTree(h, HashAll(h, Split(content, pieceSize))) == [[h(content)]]
  {
    assert Split(content, pieceSize) == [content];
    assert HashAll(h, [content]) == [h(content)];
  }

  class Simulation {
    /** The digest function (sha256 truncated to 16 hex characters). */
    const hash: Hasher
    /** The tree levels, leaves first; None before the first run and after a reset. */
    var merkleTree: Option<seq<seq<Digest>>>
    var originalHashes: seq<Digest>
    var filePieces: seq<string>
    /** Indices of pieces whose corruption is being simulated. */
    var simulatedCorruptions: set<int>

    /** The stages of a run agree: the recorded digests are those of the pieces,
        and the tree, once built, is the tree over them. */
    ghost predicate Valid()
      reads this
    {
      && originalHashes == HashAll(hash, filePieces)
      && (merkleTree.Some? ==> merkleTree.value == BuildTree(hash, originalHashes))
    }

    /** The state when the page loads. */
    constructor (h: Hasher)
      ensures hash == h
      ensures merkleTree == None && originalHashes == [] && filePieces == []
      ensures simulatedCorruptions == {}
      ensures Valid()
    {
      hash := h;
      merkleTree := None;
      originalHashes := [];
      filePieces := [];
      simulatedCorruptions := {};
    }

    /** startSimulation with the file's text (None when no file is selected):
        split, hash the pieces, build the tree. Corrected so that a new run also
        forgets the corruptions simulated in the previous one. */
    method StartSimulation(file: Option<string>, pieceSize: int)
      requires file.Some? ==> pieceSize >= 1 || file.value == []
      modifies this
      ensures file.None? ==> unchanged(this)
      ensures file.Some? ==>
        && filePieces == Split(file.value, pieceSize)
        && originalHashes == HashAll(hash, filePieces)
        && merkleTree == Some(BuildTree(hash, originalHashes))
        && simulatedCorruptions == {}
      ensures old(Valid()) ==> Valid()
    {
      if file.None? {
        return;
      }
      filePieces := SplitFileIntoPieces(file.value, pieceSize);
      originalHashes := HashPieces(hash, filePieces);
      var tree := BuildMerkleTree(hash, originalHashes);
      merkleTree := Some(tree);
      simulatedCorruptions := {};
    }

    /** startSimulation as written: the override set of the previous run is
        kept. */
    method StartSimulationAsWritten(file: Option<string>, pieceSize: int)
      requires file.Some? ==> pieceSize >= 1 || file.value == []
      modifies this
      ensures file.None? ==> unchanged(this)
      ensures file.Some? ==>
        && filePieces == Split(file.value, pieceSize)
        && originalHashes == HashAll(hash, filePieces)
        && merkleTree == Some(BuildTree(hash, originalHashes))
      ensures simulatedCorruptions == old(simulatedCorruptions)
      ensures old(Valid()) ==> Valid()
    {
      if file.None? {
        return;
      }
      filePieces := SplitFileIntoPieces(file.value, pieceSize);
      originalHashes := HashPieces(hash, filePieces);
      var tree := BuildMerkleTree(hash, originalHashes);
      merkleTree := Some(tree);
    }

    /** simulatePieceCorruption: clicking a displayed piece flips whether its
        corruption is simulated. */
    method SimulatePieceCorruption(pieceIndex: int)
      requires 0 <= pieceIndex < |filePieces|
      modifies this`simulatedCorruptions
      ensures simulatedCorruptions == Toggle(old(simulatedCorruptions), pieceIndex)
      ensures old(Valid()) ==> Valid()
    {
      if pieceIndex in simulatedCorruptions {
        simulatedCorruptions := simulatedCorruptions - {pieceIndex};
      } else {
        simulatedCorruptions := simulatedCorruptions + {pieceIndex};
      }
    }

    /** verifyDownloadedPieces: `missing` holds the indices of pieces not yet
        downloaded. Reports the 1-based numbers of the corrupt pieces, in
        increasing order, and the highlighted path of the first of them. Nothing
        is modified, the tree included. */
    method VerifyDownloadedPieces(missing: set<int>) returns (reported: seq<int>, path: seq<(nat, nat)>)
      requires merkleTree.Some?
      ensures reported == CorruptNumbers(hash, filePieces, originalHashes, simulatedCorruptions, missing, |filePieces|)
      ensures ExactReport(reported, hash, filePieces, originalHashes, simulatedCorruptions, missing, |filePieces|)
      ensures originalHashes == HashAll(hash, filePieces) && simulatedCorruptions == {} ==> reported == []
      ensures reported == [] ==> path == []
      ensures reported != [] ==> 1 <= reported[0] <= |filePieces|
      ensures reported != [] ==>
        && |path| == |merkleTree.value|
        && forall l :: 0 <= l < |path| ==> path[l] == (l, AncestorIndex(reported[0] - 1, l))
      ensures Valid() && reported != [] ==>
        forall l :: 0 <= l < |path| ==> path[l].1 < |merkleTree.value[l]|
    {
      reported := FindCorruptPieces(hash, filePieces, originalHashes, simulatedCorruptions, missing);
      CorruptNumbersExact(hash, filePieces, originalHashes, simulatedCorruptions, missing, |filePieces|);
      if originalHashes == HashAll(hash, filePieces) && simulatedCorruptions == {} {
        NothingReportedWithoutCorruption(hash, filePieces, missing, |filePieces|);
      }
      if reported != [] {
        assert reported[0] in reported;
        path := VerificationPath(reported[0] - 1, |merkleTree.value|);
        if Valid() {
          AncestorInBounds(hash, originalHashes, reported[0] - 1);
        }
      } else {
        path := [];
      }
    }

    /** resetSimulation: forget the run and the simulated corruptions. */
    method ResetSimulation()
      modifies this
      ensures merkleTree == None && originalHashes == [] && filePieces == []
      ensures simulatedCorruptions == {}
      ensures Valid()
    {
      merkleTree := None;
      originalHashes := [];
      filePieces := [];
      simulatedCorruptions := {};
    }
  }

  /** Two runs on the same two-character file with piece size 1, without Clear
      in between: piece 1 is clicked in the first run, and every piece of the
      second run has downloaded before Verify is clicked. As written, the second
      run reports piece 1 although nothing was clicked in it. */
  method StaleCorruptionAfterRerun(h: Hasher) returns (reported: seq<int>)
    ensures reported == [1]
  {
    var content := "ab";
    TwoPieces(content);
    var sim := new Simulation(h);
    sim.StartSimulation(Some(content), 1);
    sim.SimulatePieceCorruption(0);
    sim.StartSimulationAsWritten(Some(content), 1);
    assert sim.simulatedCorruptions == {0};
    assert !IsCorrupt(h, sim.filePieces, sim.originalHashes, {0}, 1);
    assert CorruptNumbers(h, sim.filePieces, sim.originalHashes, {0}, {}, 1) == [1];
    var path;
    reported, path := sim.VerifyDownloadedPieces({});
  }

  /** The same two runs with the corrected startSimulation report nothing. */
  method NoStaleCorruptionAfterRerun(h: Hasher) returns (reported: seq<int>)
    ensures reported == []
  {
    var content := "ab";
    TwoPieces(content);
    var sim := new Simulation(h);
    sim.StartSimulation(Some(content), 1);
    sim.SimulatePieceCorruption(0);
    sim.StartSimulation(Some(content), 1);
    var path;
    reported, path := sim.VerifyDownloadedPieces({});
  }

  lemma TwoPieces(content: string)
    requires content == "ab"
    ensures Split(content, 1) == ["a", "b"]
  {
    assert content[..1] == "a" && content[1..] == "b";
    assert Split("b", 1) == ["b"];
  }
}
