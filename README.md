# Merkle tree visualiser: verified model of the piece and tree pipeline

The repository is a browser page that shows how a BitTorrent-like client uses a
Merkle tree to check file pieces. Apart from the rendering, `script.js` holds a
small sequential pipeline and a little module-level state. This project models
that pipeline and state in Dafny:

- **Piece splitting** (`splitFileIntoPieces`). The file text is cut into
  consecutive windows of `pieceSize` characters. The last window may be shorter.
- **Leaf hashing** (`hashPieces`). Each piece maps, in order, to its digest.
- **Tree construction** (`buildMerkleTree`). Each level is built from the one
  below by hashing the concatenation of sibling pairs. On an odd level the last
  node is paired with itself. Construction stops at the first level with at
  most one node.
- **Verification path** (`highlightVerificationPath`). This is the list of
  (level, index) nodes from a leaf up to the top, halving the index once per
  level.
- **Verification and simulated corruption** (`verifyDownloadedPieces`,
  `simulatePieceCorruption`, `resetSimulation`, `startSimulation`). The state
  lives in the class `Torrent.Simulation`, whose fields are the module-level
  variables `merkleTree`, `originalHashes`, `filePieces` and
  `simulatedCorruptions`.

The digest is SHA-256 over the UTF-8 encoding, in hex, cut to 16 characters.
It is not computed here. Every operation takes it as a parameter of type
`Digests.Hasher`, a function from strings to `Digest`. A `Digest` is a string of
exactly 16 characters. The digest is deterministic, so every tree is a function
of its leaves. Because 16 characters cannot be collision-free, the
tamper-sensitivity lemmas do not claim that the root always changes. They
return two different strings with the same digest whenever a changed leaf
leaves a node on its path, or the root, unchanged.

Each loop of the source is a method proved equal to a recursive specification
function:

| method | specification function |
|---|---|
| `SplitFileIntoPieces` | `Split` |
| `HashPieces` | `HashAll` |
| `HashLevel` | `NextLevel` |
| `BuildMerkleTree` | `BuildTree` |
| `VerificationPath` | `AncestorIndex` |
| `FindCorruptPieces` | `CorruptNumbers`, built on `IsCorrupt` (the decision for one piece) |

The lemmas state what the source promises of those functions.

Three points follow the code where a byte-oriented Merkle design would differ:

- An empty leaf list is not an error. `buildMerkleTree([])` returns the single
  level `[[]]` (script.js:97-111). The page then fails while rendering, which
  is presentation code.
- The highlighted path is the chain of ancestors, not the sibling digests.
- The file is handled as text (a `string`), not as bytes.

## Model

| member | source | states |
|---|---|---|
| `Pieces.SplitFileIntoPieces` | script.js:80-86 | The loop `substr(i, pieceSize)` for i = 0, pieceSize, 2*pieceSize, ... yields exactly `Split(content, pieceSize)`; empty text gives no pieces for any size; non-empty text needs pieceSize >= 1, because the loop never ends otherwise |
| `Pieces.SplitRoundTrip` | script.js:80-86 | Concatenating the pieces in order gives back the content exactly |
| `Pieces.SplitPieceLengths` | script.js:82-83 | There are no pieces iff the content is empty; every piece but the last has length pieceSize; the last has length 1..pieceSize |
| `Pieces.SplitCount` | script.js:82-84 | The number of pieces is ceil(\|content\| / pieceSize) |
| `Pieces.SplitPieceAt` | script.js:83 | Piece k is the window content[k*pieceSize .. min((k+1)*pieceSize, \|content\|)], i.e. `content.substr(k * pieceSize, pieceSize)` |
| `LeafHashes.HashAll` | script.js:88-94 | The leaf list has one digest per piece, and digest i is H(piece i) |
| `LeafHashes.HashPieces` | script.js:88-94 | The loop that pushes one digest per piece returns H(piece i) at every i, the same length as the input, equal to `HashAll` |
| `MerkleTrees.NextLevel` | script.js:101-106 | The level above a level of n nodes has ceil(n / 2) nodes |
| `MerkleTrees.NextLevelPairing` | script.js:102-105 | Node k of the level above is H(level[2k] + level[2k+1]), or H(level[2k] + level[2k]) when 2k+1 is out of range |
| `MerkleTrees.HashLevel` | script.js:101-106 | The inner loop (i += 2, left/right, push) produces exactly `NextLevel` |
| `MerkleTrees.BuildMerkleTree` | script.js:96-112 | The outer loop (push levels while the current level has more than one node) produces exactly `BuildTree(leaves)` |
| `MerkleTrees.TreeLevels` | script.js:97-111 | Level 0 is the leaf list; each later level is the level above its predecessor, which had at least 2 nodes; the top level has at most one node, exactly one when there are leaves; 0 or 1 leaves give the one-level tree `[leaves]` |
| `MerkleTrees.TreeHeight` | script.js:100-109 | With n >= 1 leaves the tree has ceil(log2 n) + 1 levels: n <= 2^(levels-1) and, when there are at least 2 levels, 2^(levels-2) < n |
| `MerkleTrees.TreeSameShape` | script.js:100-109 | The number of levels and each level's size depend only on the number of leaves |
| `MerkleTrees.FiveLeavesLevelSizes` | script.js:100-109 | Five leaves give levels of 5, 3, 2 and 1 nodes |
| `MerkleTrees.AncestorIndexStep` | script.js:382-383 | Halving the current index once more gives the ancestor one level higher |
| `MerkleTrees.AncestorIndexIsQuotient` | script.js:373-384 | The index reached on level L from leaf i is floor(i / 2^L) |
| `MerkleTrees.AncestorInBounds` | script.js:376-383 | For a leaf index i < \|leaves\|, the ancestor index on every level is within that level, and on the top level it is 0 (the root) |
| `MerkleTrees.PairTamper` | script.js:102-105 | If two equally long levels differ at node j, the two strings hashed into parent j/2 differ |
| `MerkleTrees.TamperAlongPath` | script.js:97-111 | If leaf i differs between two equally long leaf lists, any level at which the ancestors of i coincide yields two different strings with the same digest (a collision) |
| `MerkleTrees.TamperChangesRoot` | script.js:97-111 | Changing one leaf leaves the root unchanged only through an exhibited hash collision; both trees have the same number of levels and a single root |
| `VerificationPaths.VerificationPath` | script.js:373-384 | The loop visits exactly `levels` nodes, at levels 0, 1, ... in order, the node on level L being the ancestor index of the piece (floor(i / 2^L) by `AncestorIndexIsQuotient`) |
| `Torrent.Toggle` | script.js:305-315 | Toggling piece i flips i's membership in the override set and changes no other index |
| `Torrent.ToggleTwice` | script.js:305-315 | Toggling the same piece twice restores the override set |
| `Torrent.CorruptNumbersExact` | script.js:322-344 | Number k is reported iff 1 <= k <= n, piece k-1 is not missing, and it is in the override set or its rehash differs from the recorded digest; the numbers are strictly increasing |
| `Torrent.FindCorruptPieces` | script.js:322-344 | The loop (skip missing, override short-circuits the rehash, push i+1) returns exactly `CorruptNumbers` over all pieces |
| `Torrent.CorruptAgainstRecorded` | script.js:328-334 | `IsCorrupt`: against the digests recorded from the original pieces, a piece is corrupt iff it is in the override set or its digest differs from the original piece's digest |
| `Torrent.NothingReportedWithoutCorruption` | script.js:328-334 | With an empty override set and recorded digests equal to the digests of the pieces, nothing is reported |
| `Torrent.HundredCharacterFile` | script.js:59-71 | A 100-character file with piece size 30 gives pieces of 30, 30, 30 and 10 characters and a tree of levels 4, 2, 1 |
| `Torrent.EmptyFile` | script.js:59-71 | Empty text gives no pieces for every piece size, and the tree is the single empty level `[[]]` |
| `Torrent.SinglePieceFile` | script.js:59-71 | A file that fits in one piece gives a one-level tree whose root is the digest of the whole file |
| `Torrent.Simulation.constructor` | script.js:1-5 | Initial state: no tree, no hashes, no pieces, no simulated corruption |
| `Torrent.Simulation.StartSimulation` | script.js:48-78 | With no file nothing changes; otherwise pieces = `Split`, hashes = `HashAll(pieces)`, tree = `BuildTree(hashes)`, and (corrected, see Findings) the override set is emptied; the state invariant `Valid` holds afterwards |
| `Torrent.Simulation.StartSimulationAsWritten` | script.js:48-78 | The same, except that the override set is kept from the previous run, as the source does |
| `Torrent.Simulation.SimulatePieceCorruption` | script.js:302-316 | The override set becomes `Toggle(old set, i)`; nothing else changes |
| `Torrent.Simulation.VerifyDownloadedPieces` | script.js:318-366 | Reports exactly `CorruptNumbers` (the iff above, increasing order); reports nothing when there is no override and the digests match; modifies nothing, the tree included; when the report is non-empty the path starts from its first entry minus 1, has one node per level, and under `Valid` every index lies within its level |
| `Torrent.Simulation.ResetSimulation` | script.js:387-408 | Tree becomes None (null), hashes and pieces empty, override set empty |
| `Torrent.StaleCorruptionAfterRerun` | script.js:48-78 | Two runs without Clear, piece 1 clicked in the first: as written, the second run reports `[1]` |
| `Torrent.NoStaleCorruptionAfterRerun` | script.js:48-78 | The same two runs with the corrected `StartSimulation` report nothing |

## Left out

- SHA-256, `TextEncoder` and `crypto.subtle.digest` (script.js:18-21) are foreign calls. The digest is a parameter that promises only a 16-character result; that the characters are lower-case hex is not modelled.
- `async`/`await`, `delay` and the pacing between stages are not modelled. `StartSimulation` runs its three stages as one atomic step, so no state is observed halfway through a run.
- `readFileAsText` (`FileReader` I/O) is not modelled. The file text is an input. JavaScript strings are sequences of UTF-16 code units; the model uses `seq<char>`.
- Pieces.SplitFileIntoPieces: requires pieceSize >= 1 or empty text. Empty text gives no pieces for every size, NaN included, and this is modelled for every integer size. For non-empty text and a size of 0 or less, the source loops forever. For non-empty text and a non-numeric size (`parseInt` gives NaN), it yields one empty piece. Neither non-empty case is modelled, and NaN is not a model value.
- `simulateProgressiveDownload` (timers and `Math.random`) is not modelled. Which pieces have not downloaded yet is the `missing` input of `VerifyDownloadedPieces`.
- `formatFileSize` is not modelled (floating-point division and `toFixed`).
- Rendering and event wiring are not modelled. This covers `showFilePieces`, `showPieceHashes`, `showMerkleTree`, `renderTreeLevels`, `simulateP2PTransfer`, `updateStepIndicator` (with `currentStep`), `handleFileSelect`, the listeners, the CSS classes set on piece elements, the result messages and the root shown on success.
- Torrent.Simulation.SimulatePieceCorruption: the source decides by the piece element's `corrupted` class; the model decides by membership in the override set. The two agree in every state reached through these operations, except after a rerun without Clear under the as-written start (see Findings).
- Torrent.Simulation.VerifyDownloadedPieces: requires a built tree, as the Verify button exists only after a run. It returns the (level, index) path that the loop of `highlightVerificationPath` computes (script.js:373-384). In the page nothing is highlighted. The Verify button exists only in the transfer view, which replaced the tree markup in `#visualization` (script.js:179, 261), so the lookup at script.js:377-380 finds no node to mark on any level.
- Concurrency (a reset or new run while a run is in progress) is not modelled.
- The selected file is not modelled as state; `StartSimulation` takes it as an `Option` parameter. `resetSimulation` also clears the file input (script.js:406-407). After Clear, Simulate without a new file choice only shows the alert (script.js:50-52), which the model gives as `StartSimulation(None, _)` changing nothing.

## Findings

| source | as written | input that shows it | evidently intended | confidence | as-written member | corrected member |
|---|---|---|---|---|---|---|
| script.js:48-78 | `startSimulation` replaces `filePieces`, `originalHashes` and `merkleTree` but never clears `simulatedCorruptions` | Run once on a two-character file with piece size 1 and click piece 1. Without Clear, press Simulate again. Let both pieces download, then press Verify: piece 1 is reported corrupt although nothing was clicked in this run | A new run starts with no simulated corruption, as after Clear (script.js:405) | medium; not executed | Torrent.Simulation.StartSimulationAsWritten (counterexample: Torrent.StaleCorruptionAfterRerun) | Torrent.Simulation.StartSimulation (Torrent.NoStaleCorruptionAfterRerun) |
