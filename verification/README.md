# chess-java match engine, modelled in Dafny

This project models the core of chess-java, a console chess game. The core
is the `ChessMatch` orchestrator, which does the following:

- validates a move;
- commits the move on the board, with capture, castling rook and en-passant victim;
- rejects a move that exposes the mover's king, reverting it;
- promotes a pawn;
- classifies check and checkmate of the opponent;
- advances the turn.

It also models two piece kinds' move generators, `Pawn` and `Bishop`. The
model is purely functional. A `Match` value holds:

- the turn counter and the player to move;
- the board, a map from (row, column) to pieces;
- the check and checkmate flags;
- the en-passant-vulnerable piece and the pending promotion;
- the capture log.

Every operation maps a `Match` to a new value.

Modules, one per component:

| file | module | models |
|---|---|---|
| `outcomes.dfy` | `Outcomes` | `Option`, `Result` and the error kinds (the source's exceptions) |
| `pieces.dfy` | `Pieces` | colours, kinds, pieces with identity and move count |
| `board.dfy` | `Board` | the 8x8 grid and its remove/place primitives |
| `pawn.dfy` | `PawnMoves` | `Pawn.possibleMoves` |
| `bishop.dfy` | `BishopMoves` | `Bishop.possibleMoves`, with a reference definition of a bishop's reach |
| `moves.dfy` | `Moves` | dispatch of move generation over kinds |
| `match.dfy` | `ChessMatch` | everything in `ChessMatch.java` |
| `roundtrip.dfy` | `RoundTrip` | when `undoMove` exactly reverts `makeMove` |
| `invariants.dfy` | `Invariants` | well-formedness (unique identities, capture log off the board) and its preservation by commits, reverts, promotion and completed or self-check moves |
| `move_rules.dfy` | `MoveRules` | what `performChessMove` guarantees |

How source constructs are represented:

- **Pieces.** Each piece carries an `id` that stands for Java object identity. The source compares pieces with `==` for en-passant vulnerability and finds the promoted piece by identity.
- **Exceptions.** A `ChessException` is a refusal with a `ChessError`. `PerformChessMove` returns `Refused(error, state)`, and that state is the one the source leaves behind. Unchecked exceptions become `Fault` and make the call `Aborted`. These include a `BoardException` from the grid, a null dereference, an array index out of bounds, and the `IllegalStateException` for a missing king.
- **Unseen move generators.** The move generators of Knight, Rook, Queen and King are not part of this model. They are a `Generator` parameter: any function of the board, the square, the piece and the match's check flag, whose result is cut down to the board's squares. The flag is an argument because the King is built with a reference to the match (`ChessMatch.java` lines 327 and 344).

The following behaviours are reproduced as written:

- A pawn's double step does not look at the square it passes over. It marks that square too.
- When the vulnerable opponent stands to the pawn's right, the en-passant case marks the left forward diagonal. At column 0 that indexes column -1 and faults. When that left forward diagonal is empty, committing the move removes whatever stands to the mover's left, logs it, and cannot be reverted exactly (`MoveRules.RightHandEnPassant`). When the diagonal is occupied, the commit is an ordinary capture of its occupant.
- The en-passant marker is never cleared. It is only overwritten by the next two-row pawn advance.
- Reverting a capture of the vulnerable piece moves that piece to row 3 (White mover) or 4 (Black mover) of the target column.
- The castling probe moves the king onto the transit square. After castling, that square holds the king's own rook, so the probe captures the rook and then restores it.
- `replacePromotedPiece` does not update `promoted`; the caller does.
- The check flag is stored before checkmate is tested. A King generator that reads the flag therefore sees the new value during the checkmate test (`ChessMatch.Conclude`).

The round trip is characterised exactly. Reverting a committed move restores the whole match if and only if the move is `RoundTrip.Restorable`. A move fails to be restorable only in the en-passant cases above. The proof assumes that no piece on the board appears in the capture log.

## Model

| member | source | states |
|---|---|---|
| Pieces.Opponent | src/chess/ChessMatch.java:272-274 | the opponent of a colour is the other colour |
| Pieces.Unmoved | src/chess/ChessMatch.java:207-210 | lowering the move count undoes raising it |
| PawnMoves.PawnMoves | src/chess/pieces/Pawn.java:24-80 | the pawn's mask faults exactly when a pawn on column 0 of its en-passant row has the vulnerable opponent to its right; otherwise every marked square is on the board, one row forward within one column, or two rows forward in the same column |
| PawnMoves.SingleStep | src/chess/pieces/Pawn.java:42-53 | the square ahead is marked iff it is on the board and empty, or the pawn is unmoved and the square two ahead is on the board and empty |
| PawnMoves.DoubleStep | src/chess/pieces/Pawn.java:46-53 | the square two ahead is marked iff the pawn is unmoved and that square is on the board and empty; the square in between is not consulted |
| PawnMoves.RightDiagonal | src/chess/pieces/Pawn.java:59-77 | the right forward diagonal is marked iff it holds an opponent: en passant never marks it |
| PawnMoves.LeftDiagonal | src/chess/pieces/Pawn.java:55-77 | the left forward diagonal is marked iff it holds an opponent, or the pawn is on its en-passant row beside the vulnerable opponent on either side |
| PawnMoves.EnPassantOnlyFromItsRow | src/chess/pieces/Pawn.java:63-77 | a marked diagonal square without an opponent is the left diagonal of a pawn on its en-passant row next to the vulnerable opponent |
| BishopMoves.Ray | src/chess/pieces/Bishop.java:24-30 | a ray marks only squares of the board |
| BishopMoves.RayExactly | src/chess/pieces/Bishop.java:24-54 | a ray marks exactly the on-board squares along its diagonal whose predecessors are empty and which are empty or hold an opponent |
| BishopMoves.BishopMoves | src/chess/pieces/Bishop.java:19-58 | the bishop's mask contains only squares of the board |
| BishopMoves.BishopMovesExactly | src/chess/pieces/Bishop.java:19-58 | the mask marks a square iff the reference definition reaches it: on a diagonal, nothing in between, empty or an opponent |
| BishopMoves.MarksOnlyDiagonals | src/chess/pieces/Bishop.java:24-54 | every marked square is on a diagonal through the bishop and is not its own square |
| BishopMoves.MarkedPathIsClear | src/chess/pieces/Bishop.java:24-54 | the squares between the bishop and a marked square are empty |
| BishopMoves.MarkedNeverFriendly | src/chess/pieces/Bishop.java:24-54 | no marked square holds a piece of the bishop's colour |
| BishopMoves.MarksUpToFirstBlocker | src/chess/pieces/Bishop.java:24-54 | along a clear ray an empty square is marked, and an occupied one is marked iff it holds an opponent |
| BishopMoves.NothingBeyondBlocker | src/chess/pieces/Bishop.java:24-54 | no square beyond the first occupied square of a ray is marked |
| BishopMoves.OccupancyDetermines | src/chess/pieces/Bishop.java:19-58 | the mask depends only on which squares are occupied and by which colour |
| Board.RemovePiece | src/chess/ChessMatch.java:162-165 | removal succeeds exactly on a board square and returns what stood there, leaving it empty; off the board it faults |
| Board.PlacePiece | src/chess/ChessMatch.java:203 | placement succeeds exactly for a piece on an empty board square, which then holds it; otherwise it faults (an occupied square is treated as a fault) |
| Board.RemoveFrame | src/chess/ChessMatch.java:162-165 | removal leaves every other square as it was |
| Board.PlaceFrame | src/chess/ChessMatch.java:203 | placement leaves every other square as it was |
| Board.PlaceThenRemove | src/chess/ChessMatch.java:207-208 | removing a piece just placed on an empty square gives back the grid and the piece |
| Board.RemoveThenPlace | src/chess/ChessMatch.java:207-210 | placing back what was just removed from a square gives back the grid |
| Moves.Moves | src/chess/ChessMatch.java:67-71 | a mask marks only board squares, and only a pawn's mask can fault |
| ChessMatch.StartingBoard | src/chess/ChessMatch.java:326-360 | the starting grid fills exactly rows 0, 1, 6 and 7 with the standard pieces |
| ChessMatch.InitialSetup | src/chess/ChessMatch.java:25-30 | a new match is turn 1, White to move, no flags, empty log; Black on rows 0-1, White on rows 6-7, pawns on the inner rows, all unmoved |
| Invariants.InitialKings | src/chess/ChessMatch.java:326-360 | the king search finds the White king on (7, 4) and the Black king on (0, 4) |
| Invariants.InitialWf | src/chess/ChessMatch.java:326-360 | the starting match is well formed |
| ChessMatch.NextTurn | src/chess/ChessMatch.java:262-265 | the turn goes up by one, the other colour moves, nothing else changes |
| ChessMatch.KingFrom | src/chess/ChessMatch.java:276-286 | the search returns a king of the colour, or proves there is none from that index on |
| ChessMatch.KingSquare | src/chess/ChessMatch.java:276-286 | some king of the colour is found iff one is on the board |
| ChessMatch.MakeMove | src/chess/ChessMatch.java:162-205 | a commit puts the mover, count raised, on the target, empties the source, keeps every other field, and keeps the grid in bounds |
| ChessMatch.UndoMove | src/chess/ChessMatch.java:207-247 | a revert changes only the board and the log |
| RoundTrip.RemoveAppended | src/chess/ChessMatch.java:212-216 | removing the entry just logged gives back the log, when no earlier entry has its identity |
| RoundTrip.PlainRoundTrip | src/chess/ChessMatch.java:162-247 | a move that is neither castling nor a diagonal pawn move commits and is reverted exactly |
| RoundTrip.CastlingRoundTrip | src/chess/ChessMatch.java:172-235 | a committed castling move is reverted exactly, rook and counts included |
| RoundTrip.CastlingCommitted | src/chess/ChessMatch.java:172-189 | a committed castling move has the king on the target and the rook moved from its corner to the square beside the king's source, both counts raised, and logs only what stood on the target |
| RoundTrip.CastlingReverted | src/chess/ChessMatch.java:218-235 | reverting that committed form returns the rook to its corner and gives back the original match |
| RoundTrip.PawnCaptureRoundTrip | src/chess/ChessMatch.java:191-246 | a restorable diagonal pawn capture of an occupied target commits and is reverted exactly |
| RoundTrip.EnPassantCommitted | src/chess/ChessMatch.java:191-201 | a diagonal pawn move onto an empty square removes the piece behind the target, or nothing, and logs it either way |
| RoundTrip.EnPassantReverted | src/chess/ChessMatch.java:237-246 | reverting a committed en-passant capture puts the victim back behind the target, since it stood on the en-passant row |
| RoundTrip.EnPassantRoundTrip | src/chess/ChessMatch.java:191-246 | a restorable en-passant capture commits and is reverted exactly |
| RoundTrip.MakeUndoRoundTrip | src/chess/ChessMatch.java:162-247 | a committed restorable move is reverted to exactly the original match |
| RoundTrip.NotRestorableLeavesTrace | src/chess/ChessMatch.java:237-246 | a committed move that is not restorable is never reverted to the original match |
| Invariants.CommitIds | src/chess/ChessMatch.java:162-205 | a commit leaves identities unique and adds none to the board; the log only grows, by pieces that were on the board and have left it |
| Invariants.MakeMoveKeepsWf | src/chess/ChessMatch.java:162-205 | a commit keeps identities unique, keeps the log off the board and issues no identity |
| Invariants.ReplacePromotedPieceKeepsWf | src/chess/ChessMatch.java:139-160 | replacing the pending piece keeps the match well formed |
| Invariants.CommitRevertKeepsWf | src/chess/ChessMatch.java:162-247 | committing a move and reverting it keeps the match well formed, whether or not the revert is exact |
| RoundTrip.PlainCommitted | src/chess/ChessMatch.java:162-170 | a move that is neither castling nor a diagonal pawn move onto an empty square moves the piece, count raised, from source to target, changes no other square, and logs exactly what stood on the target |
| Invariants.PromoteKeepsWf | src/chess/ChessMatch.java:87-94 | promotion replaces a pawn on row 0 or 7 by a new unmoved Queen with the next identity, which becomes pending; otherwise nothing is pending and the board is untouched; the match stays well formed |
| ChessMatch.AttackedFrom | src/chess/ChessMatch.java:288-298 | the scan reports an attacker of the square, proves there is none and no fault, or reports a fault that exists |
| ChessMatch.TestCheck | src/chess/ChessMatch.java:288-298 | in check means some opponent piece marks the king; not in check means none does and no mask faults; a missing king faults |
| ChessMatch.NoEscapeTargets | src/chess/ChessMatch.java:310-321 | the scan of one piece's targets finds an escape, proves every probe leaves the king in check, or reports a faulting probe |
| ChessMatch.NoEscapeFrom | src/chess/ChessMatch.java:300-324 | the scan over pieces finds an escape, proves no candidate move escapes, or reports a fault |
| ChessMatch.TestCheckmate | src/chess/ChessMatch.java:300-324 | mate means in check and every candidate move leaves the king in check; no mate means not in check or some move escapes |
| ChessMatch.ValidateSourcePosition | src/chess/ChessMatch.java:249-255 | each refusal holds exactly under its condition: no piece, another player's piece, or an empty mask |
| ChessMatch.ValidateTargetPosition | src/chess/ChessMatch.java:257-260 | the target is accepted iff the source piece's mask marks it |
| ChessMatch.PossibleMoves | src/chess/ChessMatch.java:67-71 | a source that passes validation gets the mask of the player's own piece, which is non-empty; a source that fails it gets the same refusal |
| ChessMatch.Probe | src/chess/ChessMatch.java:125-132 | a probe succeeds exactly when its commit, its check test and its revert all succeed, and then answers what the check test found on the committed board |
| ChessMatch.TestIllegalCastling | src/chess/ChessMatch.java:110-136 | only a two-column king move can be illegal castling; for one, the answer is illegal exactly when the king standing on the transit square is in check, whenever the probe runs without a fault |
| ChessMatch.LeavesKingExposed | src/chess/ChessMatch.java:80 | a move is rejected exactly when the mover is in check or, not in check, castled through check; it is kept exactly when both tests say no |
| ChessMatch.FindPiece | src/chess/ChessMatch.java:144-145 | the search returns a square holding the piece with that identity, or proves none does |
| ChessMatch.ReplacePromotedPiece | src/chess/ChessMatch.java:139-160 | no pending piece is an error; an unknown letter changes nothing; a named kind succeeds exactly when the pending piece is on the board, and then a new piece of that kind, in the pending piece's colour, replaces it on its square with the next identity; only the board and the identity counter change, so `promoted` is left as it was |
| ChessMatch.Promote | src/chess/ChessMatch.java:87-94 | promotion always succeeds; a piece is pending exactly when a pawn reached row 0 or 7, and it is a new unmoved Queen of the pawn's colour with the next identity; otherwise the board and the counter are unchanged |
| ChessMatch.Conclude | src/chess/ChessMatch.java:85-107 | after a kept move the check flag is what the check test finds after promotion, checkmate is what the mate test finds with that flag stored, and mate implies the stored test found check; mate keeps the turn and reports no capture; otherwise the turn passes, the capture is reported and a two-row pawn advance becomes vulnerable |
| ChessMatch.Classify | src/chess/ChessMatch.java:96-107 | with the check flag stored, checkmate is what the mate test finds; mate keeps turn, player and marker and reports no capture; otherwise the turn passes to the opponent and the marker follows a two-row pawn advance |
| ChessMatch.PerformChessMove | src/chess/ChessMatch.java:73-108 | refusals are chess errors and, except self-check, leave the match unchanged; a completed or self-check move was validated and committed; a completed move leaves the mover's king safe and did not castle through check; checkmate means the opponent's king is attacked after the move; checkmate keeps the turn and reports no capture, otherwise the turn passes |
| MoveRules.ValidationRefusals | src/chess/ChessMatch.java:73-77 | each validation failure is refused with its error and the match unchanged |
| MoveRules.DoneConcludes | src/chess/ChessMatch.java:73-108 | a completed move was committed, did not expose the mover's king, and its outcome is the conclusion drawn from that commit |
| MoveRules.CompletedMoveClassification | src/chess/ChessMatch.java:85-97 | the check and checkmate flags are what the tests find on the board after the move and promotion |
| MoveRules.EnPassantMarker | src/chess/ChessMatch.java:99-105 | a non-mating pawn move of two rows marks that pawn vulnerable; any other completed move keeps the earlier marker |
| MoveRules.PromotionOutcome | src/chess/ChessMatch.java:85-94 | a pawn reaching row 0 or 7 becomes a new Queen with the next identity, pending promotion; otherwise the moved piece stands on the target and nothing is pending |
| MoveRules.CompletedMoveKeepsWf | src/chess/ChessMatch.java:73-108 | a completed move keeps the match well formed |
| MoveRules.SelfCheckRefusalKeepsWf | src/chess/ChessMatch.java:78-83 | a self-check refusal leaves a well-formed match well formed |
| MoveRules.TestCheckIgnoresFlag | src/chess/ChessMatch.java:288-298 | when the unseen generators ignore the check flag, so does the check test |
| MoveRules.MateImpliesCheck | src/chess/ChessMatch.java:96-97 | when the unseen generators ignore the check flag, a completed mating move also sets check |
| MoveRules.CastlingTransitSafe | src/chess/ChessMatch.java:80-83 | a completed castling move has its king safe on the transit square of the committed board |
| MoveRules.SelfCheckRefusal | src/chess/ChessMatch.java:78-83 | a self-check refusal leaves the match exactly as it was iff the move is restorable |
| MoveRules.ExposingMoveRefused | src/chess/ChessMatch.java:76-83 | a validated move that exposes the mover's king is refused with self-check, and a restorable one leaves the match unchanged |
| MoveRules.CastlingProbeTakesRook | src/chess/ChessMatch.java:110-136 | the castling probe's king move lands on the relocated rook and captures it, and the probe's revert restores the committed state exactly |
| MoveRules.KingStepCaptures | src/chess/ChessMatch.java:125-132 | a one-column king step onto an occupied square captures the occupant and is reverted exactly |
| MoveRules.RightHandEnPassant | src/chess/pieces/Pawn.java:72-76 | with the vulnerable opponent to the right, the left diagonal is marked; committing it leaves the vulnerable pawn, logs the left neighbour (or nothing), and is never reverted exactly |

## Left out

- The console UI, `Main`, and the conversion between algebraic and (row, column) coordinates (`ChessPosition`) are out of scope. Positions are (row, column) pairs.
- The Knight, Rook, Queen and King move generators are not part of this model. Castling candidates come from the King's generator. All four are a `Generator` parameter whose result is limited to the board.
- `Board`, `Position`, `Piece` and `ChessPiece` are not part of this model. Their behaviour is taken from how `ChessMatch` calls them. Placing a piece on an occupied square is treated as a fault.
- Exception messages are not modelled, only which exception is raised.
- Object identity is modelled by piece ids. Setup gives each piece its square's row-major index, so ids do not follow the source's creation order. New pieces take `nextId`.
- `onBoardPieces` is not stored. The model always reads the board's contents, since every source path keeps the two in step. Pieces are visited in row-major board order, not list order.
- ChessMatch.TestCheck: the order of visiting pieces (row-major rather than list order) only matters when a mask faults. The contract therefore says only that some fault exists, not which piece raised it.
- ChessMatch.KingSquare: the king search takes the first king in row-major order rather than in list order. The two agree whenever each side has one king.
- ChessMatch.TestCheckmate: every probe starts from the same state. The source threads each probe into the next through the mutable board. The two agree when each probe is reverted exactly, which holds for every move but the en-passant cases in `RoundTrip.Restorable`.
- ChessMatch.PerformChessMove: the completed-move state is the one from before the checkmate search. In the source, each probe of that search commits and reverts on the live board, and a probe that is not reverted exactly leaves its trace in the state the move completes with. That trace is an extra log entry (possibly an empty one) or a piece moved behind the probed square, as in the right-hand en-passant case of `MoveRules.RightHandEnPassant`. The model does not carry such leftovers.
- ChessMatch.UndoMove: the contract says only which fields change. What the revert restores is stated by `RoundTrip.MakeUndoRoundTrip` and `RoundTrip.NotRestorableLeavesTrace`.
- The King's generator is assumed to read only the board, its square, the piece and the match's check flag. `King.java` is not part of this model, so nothing else of the match is passed to it.
- ChessMatch.PerformChessMove: "checkmate implies check" is proved only for generators that ignore the check flag (`MoveRules.MateImpliesCheck`). The source stores the check flag before testing checkmate, so a flag-reading King generator could see different masks in the two tests. In general the contract says only that the opponent's king is attacked in the state the checkmate test saw, with the new check flag already stored.
- Java `int` overflow of the turn counter and move counts is not modelled; they are unbounded integers.
