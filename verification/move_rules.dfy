/** What `PerformChessMove` guarantees: validation before mutation, rejection
    of moves that expose the king, turn alternation, check and checkmate
    classification, promotion and the en-passant marker. */
module MoveRules {
  import opened Outcomes
  import opened Pieces
  import opened Board
  import opened Moves
  import opened ChessMatch
  import opened RoundTrip
  import opened Invariants
  import PawnMoves

  /** The source square passes validation and the target is in its mask. */
  predicate Validated(gen: Generator, m: Match, s: Pos, t: Pos)
    requires PositionExists(s)
  {
    && s in m.board && m.board[s].color == m.currentPlayer
    && MaskAt(gen, m, s).Ok? && t in MaskAt(gen, m, s).value
  }

  /** Validation failures are reported before anything changes: an empty
      source, another player's piece, a piece with an empty mask, and a
      target outside the mask are refused with the match unchanged. */
  lemma ValidationRefusals(gen: Generator, m: Match, s: Pos, t: Pos)
    requires PositionExists(s) && PositionExists(t)
    ensures s !in m.board ==> PerformChessMove(gen, m, s, t) == Refused(NoPieceAtSource, m)
    ensures s in m.board && m.board[s].color != m.currentPlayer ==>
              PerformChessMove(gen, m, s, t) == Refused(WrongPlayersPiece, m)
    ensures s in m.board && m.board[s].color == m.currentPlayer && MaskAt(gen, m, s) == Ok({}) ==>
              PerformChessMove(gen, m, s, t) == Refused(NoPossibleMoves, m)
    ensures s in m.board && m.board[s].color == m.currentPlayer
            && MaskAt(gen, m, s).Ok? && MaskAt(gen, m, s).value != {} && t !in MaskAt(gen, m, s).value ==>
              PerformChessMove(gen, m, s, t) == Refused(IllegalTarget, m)
    ensures !Validated(gen, m, s, t) ==>
              var r := PerformChessMove(gen, m, s, t);
              r.Aborted? || (r.Refused? && r.after == m)
  {
  }

  /** The state the opponent is judged in: the committed move with any
      promotion applied. */
  function Judged(m: Match, s: Pos, t: Pos): Result<Match>
    requires PositionExists(s) && s in m.board && PositionExists(t)
  {
    match MakeMove(m, s, t)
    case Err(e) => Err(e)
    case Ok((committed, _)) => Promote(committed, t)
  }

  /** A completed move is the conclusion of its commit. */
  lemma DoneConcludes(gen: Generator, m: Match, s: Pos, t: Pos)
    requires PositionExists(s) && PositionExists(t)
    requires PerformChessMove(gen, m, s, t).Done?
    ensures s in m.board && MakeMove(m, s, t).Ok?
    ensures var (committed, cap) := MakeMove(m, s, t).value;
            && t in committed.board
            && LeavesKingExposed(gen, committed, s, t) == Ok(false)
            && PerformChessMove(gen, m, s, t) == Conclude(gen, m, committed, s, t, cap)
  {
    var (committed, cap) := MakeMove(m, s, t).value;
    assert ValidateSourcePosition(gen, m, s).Ok?;
    assert ValidateTargetPosition(gen, m, s, t).Ok?;
    assert MakeMove(m, s, t) == Ok((committed, cap));
  }

  /** A completed move reports check and checkmate of the opponent as
      `TestCheck` and `TestCheckmate` find them on the board after the move
      and any promotion, and that board is the one left behind: the
      checkmate search's probes leave no trace here. */
  lemma CompletedMoveClassification(gen: Generator, m: Match, s: Pos, t: Pos)
    requires PositionExists(s) && PositionExists(t)
    requires PerformChessMove(gen, m, s, t).Done?
    ensures s in m.board && Judged(m, s, t).Ok?
    ensures var r, j := PerformChessMove(gen, m, s, t), Judged(m, s, t).value;
            && r.after.board == j.board
            && r.after.promoted == j.promoted
            && r.after.nextId == j.nextId
            && (r.after.check <==> TestCheck(gen, j, Opponent(m.currentPlayer)) == Ok(true))
            && (r.after.checkmate <==> TestCheckmate(gen, j.(check := r.after.check), Opponent(m.currentPlayer)) == Ok(true))
  {
    DoneConcludes(gen, m, s, t);
    var (committed, cap) := MakeMove(m, s, t).value;
    assert Promote(committed, t).Ok?;
    var judged := Promote(committed, t).value;
    assert Judged(m, s, t) == Ok(judged);
    var opponent := Opponent(m.currentPlayer);
    assert TestCheck(gen, judged, opponent).Ok?;
    var flagged := judged.(check := TestCheck(gen, judged, opponent).value);
    assert TestCheckmate(gen, flagged, opponent).Ok?;
  }

  /** The unseen generators ignore the match's check flag. */
  ghost predicate FlagBlind(gen: Generator) {
    forall b, p, x :: gen(b, p, x, true) == gen(b, p, x, false)
  }

  /** For flag-blind generators a mask does not depend on the check flag. */
  lemma MaskIgnoresFlag(gen: Generator, m: Match, c: bool, q: Pos)
    requires FlagBlind(gen) && PositionExists(q) && q in m.board
    ensures MaskAt(gen, m.(check := c), q) == MaskAt(gen, m, q)
  {
    var p := m.board[q];
    assert gen(m.board, q, p, c) == gen(m.board, q, p, m.check);
  }

  /** For flag-blind generators the attack scan does not depend on the check flag. */
  lemma {:induction false} AttackedFromIgnoresFlag(gen: Generator, m: Match, c: bool, k: Pos, side: Color, i: int)
    requires FlagBlind(gen) && 0 <= i <= 64
    ensures AttackedFrom(gen, m.(check := c), k, side, i) == AttackedFrom(gen, m, k, side, i)
    decreases 64 - i
  {
    if i < 64 {
      var m2, q := m.(check := c), Square(i);
      AttackedFromIgnoresFlag(gen, m, c, k, side, i + 1);
      ScanStep(gen, m, k, side, i);
      ScanStep(gen, m2, k, side, i);
      if q in m.board && m.board[q].color == side {
        MaskIgnoresFlag(gen, m, c, q);
      }
    }
  }

  /** One step of the attack scan: the square of index `i` decides, or the
      scan moves on. */
  lemma ScanStep(gen: Generator, m: Match, k: Pos, side: Color, i: int)
    requires 0 <= i < 64
    ensures var q, rest := Square(i), AttackedFrom(gen, m, k, side, i + 1);
            AttackedFrom(gen, m, k, side, i)
            == if q in m.board && m.board[q].color == side then
                 (if MaskAt(gen, m, q).Err? then Err(MaskAt(gen, m, q).error)
                  else if k in MaskAt(gen, m, q).value then Ok(true) else rest)
               else rest
  {
  }

  /** For flag-blind generators the check test does not depend on the check flag. */
  lemma TestCheckIgnoresFlag(gen: Generator, m: Match, c: bool, color: Color)
    requires FlagBlind(gen)
    ensures TestCheck(gen, m.(check := c), color) == TestCheck(gen, m, color)
  {
    if KingSquare(m.board, color).Some? {
      AttackedFromIgnoresFlag(gen, m, c, KingSquare(m.board, color).value, Opponent(color), 0);
    }
  }

  /** Checkmate implies check when the unseen generators ignore the check
      flag. The source stores the check flag before testing checkmate, so a
      generator that reads the flag may see different masks in the two
      tests; `PerformChessMove` states what holds in general. */
  lemma MateImpliesCheck(gen: Generator, m: Match, s: Pos, t: Pos)
    requires PositionExists(s) && PositionExists(t)
    requires FlagBlind(gen)
    requires PerformChessMove(gen, m, s, t).Done? && PerformChessMove(gen, m, s, t).after.checkmate
    ensures PerformChessMove(gen, m, s, t).after.check
  {
    DoneConcludes(gen, m, s, t);
    var (committed, cap) := MakeMove(m, s, t).value;
    var promoted := Promote(committed, t).value;
    var after := PerformChessMove(gen, m, s, t).after;
    TestCheckIgnoresFlag(gen, promoted, after.check, Opponent(m.currentPlayer));
  }

  /** The en-passant marker: a completed, non-mating move records the moved
      piece exactly when it is a pawn that advanced two rows; otherwise the
      earlier marker is kept, since nothing clears it. */
  lemma EnPassantMarker(gen: Generator, m: Match, s: Pos, t: Pos)
    requires PositionExists(s) && PositionExists(t)
    requires PerformChessMove(gen, m, s, t).Done?
    ensures s in m.board
    ensures var r, p := PerformChessMove(gen, m, s, t), m.board[s];
            if !r.after.checkmate && p.kind == Pawn && (t.0 == s.0 + 2 || t.0 == s.0 - 2)
            then r.after.enPassantVulnerable == Some(p.id)
            else r.after.enPassantVulnerable == m.enPassantVulnerable
  {
    DoneConcludes(gen, m, s, t);
    var (committed, cap) := MakeMove(m, s, t).value;
    assert Promote(committed, t).Ok?;
    var judged := Promote(committed, t).value;
    assert Judged(m, s, t) == Ok(judged);
    var opponent := Opponent(m.currentPlayer);
    assert TestCheck(gen, judged, opponent).Ok?;
    var flagged := judged.(check := TestCheck(gen, judged, opponent).value);
    assert TestCheckmate(gen, flagged, opponent).Ok?;
  }

  /** Promotion: a pawn reaching row 0 or 7 is replaced by a new, unmoved
      Queen of its colour, with the next free id, which becomes the pending
      promotion; after any other move nothing is pending. */
  lemma PromotionOutcome(gen: Generator, m: Match, s: Pos, t: Pos)
    requires PositionExists(s) && PositionExists(t)
    requires Wf(m)
    requires PerformChessMove(gen, m, s, t).Done?
    ensures s in m.board
    ensures var r, p := PerformChessMove(gen, m, s, t), m.board[s];
            if p.kind == Pawn && (t.0 == 0 || t.0 == 7) then
              var queen := Piece(m.nextId, Queen, p.color, 0);
              && t in r.after.board && r.after.board[t] == queen
              && r.after.promoted == Some(queen)
              && r.after.nextId == m.nextId + 1
            else
              && t in r.after.board && r.after.board[t] == Moved(p)
              && r.after.promoted.None?
              && r.after.nextId == m.nextId
  {
    DoneConcludes(gen, m, s, t);
    var (committed, cap) := MakeMove(m, s, t).value;
    MakeMoveKeepsWf(m, s, t);
    PromoteKeepsWf(committed, t);
    var judged := Promote(committed, t).value;
    var opponent := Opponent(m.currentPlayer);
    assert TestCheck(gen, judged, opponent).Ok?;
    var flagged := judged.(check := TestCheck(gen, judged, opponent).value);
    assert TestCheckmate(gen, flagged, opponent).Ok?;
  }

  /** A completed move keeps the match well formed. */
  lemma CompletedMoveKeepsWf(gen: Generator, m: Match, s: Pos, t: Pos)
    requires PositionExists(s) && PositionExists(t)
    requires Wf(m) && PerformChessMove(gen, m, s, t).Done?
    ensures Wf(PerformChessMove(gen, m, s, t).after)
  {
    DoneConcludes(gen, m, s, t);
    var (committed, cap) := MakeMove(m, s, t).value;
    MakeMoveKeepsWf(m, s, t);
    PromoteKeepsWf(committed, t);
    var judged := Promote(committed, t).value;
    CompletedMoveClassification(gen, m, s, t);
    var after := PerformChessMove(gen, m, s, t).after;
    assert after.board == judged.board && after.captured == judged.captured && after.nextId == judged.nextId;
  }

  /** A move refused for exposing the mover's king was validated and
      committed, and was then reverted. The revert restores the match
      exactly if and only if the move is restorable; otherwise the refused
      move leaves a trace. */
  lemma SelfCheckRefusal(gen: Generator, m: Match, s: Pos, t: Pos)
    requires PositionExists(s) && PositionExists(t)
    requires Wf(m)
    requires PerformChessMove(gen, m, s, t).Refused? && PerformChessMove(gen, m, s, t).error == SelfCheck
    ensures s in m.board
    ensures PerformChessMove(gen, m, s, t).after == m <==> Restorable(m, s, t)
  {
    var (committed, cap) := MakeMove(m, s, t).value;
    assert ValidateSourcePosition(gen, m, s).Ok?;
    assert ValidateTargetPosition(gen, m, s, t).Ok?;
    assert MakeMove(m, s, t) == Ok((committed, cap));
    assert LeavesKingExposed(gen, committed, s, t) == Ok(true);
    assert UndoMove(committed, s, t, cap).Ok?;
    assert PerformChessMove(gen, m, s, t).after == UndoMove(committed, s, t, cap).value;
    if Restorable(m, s, t) {
      MakeUndoRoundTrip(m, s, t);
    } else {
      NotRestorableLeavesTrace(m, s, t);
    }
  }

  /** A self-check refusal leaves a well-formed match behind, also when the
      revert is not exact. */
  lemma SelfCheckRefusalKeepsWf(gen: Generator, m: Match, s: Pos, t: Pos)
    requires PositionExists(s) && PositionExists(t)
    requires Wf(m)
    requires PerformChessMove(gen, m, s, t).Refused? && PerformChessMove(gen, m, s, t).error == SelfCheck
    ensures Wf(PerformChessMove(gen, m, s, t).after)
  {
    var (committed, cap) := MakeMove(m, s, t).value;
    assert ValidateSourcePosition(gen, m, s).Ok?;
    assert ValidateTargetPosition(gen, m, s, t).Ok?;
    assert MakeMove(m, s, t) == Ok((committed, cap));
    assert LeavesKingExposed(gen, committed, s, t) == Ok(true);
    assert PerformChessMove(gen, m, s, t).after == UndoMove(committed, s, t, cap).value;
    CommitRevertKeepsWf(m, s, t);
  }

  /** Conversely, a validated move whose commit exposes the mover's king is
      refused, and a restorable one leaves the match as it was. */
  lemma ExposingMoveRefused(gen: Generator, m: Match, s: Pos, t: Pos)
    requires PositionExists(s) && PositionExists(t)
    requires Wf(m) && Validated(gen, m, s, t) && MakeMove(m, s, t).Ok?
    requires LeavesKingExposed(gen, MakeMove(m, s, t).value.0, s, t) == Ok(true)
    requires Restorable(m, s, t)
    ensures PerformChessMove(gen, m, s, t) == Refused(SelfCheck, m)
  {
    var (committed, cap) := MakeMove(m, s, t).value;
    assert ValidateSourcePosition(gen, m, s).Ok?;
    assert ValidateTargetPosition(gen, m, s, t).Ok?;
    assert MakeMove(m, s, t) == Ok((committed, cap));
    MakeUndoRoundTrip(m, s, t);
  }

  /** Castling through an attacked square is refused: after a completed
      two-column king move, the king standing on the transit square was not
      in check. */
  lemma CastlingTransitSafe(gen: Generator, m: Match, s: Pos, t: Pos)
    requires PositionExists(s) && PositionExists(t)
    requires PerformChessMove(gen, m, s, t).Done?
    ensures s in m.board && MakeMove(m, s, t).Ok?
    ensures var committed, transit := MakeMove(m, s, t).value.0, TransitSquare(s, t);
            m.board[s].kind == King && (t.1 == s.1 + 2 || t.1 == s.1 - 2) ==>
              && PositionExists(transit) && MakeMove(committed, t, transit).Ok?
              && TestCheck(gen, MakeMove(committed, t, transit).value.0, m.currentPlayer) == Ok(false)
  {
    DoneConcludes(gen, m, s, t);
  }

  /** A king moving one column onto an occupied square captures its
      occupant, and the revert restores the match exactly. */
  lemma KingStepCaptures(c: Match, t: Pos, q: Pos)
    requires PositionExists(t) && t in c.board && PositionExists(q) && q in c.board
    requires c.board[t].kind == King && (q.1 == t.1 + 1 || q.1 == t.1 - 1)
    requires LogFresh(c)
    ensures MakeMove(c, t, q).Ok? && MakeMove(c, t, q).value.1 == Some(c.board[q])
    ensures UndoMove(MakeMove(c, t, q).value.0, t, q, MakeMove(c, t, q).value.1) == Ok(c)
  {
    PlainRoundTrip(c, t, q);
  }

  /** The castling probe: after a two-column king move the transit square
      holds the relocated rook, so the probe moving the king there captures
      whatever the rook square held, and reverting the probe restores the
      committed state exactly. */
  lemma CastlingProbeTakesRook(m: Match, s: Pos, t: Pos)
    requires PositionExists(s) && s in m.board && PositionExists(t)
    requires Wf(m)
    requires m.board[s].kind == King && (t.1 == s.1 + 2 || t.1 == s.1 - 2)
    requires MakeMove(m, s, t).Ok?
    ensures PositionExists(RookHome(s, t)) && RookHome(s, t) in m.board
    ensures var committed, transit := MakeMove(m, s, t).value.0, TransitSquare(s, t);
            && transit == RookNext(s, t) && PositionExists(transit)
            && MakeMove(committed, t, transit).Ok?
            && MakeMove(committed, t, transit).value.1 == Some(Moved(m.board[RookHome(s, t)]))
            && UndoMove(MakeMove(committed, t, transit).value.0, t, transit,
                        MakeMove(committed, t, transit).value.1) == Ok(committed)
  {
    var committed := MakeMove(m, s, t).value.0;
    var home, next := RookHome(s, t), RookNext(s, t);
    CastlingCommitted(m, s, t);
    MakeMoveKeepsWf(m, s, t);
    RookBesideKing(m, committed, s, t);
    KingStepCaptures(committed, t, next);
  }

  /** After castling, the king stands on `t` and the rook, its count
      raised, on the transit square. */
  lemma RookBesideKing(m: Match, c: Match, s: Pos, t: Pos)
    requires PositionExists(s) && s in m.board && PositionExists(t)
    requires m.board[s].kind == King && (t.1 == s.1 + 2 || t.1 == s.1 - 2)
    requires var home, next := RookHome(s, t), RookNext(s, t);
             var b2 := (m.board - {s}) - {t};
             && PositionExists(home) && home in b2 && PositionExists(next) && next !in b2
             && c.board == (b2 - {home})[next := Moved(b2[home])][t := Moved(m.board[s])]
    ensures TransitSquare(s, t) == RookNext(s, t)
    ensures t in c.board && c.board[t].kind == King
    ensures RookNext(s, t) in c.board && c.board[RookNext(s, t)] == Moved(m.board[RookHome(s, t)])
  {
  }

  /** The right-hand en-passant case: a pawn on its en-passant row whose
      right neighbour is the vulnerable opponent is offered the empty left
      forward diagonal. Committing that move leaves the vulnerable pawn on
      the board, removes (and logs) whatever stands to the mover's left,
      and is never reverted exactly. */
  lemma RightHandEnPassant(gen: Generator, m: Match, s: Pos)
    requires PositionExists(s) && s in m.board && Wf(m)
    requires m.board[s].kind == Pawn && s.0 == PawnMoves.EnPassantRow(m.board[s].color)
    requires PawnMoves.VulnerableOpponent(m.board, (s.0, s.1 + 1), m.board[s].color, m.enPassantVulnerable)
    requires var t := (s.0 + PawnMoves.Direction(m.board[s].color), s.1 - 1);
             PositionExists(t) && t !in m.board
    ensures var t := (s.0 + PawnMoves.Direction(m.board[s].color), s.1 - 1);
            var right, left := (s.0, s.1 + 1), (s.0, s.1 - 1);
            && MaskAt(gen, m, s).Ok? && t in MaskAt(gen, m, s).value
            && MakeMove(m, s, t).Ok?
            && right in MakeMove(m, s, t).value.0.board
            && MakeMove(m, s, t).value.0.board[right] == m.board[right]
            && MakeMove(m, s, t).value.0.captured == m.captured + [PieceAt(m.board, left)]
            && !Restorable(m, s, t)
            && UndoMove(MakeMove(m, s, t).value.0, s, t, MakeMove(m, s, t).value.1) != Ok(m)
  {
    var p := m.board[s];
    var t := (s.0 + PawnMoves.Direction(p.color), s.1 - 1);
    var right, left := (s.0, s.1 + 1), (s.0, s.1 - 1);
    assert MaskAt(gen, m, s) == PawnMoves.PawnMoves(m.board, s, p, m.enPassantVulnerable);
    PawnMoves.LeftDiagonal(m.board, s, p, m.enPassantVulnerable);
    assert EnPassantVictim(p.color, t) == left;
    EnPassantCommitted(m, s, t);
    assert left in m.board ==> m.board[left].id != m.board[right].id;
    NotRestorableLeavesTrace(m, s, t);
  }
}
