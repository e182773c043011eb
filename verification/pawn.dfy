/** Move generation for pawns, including en passant. */
module PawnMoves {
  import opened Outcomes
  import opened Pieces
  import opened Board

  /** Rows a pawn of colour `c` advances by per step: White moves towards row 0. */
  function Direction(c: Color): int {
    if c == White then -1 else 1
  }

  /** The row on which a pawn of colour `c` may capture en passant; it is
      also the row an en-passant victim stands on. */
  function EnPassantRow(c: Color): int {
    if c == White then 3 else 4
  }

  /** `p` holds an opponent of `color` that is the match's en-passant-vulnerable piece. */
  predicate VulnerableOpponent(b: Grid, p: Pos, color: Color, vulnerable: Option<nat>) {
    PositionExists(p) && IsThereOpponentPiece(b, p, color) && vulnerable == Some(b[p].id)
  }

  /** The squares a pawn at `pos` may move to, or a fault when the
      right-hand en-passant case indexes column -1. The right-hand case
      marks the left forward diagonal, as the source does. */
  function PawnMoves(b: Grid, pos: Pos, pawn: Piece, vulnerable: Option<nat>): (r: Result<set<Pos>>)
    requires PositionExists(pos)
    ensures r.Err? <==>
              pos.1 == 0 && pos.0 == EnPassantRow(pawn.color)
              && VulnerableOpponent(b, (pos.0, 1), pawn.color, vulnerable)
    ensures r.Ok? ==> forall q :: q in r.value ==>
              PositionExists(q)
              && ((q.0 == pos.0 + Direction(pawn.color) && pos.1 - 1 <= q.1 <= pos.1 + 1)
                  || q == (pos.0 + 2 * Direction(pawn.color), pos.1))
  {
    var dir := Direction(pawn.color);
    var one := (pos.0 + dir, pos.1);
    var two := (pos.0 + 2 * dir, pos.1);
    var single := if PositionExists(one) && !ThereIsAPiece(b, one) then {one} else {};
    var double :=
      if PositionExists(two) && !ThereIsAPiece(b, two) && pawn.moveCount == 0 then {two, one} else {};
    var captureLeft := (pos.0 + dir, pos.1 - 1);
    var captureRight := (pos.0 + dir, pos.1 + 1);
    var captures :=
      (if PositionExists(captureLeft) && IsThereOpponentPiece(b, captureLeft, pawn.color) then {captureLeft} else {})
      + (if PositionExists(captureRight) && IsThereOpponentPiece(b, captureRight, pawn.color) then {captureRight} else {});
    var onRow := pos.0 == EnPassantRow(pawn.color);
    var left := (pos.0, pos.1 - 1);
    var right := (pos.0, pos.1 + 1);
    var epLeft := onRow && VulnerableOpponent(b, left, pawn.color, vulnerable);
    var epRight := onRow && VulnerableOpponent(b, right, pawn.color, vulnerable);
    var epSquare := (left.0 + dir, left.1);
    if epRight && !PositionExists(epSquare) then Err(Fault)
    else Ok(single + double + captures + (if epLeft || epRight then {epSquare} else {}))
  }

  /** The square directly ahead is marked whenever it is on the board and
      empty; on the first move it is also marked, occupied or not, when
      the square two ahead is on the board and empty. */
  lemma SingleStep(b: Grid, pos: Pos, pawn: Piece, vulnerable: Option<nat>)
    requires PositionExists(pos)
    requires PawnMoves(b, pos, pawn, vulnerable).Ok?
    ensures var one := (pos.0 + Direction(pawn.color), pos.1);
            var two := (pos.0 + 2 * Direction(pawn.color), pos.1);
            one in PawnMoves(b, pos, pawn, vulnerable).value <==>
              (PositionExists(one) && one !in b)
              || (PositionExists(two) && two !in b && pawn.moveCount == 0)
  {
  }

  /** The square two ahead is marked iff the pawn has never moved and that
      square is on the board and empty; the square between is not consulted. */
  lemma DoubleStep(b: Grid, pos: Pos, pawn: Piece, vulnerable: Option<nat>)
    requires PositionExists(pos)
    requires PawnMoves(b, pos, pawn, vulnerable).Ok?
    ensures var two := (pos.0 + 2 * Direction(pawn.color), pos.1);
            two in PawnMoves(b, pos, pawn, vulnerable).value <==>
              PositionExists(two) && two !in b && pawn.moveCount == 0
  {
  }

  /** The right forward diagonal is marked iff it holds an opponent piece:
      en passant never marks it. */
  lemma RightDiagonal(b: Grid, pos: Pos, pawn: Piece, vulnerable: Option<nat>)
    requires PositionExists(pos)
    requires PawnMoves(b, pos, pawn, vulnerable).Ok?
    ensures var q := (pos.0 + Direction(pawn.color), pos.1 + 1);
            q in PawnMoves(b, pos, pawn, vulnerable).value <==>
              PositionExists(q) && IsThereOpponentPiece(b, q, pawn.color)
  {
  }

  /** The left forward diagonal is marked iff it holds an opponent piece,
      or the pawn stands on its en-passant row next to the vulnerable
      opponent on either side. */
  lemma LeftDiagonal(b: Grid, pos: Pos, pawn: Piece, vulnerable: Option<nat>)
    requires PositionExists(pos)
    requires PawnMoves(b, pos, pawn, vulnerable).Ok?
    ensures var q := (pos.0 + Direction(pawn.color), pos.1 - 1);
            q in PawnMoves(b, pos, pawn, vulnerable).value <==>
              (PositionExists(q) && IsThereOpponentPiece(b, q, pawn.color))
              || (pos.0 == EnPassantRow(pawn.color)
                  && (VulnerableOpponent(b, (pos.0, pos.1 - 1), pawn.color, vulnerable)
                      || VulnerableOpponent(b, (pos.0, pos.1 + 1), pawn.color, vulnerable)))
  {
  }

  /** A diagonal square that holds no opponent is marked only by en passant:
      the pawn is on its en-passant row and an adjacent opponent is the
      vulnerable piece. */
  lemma EnPassantOnlyFromItsRow(b: Grid, pos: Pos, pawn: Piece, vulnerable: Option<nat>, q: Pos)
    requires PositionExists(pos)
    requires PawnMoves(b, pos, pawn, vulnerable).Ok?
    requires q in PawnMoves(b, pos, pawn, vulnerable).value
    requires q.1 != pos.1 && !IsThereOpponentPiece(b, q, pawn.color)
    ensures pos.0 == EnPassantRow(pawn.color)
    ensures q == (pos.0 + Direction(pawn.color), pos.1 - 1)
    ensures VulnerableOpponent(b, (pos.0, pos.1 - 1), pawn.color, vulnerable)
            || VulnerableOpponent(b, (pos.0, pos.1 + 1), pawn.color, vulnerable)
  {
  }
}
