/** Dispatch of move generation over piece kinds. */
module Moves {
  import opened Outcomes
  import opened Pieces
  import opened Board
  import PawnMoves
  import BishopMoves

  /** Move generation for the kinds whose rules are not part of this model
      (Knight, Rook, Queen, King with its castling candidates): any function
      of the board, the piece's square, the piece and the match's check
      flag, which a King, built with a reference to the match, may consult. */
  type Generator = (Grid, Pos, Piece, bool) -> set<Pos>

  /** The mask of the piece on `pos`: squares it could move to, ignoring
      whether the move exposes its own king. Only squares of the board are
      ever marked, as in the source's 8x8 boolean matrix. */
  function Moves(gen: Generator, b: Grid, vulnerable: Option<nat>, check: bool, pos: Pos): (r: Result<set<Pos>>)
    requires PositionExists(pos) && pos in b
    ensures r.Ok? ==> forall q :: q in r.value ==> PositionExists(q)
    ensures r.Err? ==> b[pos].kind == Pawn
  {
    var piece := b[pos];
    match piece.kind
    case Pawn => PawnMoves.PawnMoves(b, pos, piece, vulnerable)
    case Bishop => Ok(BishopMoves.BishopMoves(b, pos, piece.color))
    case _ => Ok(set q | q in gen(b, pos, piece, check) && PositionExists(q))
  }
}
