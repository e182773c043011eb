/** Colours, kinds and piece records. */
module Pieces {

  datatype Color = White | Black

  datatype Kind = Pawn | Knight | Bishop | Rook | Queen | King

  /** A piece on or off the board. `id` stands for the Java object's
      identity: two pieces are "the same piece" iff their ids agree.
      `moveCount` is the number of times the piece has been relocated. */
  datatype Piece = Piece(id: nat, kind: Kind, color: Color, moveCount: int)

  /** The other side. */
  function Opponent(c: Color): (r: Color)
    ensures r != c
  {
    if c == White then Black else White
  }

  /** The piece after one more relocation. */
  function Moved(p: Piece): (r: Piece)
    ensures r.id == p.id && r.kind == p.kind && r.color == p.color
    ensures r.moveCount == p.moveCount + 1
  {
    p.(moveCount := p.moveCount + 1)
  }

  /** The piece after one relocation is taken back. */
  function Unmoved(p: Piece): (r: Piece)
    ensures Moved(r) == p
  {
    p.(moveCount := p.moveCount - 1)
  }
}
