/** The 8x8 grid and its storage primitives. Coordinates are zero-indexed
    (row, column) pairs; row 0 is Black's home rank. */
module Board {
  import opened Outcomes
  import opened Pieces

  type Pos = (int, int)

  /** The occupied squares and their occupants. */
  type Grid = map<Pos, Piece>

  predicate PositionExists(p: Pos) {
    0 <= p.0 < 8 && 0 <= p.1 < 8
  }

  /** Every key of the grid is a square of the board. */
  predicate InBounds(b: Grid) {
    forall p :: p in b ==> PositionExists(p)
  }

  predicate ThereIsAPiece(b: Grid, p: Pos) {
    PositionExists(p) && p in b
  }

  /** `p` holds a piece of the colour opposing `color`. */
  predicate IsThereOpponentPiece(b: Grid, p: Pos, color: Color) {
    p in b && b[p].color != color
  }

  /** The occupant of `p`, if any (a null reference in the source). */
  function PieceAt(b: Grid, p: Pos): Option<Piece> {
    if p in b then Some(b[p]) else None
  }

  /** Takes the occupant (possibly none) off `p`; fails off the grid. */
  function RemovePiece(b: Grid, p: Pos): (r: Result<(Grid, Option<Piece>)>)
    ensures r.Ok? <==> PositionExists(p)
    ensures r.Err? ==> r.error == Fault
    ensures r.Ok? ==> r.value.1 == PieceAt(b, p) && PieceAt(r.value.0, p).None?
  {
    if !PositionExists(p) then Err(Fault)
    else Ok((b - {p}, PieceAt(b, p)))
  }

  /** Puts a piece on an empty square. Placing nothing, placing off the
      grid, or placing onto an occupied square is a fault. */
  function PlacePiece(b: Grid, piece: Option<Piece>, p: Pos): (r: Result<Grid>)
    ensures r.Ok? <==> piece.Some? && PositionExists(p) && PieceAt(b, p).None?
    ensures r.Err? ==> r.error == Fault
    ensures r.Ok? ==> PieceAt(r.value, p) == piece
  {
    if piece.None? || !PositionExists(p) || p in b then Err(Fault)
    else Ok(b[p := piece.value])
  }

  /** Removing from `p` leaves every other square as it was. */
  lemma RemoveFrame(b: Grid, p: Pos, q: Pos)
    requires RemovePiece(b, p).Ok? && q != p
    ensures PieceAt(RemovePiece(b, p).value.0, q) == PieceAt(b, q)
  {
  }

  /** Placing on `p` leaves every other square as it was. */
  lemma PlaceFrame(b: Grid, piece: Option<Piece>, p: Pos, q: Pos)
    requires PlacePiece(b, piece, p).Ok? && q != p
    ensures PieceAt(PlacePiece(b, piece, p).value, q) == PieceAt(b, q)
  {
  }

  /** Placing a piece on a square and removing it again gives back the grid
      and the piece. */
  lemma PlaceThenRemove(b: Grid, piece: Option<Piece>, p: Pos)
    requires PlacePiece(b, piece, p).Ok?
    ensures RemovePiece(PlacePiece(b, piece, p).value, p) == Ok((b, piece))
  {
    assert PlacePiece(b, piece, p).value - {p} == b;
  }

  /** Removing the occupant of an occupied square and placing it back gives
      back the grid. */
  lemma RemoveThenPlace(b: Grid, p: Pos)
    requires PositionExists(p) && p in b
    ensures PlacePiece(RemovePiece(b, p).value.0, RemovePiece(b, p).value.1, p) == Ok(b)
  {
    assert (b - {p})[p := b[p]] == b;
  }

  /** The square with row-major index `i`. */
  function Square(i: int): (p: Pos)
    requires 0 <= i < 64
    ensures PositionExists(p)
  {
    (i / 8, i % 8)
  }

  /** The row-major index of a square. */
  function Index(p: Pos): (i: int)
    requires PositionExists(p)
    ensures 0 <= i < 64 && Square(i) == p
  {
    p.0 * 8 + p.1
  }

  /** A square at index `i` or later is the square at `i` or lies after it. */
  lemma IndexSplit(i: int)
    requires 0 <= i < 64
    ensures forall q :: PositionExists(q) && i <= Index(q) ==> q == Square(i) || i + 1 <= Index(q)
  {
  }
}
