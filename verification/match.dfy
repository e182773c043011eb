/** The match orchestrator: turn state, move validation, commit and revert
    of moves, check and checkmate detection, promotion. */
module ChessMatch {
  import opened Outcomes
  import opened Pieces
  import opened Board
  import opened Moves
  import PawnMoves

  /** The whole state of a match. The pieces on the board are the board's
      contents; `captured` is the capture log, which may record "nothing"
      (a null in the source) when an en-passant removal finds an empty
      square. Pieces are identified by `id`; `nextId` is the id the next
      newly created piece receives. */
  datatype Match = Match(
    turn: int,
    currentPlayer: Color,
    board: Grid,
    check: bool,
    checkmate: bool,
    enPassantVulnerable: Option<nat>,
    promoted: Option<Piece>,
    captured: seq<Option<Piece>>,
    nextId: nat)

  /** What `PerformChessMove` leaves behind: a completed move with the piece
      it reports as captured; a move refused with a chess error, together
      with the state the source leaves the match in; or an unchecked
      exception that abandons the call part-way. */
  datatype MoveOutcome =
    | Done(after: Match, captured: Option<Piece>)
    | Refused(error: ChessError, after: Match)
    | Aborted

  /** The mask of the piece on `pos` in match `m`. */
  function MaskAt(gen: Generator, m: Match, pos: Pos): Result<set<Pos>>
    requires PositionExists(pos) && pos in m.board
  {
    Moves.Moves(gen, m.board, m.enPassantVulnerable, m.check, pos)
  }

  // ---------------------------------------------------------------------
  // Setup and turn bookkeeping

  /** The kind standing on column `col` of a home rank. */
  function HomeRankKind(col: int): Kind
    requires 0 <= col < 8
  {
    [Rook, Knight, Bishop, Queen, King, Bishop, Knight, Rook][col]
  }

  /** What stands on `p` at the start: Black on rows 0 and 1, White on rows
      6 and 7, pawns on the inner rows; each piece is unmoved and its id is
      the square's row-major index. */
  function StartingPiece(p: Pos): Option<Piece>
    requires PositionExists(p)
  {
    if p.0 == 0 then Some(Piece(Index(p), HomeRankKind(p.1), Black, 0))
    else if p.0 == 1 then Some(Piece(Index(p), Pawn, Black, 0))
    else if p.0 == 6 then Some(Piece(Index(p), Pawn, White, 0))
    else if p.0 == 7 then Some(Piece(Index(p), HomeRankKind(p.1), White, 0))
    else None
  }

  /** All 64 squares. */
  function AllPositions(): set<Pos> {
    set r, c | 0 <= r < 8 && 0 <= c < 8 :: (r, c)
  }

  /** The starting grid: exactly the squares `StartingPiece` fills. */
  function StartingBoard(): (b: Grid)
    ensures forall p :: p in b <==> PositionExists(p) && (p.0 <= 1 || p.0 >= 6)
    ensures forall p :: p in b ==> Some(b[p]) == StartingPiece(p)
  {
    map p | p in AllPositions() && StartingPiece(p).Some? :: StartingPiece(p).value
  }

  /** A new match: the standard 32-piece position, turn 1, White to move. */
  function InitialSetup(): (m: Match)
    ensures m.turn == 1 && m.currentPlayer == White
    ensures !m.check && !m.checkmate
    ensures m.enPassantVulnerable == None && m.promoted == None && m.captured == []
    ensures forall p :: p in m.board <==> PositionExists(p) && (p.0 <= 1 || p.0 >= 6)
    ensures forall p :: p in m.board ==> m.board[p].moveCount == 0
    ensures forall p :: p in m.board ==> (m.board[p].color == White <==> p.0 >= 6)
    ensures forall p :: p in m.board ==> (m.board[p].kind == Pawn <==> p.0 == 1 || p.0 == 6)
  {
    Match(1, White, StartingBoard(), false, false, None, None, [], 64)
  }

  /** Advances the turn counter and hands the move to the other side. */
  function NextTurn(m: Match): (r: Match)
    ensures r.turn == m.turn + 1
    ensures r.currentPlayer == Opponent(m.currentPlayer)
    ensures r.(turn := m.turn, currentPlayer := m.currentPlayer) == m
  {
    m.(turn := m.turn + 1, currentPlayer := if m.currentPlayer == White then Black else White)
  }

  /** The square of the first king of `color` in row-major order, searching
      from index `i`. */
  function KingFrom(b: Grid, color: Color, i: int): (r: Option<Pos>)
    requires 0 <= i <= 64
    ensures r.Some? ==> PositionExists(r.value) && r.value in b
                        && b[r.value].kind == King && b[r.value].color == color
    ensures r.None? ==> forall j :: i <= j < 64 && Square(j) in b ==>
                          b[Square(j)].kind != King || b[Square(j)].color != color
    decreases 64 - i
  {
    if i == 64 then None
    else
      var q := Square(i);
      if q in b && b[q].kind == King && b[q].color == color then Some(q)
      else KingFrom(b, color, i + 1)
  }

  /** The square of the king of `color`, if there is one on the board. */
  function KingSquare(b: Grid, color: Color): (r: Option<Pos>)
    ensures r.Some? ==> PositionExists(r.value) && r.value in b
                        && b[r.value].kind == King && b[r.value].color == color
    ensures r.None? <==> forall p :: p in b && PositionExists(p) ==> b[p].kind != King || b[p].color != color
  {
    var r := KingFrom(b, color, 0);
    assert r.None? ==> forall p :: p in b && PositionExists(p) ==> Square(Index(p)) == p;
    r
  }

  // ---------------------------------------------------------------------
  // Commit and revert

  /** How a relocation changes the relocated piece's move count. */
  datatype CountChange = Raise | Lower | Keep

  /** The piece, if any, after its move count changed as `change` says. */
  function Shift(piece: Option<Piece>, change: CountChange): (r: Option<Piece>)
    ensures r.None? <==> piece.None?
  {
    match piece
    case None => None
    case Some(q) =>
      match change
      case Raise => Some(Moved(q))
      case Lower => Some(Unmoved(q))
      case Keep => piece
  }

  /** Lifts whatever stands on `from`, puts it on `to` and changes its move
      count as `change` says. */
  function Relocate(b: Grid, from: Pos, to: Pos, change: CountChange): Result<Grid> {
    var lifted :- RemovePiece(b, from);
    PlacePiece(lifted.0, Shift(lifted.1, change), to)
  }

  /** A king moving two columns right brings the piece three columns right
      of its source next to it; moving two columns left, the piece four
      columns left. */
  function CastleRook(b: Grid, mover: Piece, s: Pos, t: Pos): Result<Grid> {
    if mover.kind == King && t.1 == s.1 + 2 then Relocate(b, (s.0, s.1 + 3), (s.0, s.1 + 1), Raise)
    else if mover.kind == King && t.1 == s.1 - 2 then Relocate(b, (s.0, s.1 - 4), (s.0, s.1 - 1), Raise)
    else Ok(b)
  }

  /** The inverse of `CastleRook`. */
  function UncastleRook(b: Grid, mover: Piece, s: Pos, t: Pos): Result<Grid> {
    if mover.kind == King && t.1 == s.1 + 2 then Relocate(b, (s.0, s.1 + 1), (s.0, s.1 + 3), Lower)
    else if mover.kind == King && t.1 == s.1 - 2 then Relocate(b, (s.0, s.1 - 1), (s.0, s.1 - 4), Lower)
    else Ok(b)
  }

  /** The square behind `t`, seen from a pawn of `color` arriving on `t`. */
  function EnPassantVictim(color: Color, t: Pos): Pos {
    (t.0 - PawnMoves.Direction(color), t.1)
  }

  /** A pawn moving diagonally onto an empty square removes whatever stands
      behind its target and logs it, even when that is nothing. */
  function EnPassantCapture(b: Grid, mover: Piece, s: Pos, t: Pos, cap: Option<Piece>,
                            log: seq<Option<Piece>>): Result<(Grid, Option<Piece>, seq<Option<Piece>>)>
  {
    if mover.kind == Pawn && s.1 != t.1 && cap.None? then
      var removed :- RemovePiece(b, EnPassantVictim(mover.color, t));
      Ok((removed.0, removed.1, log + [removed.1]))
    else Ok((b, cap, log))
  }

  /** `cap` is the en-passant-vulnerable piece; two absent pieces compare
      equal, as two null references do. */
  predicate IsVulnerable(cap: Option<Piece>, vulnerable: Option<nat>) {
    match cap
    case None => vulnerable.None?
    case Some(q) => vulnerable == Some(q.id)
  }

  /** When a pawn that moved diagonally took the vulnerable piece, that piece
      is moved from `t` to the mover's en-passant row in `t`'s column. */
  function EnPassantRestore(b: Grid, mover: Piece, s: Pos, t: Pos, cap: Option<Piece>,
                            vulnerable: Option<nat>): Result<Grid>
  {
    if mover.kind == Pawn && s.1 != t.1 && IsVulnerable(cap, vulnerable) then
      Relocate(b, t, (PawnMoves.EnPassantRow(mover.color), t.1), Keep)
    else Ok(b)
  }

  /** Drops the first log entry that is the piece with id `id`. */
  function RemoveFirst(log: seq<Option<Piece>>, id: nat): (r: seq<Option<Piece>>)
    ensures |r| <= |log|
  {
    if |log| == 0 then []
    else if log[0].Some? && log[0].value.id == id then log[1..]
    else [log[0]] + RemoveFirst(log[1..], id)
  }

  /** Commits the move `s` -> `t`: the mover's count goes up, a piece on `t`
      is captured, a castling rook is relocated and an en-passant victim is
      removed. Returns the new state and the captured piece, if any. */
  function MakeMove(m: Match, s: Pos, t: Pos): (r: Result<(Match, Option<Piece>)>)
    requires PositionExists(s) && s in m.board && PositionExists(t)
    ensures r.Ok? ==> t in r.value.0.board && r.value.0.board[t] == Moved(m.board[s])
    ensures r.Ok? ==> s != t ==> s !in r.value.0.board
    ensures r.Ok? ==> r.value.0.(board := m.board, captured := m.captured) == m
    ensures r.Ok? && InBounds(m.board) ==> InBounds(r.value.0.board)
    ensures r.Err? ==> r.error == Fault
  {
    var p := Moved(m.board[s]);
    var b1 := m.board - {s};
    var cap := PieceAt(b1, t);
    var b2 := b1 - {t};
    var log := if cap.Some? then m.captured + [cap] else m.captured;
    var b3 :- CastleRook(b2, p, s, t);
    var ep :- EnPassantCapture(b3, p, s, t, cap, log);
    Ok((m.(board := ep.0[t := p], captured := ep.2), ep.1))
  }

  /** Reverts the move `s` -> `t` that captured `cap`: the mover goes back
      with its count lowered, `cap` returns to `t` and leaves the log, a
      castling rook goes home, and a captured vulnerable piece is moved to
      the en-passant row. */
  function UndoMove(m: Match, s: Pos, t: Pos, cap: Option<Piece>): (r: Result<Match>)
    requires PositionExists(s) && PositionExists(t)
    ensures r.Ok? ==> r.value.(board := m.board, captured := m.captured) == m
    ensures r.Err? ==> r.error == Fault
  {
    if t !in m.board then Err(Fault)
    else
      var p := Unmoved(m.board[t]);
      var b1 :- PlacePiece(m.board - {t}, Some(p), s);
      var b2 :- if cap.Some? then PlacePiece(b1, cap, t) else Ok(b1);
      var log := if cap.Some? then RemoveFirst(m.captured, cap.value.id) else m.captured;
      var b3 :- UncastleRook(b2, p, s, t);
      var b4 :- EnPassantRestore(b3, p, s, t, cap, m.enPassantVulnerable);
      Ok(m.(board := b4, captured := log))
  }

  // ---------------------------------------------------------------------
  // Check and checkmate

  /** The piece on `q` belongs to `side` and its mask marks `k`. */
  predicate Attacks(gen: Generator, m: Match, q: Pos, k: Pos, side: Color) {
    && PositionExists(q) && q in m.board && m.board[q].color == side
    && MaskAt(gen, m, q).Ok? && k in MaskAt(gen, m, q).value
  }

  /** The piece on `q` belongs to `side` and computing its mask faults. */
  predicate MaskFaults(gen: Generator, m: Match, q: Pos, side: Color) {
    PositionExists(q) && q in m.board && m.board[q].color == side && MaskAt(gen, m, q).Err?
  }

  /** Whether a piece of `side` on a square of index `i` or later marks `k`,
      visiting the squares in row-major order and stopping at the first
      attacker or the first fault. */
  function AttackedFrom(gen: Generator, m: Match, k: Pos, side: Color, i: int): (r: Result<bool>)
    requires 0 <= i <= 64
    ensures r == Ok(true) ==> exists q :: Attacks(gen, m, q, k, side) && i <= Index(q)
    ensures r == Ok(false) ==>
              forall q :: PositionExists(q) && i <= Index(q) ==>
                            !Attacks(gen, m, q, k, side) && !MaskFaults(gen, m, q, side)
    ensures r.Err? ==> r.error == Fault && exists q :: MaskFaults(gen, m, q, side) && i <= Index(q)
    ensures (forall q :: PositionExists(q) && i <= Index(q) ==> !MaskFaults(gen, m, q, side)) ==> r.Ok?
    decreases 64 - i
  {
    if i == 64 then Ok(false)
    else
      IndexSplit(i);
      var q := Square(i);
      if q in m.board && m.board[q].color == side then
        match MaskAt(gen, m, q)
        case Err(e) =>
          assert MaskFaults(gen, m, q, side) && Index(q) == i;
          Err(e)
        case Ok(mask) =>
          if k in mask then
            assert Attacks(gen, m, q, k, side) && Index(q) == i;
            Ok(true)
          else AttackedFrom(gen, m, k, side, i + 1)
      else AttackedFrom(gen, m, k, side, i + 1)
  }

  /** Whether the king of `color` is attacked by some opponent piece. The
      source throws when there is no such king; so does any opponent mask
      that faults before an attacker is found. */
  function TestCheck(gen: Generator, m: Match, color: Color): (r: Result<bool>)
    ensures r == Ok(true) ==>
              KingSquare(m.board, color).Some?
              && exists q :: Attacks(gen, m, q, KingSquare(m.board, color).value, Opponent(color))
    ensures r == Ok(false) ==>
              KingSquare(m.board, color).Some?
              && forall q :: !Attacks(gen, m, q, KingSquare(m.board, color).value, Opponent(color))
                             && !MaskFaults(gen, m, q, Opponent(color))
    ensures r.Err? ==> r.error == Fault
    ensures r.Err? ==> KingSquare(m.board, color).None? || exists q :: MaskFaults(gen, m, q, Opponent(color))
    ensures KingSquare(m.board, color).None? ==> r.Err?
    ensures KingSquare(m.board, color).Some? && (forall q :: !MaskFaults(gen, m, q, Opponent(color))) ==> r.Ok?
  {
    match KingSquare(m.board, color)
    case None => Err(Fault)
    case Some(k) => AttackedFrom(gen, m, k, Opponent(color), 0)
  }

  /** Commits `s` -> `t`, asks whether `color` is still in check, and
      reverts. A fault of any of the three steps is the probe's fault. */
  function Probe(gen: Generator, m: Match, color: Color, s: Pos, t: Pos): (r: Result<bool>)
    requires PositionExists(s) && s in m.board && PositionExists(t)
    ensures r.Ok? ==> && MakeMove(m, s, t).Ok?
                      && TestCheck(gen, MakeMove(m, s, t).value.0, color) == r
                      && UndoMove(MakeMove(m, s, t).value.0, s, t, MakeMove(m, s, t).value.1).Ok?
    ensures r.Err? ==> r.error == Fault
    ensures (&& MakeMove(m, s, t).Ok? && TestCheck(gen, MakeMove(m, s, t).value.0, color).Ok?
             && UndoMove(MakeMove(m, s, t).value.0, s, t, MakeMove(m, s, t).value.1).Ok?) ==> r.Ok?
  {
    var made :- MakeMove(m, s, t);
    var stillInCheck :- TestCheck(gen, made.0, color);
    var _ :- UndoMove(made.0, s, t, made.1);
    Ok(stillInCheck)
  }

  /** `s` -> `t` is a move of a piece of `color` that the mask allows. */
  predicate Candidate(gen: Generator, m: Match, color: Color, s: Pos, t: Pos) {
    && PositionExists(s) && s in m.board && m.board[s].color == color
    && MaskAt(gen, m, s).Ok? && t in MaskAt(gen, m, s).value
  }

  /** `s` -> `t` is a candidate after which `color` is no longer in check. */
  predicate Escapes(gen: Generator, m: Match, color: Color, s: Pos, t: Pos) {
    Candidate(gen, m, color, s, t) && Probe(gen, m, color, s, t) == Ok(false)
  }

  /** The search for an escape faults on the piece on `s`, or on the move `s` -> `t`. */
  predicate SearchFaults(gen: Generator, m: Match, color: Color, s: Pos, t: Pos) {
    MaskFaults(gen, m, s, color) || (Candidate(gen, m, color, s, t) && Probe(gen, m, color, s, t).Err?)
  }

  /** Whether every target of index `j` or later in `mask` leaves `color`
      in check, stopping at the first escape or fault. */
  function NoEscapeTargets(gen: Generator, m: Match, color: Color, s: Pos, mask: set<Pos>, j: int): (r: Result<bool>)
    requires PositionExists(s) && s in m.board && 0 <= j <= 64
    requires forall t :: t in mask ==> PositionExists(t)
    ensures r == Ok(true) ==> forall t :: t in mask && j <= Index(t) ==> Probe(gen, m, color, s, t) == Ok(true)
    ensures r == Ok(false) ==> exists t :: t in mask && j <= Index(t) && Probe(gen, m, color, s, t) == Ok(false)
    ensures r.Err? ==> exists t :: t in mask && j <= Index(t) && Probe(gen, m, color, s, t).Err?
    ensures (forall t :: t in mask && j <= Index(t) ==> Probe(gen, m, color, s, t).Ok?) ==> r.Ok?
    decreases 64 - j
  {
    if j == 64 then Ok(true)
    else
      IndexSplit(j);
      var t := Square(j);
      if t in mask then
        var still :- Probe(gen, m, color, s, t);
        if !still then Ok(false) else NoEscapeTargets(gen, m, color, s, mask, j + 1)
      else NoEscapeTargets(gen, m, color, s, mask, j + 1)
  }

  /** Every candidate move of the piece on `s` leaves `color` in check. */
  ghost predicate Trapped(gen: Generator, m: Match, color: Color, s: Pos) {
    forall t :: Candidate(gen, m, color, s, t) ==> Probe(gen, m, color, s, t) == Ok(true)
  }

  /** Some candidate move of the piece on `s` gets `color` out of check. */
  ghost predicate HasEscape(gen: Generator, m: Match, color: Color, s: Pos) {
    exists t :: Escapes(gen, m, color, s, t)
  }

  /** The search for an escape faults on the piece on `s`. */
  ghost predicate HasSearchFault(gen: Generator, m: Match, color: Color, s: Pos) {
    exists t :: SearchFaults(gen, m, color, s, t)
  }

  /** Whether no piece of `color` on a square of index `i` or later has an
      escape, visiting pieces in row-major order. */
  function NoEscapeFrom(gen: Generator, m: Match, color: Color, i: int): (r: Result<bool>)
    requires 0 <= i <= 64
    ensures r == Ok(true) ==> forall s :: PositionExists(s) && i <= Index(s) ==> Trapped(gen, m, color, s)
    ensures r == Ok(false) ==> exists s :: PositionExists(s) && i <= Index(s) && HasEscape(gen, m, color, s)
    ensures r.Err? ==> exists s :: PositionExists(s) && i <= Index(s) && HasSearchFault(gen, m, color, s)
    ensures (forall s :: PositionExists(s) && i <= Index(s) ==> !HasSearchFault(gen, m, color, s)) ==> r.Ok?
    decreases 64 - i
  {
    if i == 64 then Ok(true)
    else
      IndexSplit(i);
      var s := Square(i);
      if s in m.board && m.board[s].color == color then
        match MaskAt(gen, m, s)
        case Err(e) =>
          assert SearchFaults(gen, m, color, s, s);
          Err(e)
        case Ok(mask) =>
          var none := NoEscapeTargets(gen, m, color, s, mask, 0);
          if none.Err? then
            var t :| t in mask && Probe(gen, m, color, s, t).Err?;
            assert SearchFaults(gen, m, color, s, t);
            Err(none.error)
          else if !none.value then
            var t :| t in mask && Probe(gen, m, color, s, t) == Ok(false);
            assert Escapes(gen, m, color, s, t);
            Ok(false)
          else
            assert Trapped(gen, m, color, s);
            NoEscapeFrom(gen, m, color, i + 1)
      else
        assert Trapped(gen, m, color, s);
        NoEscapeFrom(gen, m, color, i + 1)
  }

  /** Whether `color` is checkmated: in check, and no candidate move of any
      of its pieces gets its king out of check. */
  function TestCheckmate(gen: Generator, m: Match, color: Color): (r: Result<bool>)
    ensures r == Ok(true) ==> TestCheck(gen, m, color) == Ok(true)
    ensures r == Ok(true) ==> forall s :: PositionExists(s) ==> Trapped(gen, m, color, s)
    ensures r == Ok(false) ==>
              TestCheck(gen, m, color) == Ok(false) || exists s :: PositionExists(s) && HasEscape(gen, m, color, s)
    ensures TestCheck(gen, m, color) == Ok(true) && (forall s :: PositionExists(s) ==> !HasSearchFault(gen, m, color, s))
            ==> r.Ok?
  {
    var inCheck :- TestCheck(gen, m, color);
    if !inCheck then Ok(false) else NoEscapeFrom(gen, m, color, 0)
  }

  // ---------------------------------------------------------------------
  // Validation

  /** The source square holds a piece of the player to move that has at
      least one marked square. */
  function ValidateSourcePosition(gen: Generator, m: Match, s: Pos): (r: Result<()>)
    requires PositionExists(s)
    ensures r.Ok? <==> s in m.board && m.board[s].color == m.currentPlayer
                       && MaskAt(gen, m, s).Ok? && MaskAt(gen, m, s).value != {}
    ensures r == Err(NoPieceAtSource) <==> s !in m.board
    ensures r == Err(WrongPlayersPiece) <==> s in m.board && m.board[s].color != m.currentPlayer
    ensures r == Err(NoPossibleMoves) <==>
              s in m.board && m.board[s].color == m.currentPlayer && MaskAt(gen, m, s) == Ok({})
  {
    if s !in m.board then Err(NoPieceAtSource)
    else if m.currentPlayer != m.board[s].color then Err(WrongPlayersPiece)
    else
      var mask :- MaskAt(gen, m, s);
      if mask == {} then Err(NoPossibleMoves) else Ok(())
  }

  /** The target square is marked by the source piece's mask. */
  function ValidateTargetPosition(gen: Generator, m: Match, s: Pos, t: Pos): (r: Result<()>)
    requires PositionExists(s) && s in m.board
    ensures r.Ok? <==> MaskAt(gen, m, s).Ok? && t in MaskAt(gen, m, s).value
    ensures r == Err(IllegalTarget) <==> MaskAt(gen, m, s).Ok? && t !in MaskAt(gen, m, s).value
  {
    var mask :- MaskAt(gen, m, s);
    if t !in mask then Err(IllegalTarget) else Ok(())
  }

  /** The squares the piece on `s` may move to, once `s` is validated. */
  function PossibleMoves(gen: Generator, m: Match, s: Pos): (r: Result<set<Pos>>)
    requires PositionExists(s)
    ensures r.Ok? ==> s in m.board && m.board[s].color == m.currentPlayer
                      && r == MaskAt(gen, m, s) && r.value != {}
    ensures r.Err? ==> r.error in {NoPieceAtSource, WrongPlayersPiece, NoPossibleMoves, Fault}
    ensures ValidateSourcePosition(gen, m, s).Ok? ==> r.Ok? && r == MaskAt(gen, m, s)
    ensures ValidateSourcePosition(gen, m, s).Err? ==> r == Err(ValidateSourcePosition(gen, m, s).error)
  {
    var _ :- ValidateSourcePosition(gen, m, s);
    MaskAt(gen, m, s)
  }

  // ---------------------------------------------------------------------
  // Castling legality and promotion

  /** After a committed move `s` -> `t`, whether it is a two-column king move
      whose transit square (the source column plus or minus one) is
      attacked: the king is moved from `t` to the transit square, check is
      tested, and the probe is reverted. */
  function TestIllegalCastling(gen: Generator, m: Match, s: Pos, t: Pos): (r: Result<bool>)
    requires PositionExists(s) && PositionExists(t) && t in m.board
    ensures !(m.board[t].kind == King && (s.1 - t.1 == 2 || t.1 - s.1 == 2)) ==> r == Ok(false)
    ensures r == Ok(true) ==>
              var transit := TransitSquare(s, t);
              && PositionExists(transit) && MakeMove(m, t, transit).Ok?
              && TestCheck(gen, MakeMove(m, t, transit).value.0, m.currentPlayer) == Ok(true)
    ensures m.board[t].kind == King && (s.1 - t.1 == 2 || t.1 - s.1 == 2) && r == Ok(false) ==>
              var transit := TransitSquare(s, t);
              && PositionExists(transit) && MakeMove(m, t, transit).Ok?
              && TestCheck(gen, MakeMove(m, t, transit).value.0, m.currentPlayer) == Ok(false)
    // Conversely, a king that is in check on the transit square is refused,
    // and one that is not passes, whenever the probe runs without a fault.
    ensures m.board[t].kind == King && (s.1 - t.1 == 2 || t.1 - s.1 == 2) ==>
              var transit := TransitSquare(s, t);
              PositionExists(transit) && MakeMove(m, t, transit).Ok?
              && TestCheck(gen, MakeMove(m, t, transit).value.0, m.currentPlayer).Ok?
              && UndoMove(MakeMove(m, t, transit).value.0, t, transit, MakeMove(m, t, transit).value.1).Ok? ==>
                r == TestCheck(gen, MakeMove(m, t, transit).value.0, m.currentPlayer)
  {
    var transit := TransitSquare(s, t);
    if m.board[t].kind == King && (s.1 - t.1 == 2 || t.1 - s.1 == 2) then
      Probe(gen, m, m.currentPlayer, t, transit)
    else Ok(false)
  }

  /** The square in the source row one column from the source towards the target. */
  function TransitSquare(s: Pos, t: Pos): Pos {
    (s.0, if s.1 > t.1 then s.1 - 1 else t.1 - 1)
  }

  /** The kind a promotion letter asks for; anything else yields a Queen. */
  function NewPieceKind(letter: string): Kind {
    if letter == "B" then Bishop
    else if letter == "N" then Knight
    else if letter == "R" then Rook
    else Queen
  }

  /** The square of the piece with id `id`, searching row-major from index `i`. */
  function FindPiece(b: Grid, id: nat, i: int): (r: Option<Pos>)
    requires 0 <= i <= 64
    ensures r.Some? ==> PositionExists(r.value) && r.value in b && b[r.value].id == id
    ensures r.None? ==> forall j :: i <= j < 64 && Square(j) in b ==> b[Square(j)].id != id
    decreases 64 - i
  {
    if i == 64 then None
    else if Square(i) in b && b[Square(i)].id == id then Some(Square(i))
    else FindPiece(b, id, i + 1)
  }

  /** Replaces the pending promoted piece with a new piece of the kind named
      by `letter`, on the same square and of the same colour. A letter other
      than B, N, R or Q leaves everything as is and returns the pending
      piece. The pending piece itself is not updated. */
  function ReplacePromotedPiece(m: Match, letter: string): (r: Result<(Match, Piece)>)
    ensures m.promoted.None? <==> r == Err(NoPendingPromotion)
    ensures m.promoted.Some? && letter !in {"B", "N", "R", "Q"} ==> r == Ok((m, m.promoted.value))
    ensures m.promoted.Some? && letter in {"B", "N", "R", "Q"} && r.Ok? ==>
              var (m', piece) := r.value;
              && piece == Piece(m.nextId, NewPieceKind(letter), m.promoted.value.color, 0)
              && m'.nextId == m.nextId + 1
              && m'.promoted == m.promoted
              && exists pos :: pos in m.board && m.board[pos].id == m.promoted.value.id
                               && m'.board == m.board[pos := piece]
    // A named kind succeeds exactly when the pending piece is on the board;
    // otherwise the lookup of its square fails.
    ensures m.promoted.Some? && letter in {"B", "N", "R", "Q"} ==>
              (r.Ok? <==> exists pos :: PositionExists(pos) && pos in m.board && m.board[pos].id == m.promoted.value.id)
    ensures m.promoted.Some? && r.Err? ==> r.error == Fault
    // Only the board and the id counter change.
    ensures r.Ok? ==> r.value.0.(board := m.board, nextId := m.nextId) == m
  {
    if m.promoted.None? then Err(NoPendingPromotion)
    else if letter !in {"B", "N", "R", "Q"} then Ok((m, m.promoted.value))
    else
      var pending := m.promoted.value;
      match FindPiece(m.board, pending.id, 0)
      case None =>
        assert forall pos :: PositionExists(pos) ==> Square(Index(pos)) == pos;
        Err(Fault)
      case Some(pos) =>
        var piece := Piece(m.nextId, NewPieceKind(letter), pending.color, 0);
        var b := (m.board - {pos})[pos := piece];
        assert b == m.board[pos := piece];
        Ok((m.(board := b, nextId := m.nextId + 1), piece))
  }

  // ---------------------------------------------------------------------
  // Performing a move

  /** A failed call: chess errors are refusals with the state unchanged,
      faults abandon the call. */
  function Fail(e: ChessError, m: Match): MoveOutcome {
    if e == Fault then Aborted else Refused(e, m)
  }

  /** The committed move exposes the mover's king, or castles through an
      attacked square. */
  function LeavesKingExposed(gen: Generator, m: Match, s: Pos, t: Pos): (r: Result<bool>)
    requires PositionExists(s) && PositionExists(t) && t in m.board
    ensures r == Ok(true) <==>
              TestCheck(gen, m, m.currentPlayer) == Ok(true)
              || (TestCheck(gen, m, m.currentPlayer) == Ok(false) && TestIllegalCastling(gen, m, s, t) == Ok(true))
    ensures r == Ok(false) <==>
              TestCheck(gen, m, m.currentPlayer) == Ok(false) && TestIllegalCastling(gen, m, s, t) == Ok(false)
  {
    var selfCheck :- TestCheck(gen, m, m.currentPlayer);
    if selfCheck then Ok(true) else TestIllegalCastling(gen, m, s, t)
  }

  /** A pawn that reached row 0 or 7 becomes a Queen and is the pending
      promotion; otherwise nothing is pending. */
  function Promote(m: Match, t: Pos): (r: Result<Match>)
    requires t in m.board
    ensures r.Ok? ==> r.value.(board := m.board, promoted := m.promoted, nextId := m.nextId) == m
    // The moved piece is on the board, so its square is found.
    ensures PositionExists(t) ==> r.Ok?
    ensures r.Err? ==> r.error == Fault
    ensures r.Ok? ==> (r.value.promoted.Some? <==> m.board[t].kind == Pawn && (t.0 == 0 || t.0 == 7))
    ensures r.Ok? && r.value.promoted.Some? ==>
              && r.value.promoted.value == Piece(m.nextId, Queen, m.board[t].color, 0)
              && r.value.nextId == m.nextId + 1
    ensures r.Ok? && r.value.promoted.None? ==> r.value.board == m.board && r.value.nextId == m.nextId
  {
    var moved := m.board[t];
    if moved.kind == Pawn && (t.0 == 0 || t.0 == 7) then
      var replaced :- ReplacePromotedPiece(m.(promoted := Some(moved)), "Q");
      Ok(replaced.0.(promoted := Some(replaced.1)))
    else Ok(m.(promoted := None))
  }

  /** Performs `s` -> `t` for the player to move: validates, commits,
      rejects (reverting) a move that exposes the mover's king, promotes,
      classifies check and checkmate for the opponent, and, unless that is
      mate, advances the turn and records a two-row pawn advance as
      vulnerable to en passant. */
  function PerformChessMove(gen: Generator, m: Match, s: Pos, t: Pos): (r: MoveOutcome)
    requires PositionExists(s) && PositionExists(t)
    // Refusals are chess errors; all but self-check come before the commit.
    ensures r.Refused? ==> r.error != Fault
    ensures r.Refused? && r.error != SelfCheck ==> r.after == m
    ensures r.Done? || (r.Refused? && r.error == SelfCheck) ==>
              && s in m.board && m.board[s].color == m.currentPlayer
              && MaskAt(gen, m, s).Ok? && t in MaskAt(gen, m, s).value
              && MakeMove(m, s, t).Ok?
    // A completed move leaves the mover's king unattacked and did not castle
    // through an attacked square; a refused one did one or the other.
    ensures r.Done? ==>
              && TestCheck(gen, MakeMove(m, s, t).value.0, m.currentPlayer) == Ok(false)
              && TestIllegalCastling(gen, MakeMove(m, s, t).value.0, s, t) == Ok(false)
    ensures r.Refused? && r.error == SelfCheck ==>
              LeavesKingExposed(gen, MakeMove(m, s, t).value.0, s, t) == Ok(true)
    // Checkmate ends the game on the mover's turn; otherwise the turn passes.
    ensures r.Done? && r.after.checkmate ==>
              TestCheck(gen, r.after.(checkmate := m.checkmate), Opponent(m.currentPlayer)) == Ok(true)
    ensures r.Done? && r.after.checkmate ==>
              r.after.turn == m.turn && r.after.currentPlayer == m.currentPlayer && r.captured.None?
    ensures r.Done? && !r.after.checkmate ==>
              && r.after.turn == m.turn + 1 && r.after.currentPlayer == Opponent(m.currentPlayer)
              && r.captured == MakeMove(m, s, t).value.1
    ensures r.Done? ==> r.after.captured == MakeMove(m, s, t).value.0.captured
  {
    match ValidateSourcePosition(gen, m, s)
    case Err(e) => Fail(e, m)
    case Ok(_) =>
      match ValidateTargetPosition(gen, m, s, t)
      case Err(e) => Fail(e, m)
      case Ok(_) =>
        match MakeMove(m, s, t)
        case Err(_) => Aborted
        case Ok((committed, cap)) =>
          match LeavesKingExposed(gen, committed, s, t)
          case Err(_) => Aborted
          case Ok(true) =>
            (match UndoMove(committed, s, t, cap)
             case Err(_) => Aborted
             case Ok(reverted) => Refused(SelfCheck, reverted))
          case Ok(false) => Conclude(gen, m, committed, s, t, cap)
  }

  /** The part of `PerformChessMove` after the move is known to be legal:
      promotion, then the check test for the opponent, whose result is
      stored before the rest is classified. */
  function Conclude(gen: Generator, m: Match, committed: Match, s: Pos, t: Pos, cap: Option<Piece>): (r: MoveOutcome)
    requires t in committed.board && committed.currentPlayer == m.currentPlayer
    ensures !r.Refused?
    ensures r.Done? ==>
              && Promote(committed, t).Ok?
              && var promoted, opponent := Promote(committed, t).value, Opponent(m.currentPlayer);
              && r.after.(turn := promoted.turn, currentPlayer := promoted.currentPlayer,
                          enPassantVulnerable := promoted.enPassantVulnerable,
                          check := promoted.check, checkmate := promoted.checkmate) == promoted
              && (r.after.check <==> TestCheck(gen, promoted, opponent) == Ok(true))
              && (r.after.checkmate <==> TestCheckmate(gen, promoted.(check := r.after.check), opponent) == Ok(true))
              && (r.after.checkmate ==> TestCheck(gen, promoted.(check := r.after.check), opponent) == Ok(true))
    ensures r.Done? && r.after.checkmate ==>
              && r.captured.None?
              && r.after.turn == committed.turn && r.after.currentPlayer == committed.currentPlayer
              && r.after.enPassantVulnerable == committed.enPassantVulnerable
    ensures r.Done? && !r.after.checkmate ==>
              && r.captured == cap
              && r.after.turn == committed.turn + 1 && r.after.currentPlayer == Opponent(committed.currentPlayer)
              && r.after.enPassantVulnerable ==
                   if committed.board[t].kind == Pawn && (t.0 == s.0 + 2 || t.0 == s.0 - 2)
                   then Some(committed.board[t].id) else committed.enPassantVulnerable
  {
    match Promote(committed, t)
    case Err(_) => Aborted
    case Ok(promoted) =>
      match TestCheck(gen, promoted, Opponent(m.currentPlayer))
      case Err(_) => Aborted
      case Ok(inCheck) => Classify(gen, promoted.(check := inCheck), s, t, cap, committed.board[t])
  }

  /** Tests checkmate of the opponent of the player to move in `flagged`
      (whose check flag is already stored); on mate the game stops on the
      mover's turn with no capture reported, otherwise the turn passes and
      a two-row pawn advance of `moved` becomes vulnerable to en passant. */
  function Classify(gen: Generator, flagged: Match, s: Pos, t: Pos, cap: Option<Piece>, moved: Piece): (r: MoveOutcome)
    ensures !r.Refused?
    ensures r.Done? ==>
              && r.after.(turn := flagged.turn, currentPlayer := flagged.currentPlayer,
                          enPassantVulnerable := flagged.enPassantVulnerable,
                          checkmate := flagged.checkmate) == flagged
              && (r.after.checkmate <==> TestCheckmate(gen, flagged, Opponent(flagged.currentPlayer)) == Ok(true))
    ensures r.Done? && r.after.checkmate ==>
              && TestCheck(gen, flagged, Opponent(flagged.currentPlayer)) == Ok(true)
              && r.captured.None?
              && r.after.turn == flagged.turn && r.after.currentPlayer == flagged.currentPlayer
              && r.after.enPassantVulnerable == flagged.enPassantVulnerable
    ensures r.Done? && !r.after.checkmate ==>
              && r.captured == cap
              && r.after.turn == flagged.turn + 1 && r.after.currentPlayer == Opponent(flagged.currentPlayer)
              && r.after.enPassantVulnerable ==
                   if moved.kind == Pawn && (t.0 == s.0 + 2 || t.0 == s.0 - 2)
                   then Some(moved.id) else flagged.enPassantVulnerable
  {
    match TestCheckmate(gen, flagged, Opponent(flagged.currentPlayer))
    case Err(_) => Aborted
    case Ok(mate) =>
      var classified := flagged.(checkmate := mate);
      if mate then Done(classified, None)
      else
        var next := NextTurn(classified);
        if moved.kind == Pawn && (t.0 == s.0 + 2 || t.0 == s.0 - 2) then
          Done(next.(enPassantVulnerable := Some(moved.id)), cap)
        else Done(next, cap)
  }
}
