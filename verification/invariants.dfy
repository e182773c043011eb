/** Well-formedness of a match: piece identities are unique, captured pieces
    are off the board, and every identity was issued before `nextId`. The
    source gets the first for free from object identity; here it is an
    invariant the commit keeps. */
module Invariants {
  import opened Outcomes
  import opened Pieces
  import opened Board
  import opened ChessMatch
  import opened RoundTrip

  /** The ids of the pieces on a grid. */
  function IdSet(b: Grid): set<nat> {
    set q | q in b :: b[q].id
  }

  /** No two squares hold pieces with the same id. */
  predicate IdsDistinct(b: Grid) {
    forall p, q :: p in b && q in b && b[p].id == b[q].id ==> p == q
  }

  /** Every id on the board or in the log is below `nextId`. */
  predicate IdsIssued(m: Match) {
    && (forall p :: p in m.board ==> m.board[p].id < m.nextId)
    && (forall i :: 0 <= i < |m.captured| && m.captured[i].Some? ==> m.captured[i].value.id < m.nextId)
  }

  predicate Wf(m: Match) {
    InBounds(m.board) && IdsDistinct(m.board) && LogFresh(m) && IdsIssued(m)
  }

  /** Removing squares keeps ids distinct, and a removed piece's id is gone. */
  lemma RemovedIds(b: Grid, gone: set<Pos>)
    requires IdsDistinct(b)
    ensures IdsDistinct(b - gone) && IdSet(b - gone) <= IdSet(b)
    ensures forall q :: q in b && q in gone ==> b[q].id !in IdSet(b - gone)
  {
  }

  /** Putting a piece with a fresh id on a square keeps ids distinct. */
  lemma PlacedIds(b: Grid, k: Pos, x: Piece)
    requires IdsDistinct(b) && x.id !in IdSet(b)
    ensures IdsDistinct(b[k := x]) && IdSet(b[k := x]) <= IdSet(b) + {x.id}
  {
    assert forall p :: p in b ==> b[p].id in IdSet(b);
  }

  /** Relocating a castling rook keeps ids distinct and adds none. */
  lemma CastleIds(b: Grid, mover: Piece, s: Pos, t: Pos)
    requires IdsDistinct(b) && CastleRook(b, mover, s, t).Ok?
    ensures IdsDistinct(CastleRook(b, mover, s, t).value)
    ensures IdSet(CastleRook(b, mover, s, t).value) <= IdSet(b)
  {
    if mover.kind == King && (t.1 == s.1 + 2 || t.1 == s.1 - 2) {
      var home, next := RookHome(s, t), RookNext(s, t);
      assert home in b && PositionExists(home) && PositionExists(next) && next !in b - {home};
      var rook := b[home].(moveCount := b[home].moveCount + 1);
      Relocated(b, home, next, Raise);
      RemovedIds(b, {home});
      PlacedIds(b - {home}, next, rook);
    }
  }

  /** The en-passant removal keeps ids distinct and adds none; when it logs
      an entry, that entry's piece has left the board. */
  lemma EnPassantIds(b: Grid, mover: Piece, s: Pos, t: Pos, cap: Option<Piece>, log: seq<Option<Piece>>)
    requires IdsDistinct(b) && EnPassantCapture(b, mover, s, t, cap, log).Ok?
    ensures var (b', c, log') := EnPassantCapture(b, mover, s, t, cap, log).value;
            && IdsDistinct(b') && IdSet(b') <= IdSet(b)
            && ((log' == log && c == cap)
                || (log' == log + [c] && (c.Some? ==> c.value.id in IdSet(b) && c.value.id !in IdSet(b'))))
  {
    if mover.kind == Pawn && s.1 != t.1 && cap.None? {
      var v := EnPassantVictim(mover.color, t);
      RemovedIds(b, {v});
      if v in b {
        assert b[v].id in IdSet(b);
      }
    }
  }

  /** The identities a commit leaves on the board: unique, none new, and
      the log only grows, by pieces that have just left the board. */
  lemma CommitIds(m: Match, s: Pos, t: Pos)
    requires PositionExists(s) && s in m.board && PositionExists(t)
    requires IdsDistinct(m.board) && MakeMove(m, s, t).Ok?
    ensures var m' := MakeMove(m, s, t).value.0;
            && IdsDistinct(m'.board) && IdSet(m'.board) <= IdSet(m.board)
            && m.captured <= m'.captured
            && forall i :: |m.captured| <= i < |m'.captured| && m'.captured[i].Some? ==>
                 m'.captured[i].value.id in IdSet(m.board) && m'.captured[i].value.id !in IdSet(m'.board)
  {
    var p := Moved(m.board[s]);
    var b1 := m.board - {s};
    var cap := PieceAt(b1, t);
    var b2 := b1 - {t};
    var log := if cap.Some? then m.captured + [cap] else m.captured;
    RemovedIds(m.board, {s});
    RemovedIds(b1, {t});
    assert CastleRook(b2, p, s, t).Ok?;
    var b3 := CastleRook(b2, p, s, t).value;
    CastleIds(b2, p, s, t);
    assert EnPassantCapture(b3, p, s, t, cap, log).Ok?;
    var (b4, c, log') := EnPassantCapture(b3, p, s, t, cap, log).value;
    EnPassantIds(b3, p, s, t, cap, log);
    assert IdSet(b4) <= IdSet(b1);
    PlacedIds(b4, t, p);
    var m' := MakeMove(m, s, t).value.0;
    assert m'.board == b4[t := p] && m'.captured == log';
    assert p.id !in IdSet(b1);
    assert cap.Some? ==> cap.value.id !in IdSet(b2) && cap.value.id != p.id;
  }

  /** Committing a move keeps the match well formed. */
  lemma MakeMoveKeepsWf(m: Match, s: Pos, t: Pos)
    requires PositionExists(s) && s in m.board && PositionExists(t)
    requires Wf(m) && MakeMove(m, s, t).Ok?
    ensures Wf(MakeMove(m, s, t).value.0)
  {
    CommitIds(m, s, t);
    var m' := MakeMove(m, s, t).value.0;
    forall q | q in m'.board
      ensures m'.board[q].id in IdSet(m.board)
    {
      assert m'.board[q].id in IdSet(m'.board);
    }
    forall i | 0 <= i < |m.captured|
      ensures m'.captured[i] == m.captured[i]
    {
    }
  }

  /** Moving whatever stands on one square to another keeps ids distinct,
      adds none and keeps the grid in bounds. */
  lemma RelocateIds(b: Grid, from: Pos, to: Pos, change: CountChange)
    requires IdsDistinct(b) && Relocate(b, from, to, change).Ok?
    ensures var b' := Relocate(b, from, to, change).value;
            IdsDistinct(b') && IdSet(b') <= IdSet(b) && (InBounds(b) ==> InBounds(b'))
  {
    var x := Shift(Some(b[from]), change).value;
    RemovedIds(b, {from});
    PlacedIds(b - {from}, to, x);
  }

  /** The pieces a commit logs: the returned capture, appended once, or
      nothing when no capture is returned. */
  lemma CommitLog(m: Match, s: Pos, t: Pos)
    requires PositionExists(s) && s in m.board && PositionExists(t)
    requires MakeMove(m, s, t).Ok?
    ensures var (c, cap) := MakeMove(m, s, t).value;
            c.captured == m.captured + [cap] || (cap.None? && c.captured == m.captured)
  {
  }

  /** A revert keeps ids distinct and in bounds, and brings back at most the
      returned capture's id. */
  lemma UndoIds(c: Match, s: Pos, t: Pos, cap: Option<Piece>)
    requires PositionExists(s) && PositionExists(t)
    requires IdsDistinct(c.board) && UndoMove(c, s, t, cap).Ok?
    requires cap.Some? ==> cap.value.id !in IdSet(c.board)
    ensures var u := UndoMove(c, s, t, cap).value;
            && IdsDistinct(u.board)
            && IdSet(u.board) <= IdSet(c.board) + (if cap.Some? then {cap.value.id} else {})
            && (InBounds(c.board) ==> InBounds(u.board))
  {
    var p := Unmoved(c.board[t]);
    var b2 := PlacePiece(c.board - {t}, Some(p), s).value;
    if cap.Some? {
      b2 := PlacePiece(b2, cap, t).value;
    }
    ReplaceIds(c.board, s, t, cap);
    var b3 := UncastleRook(b2, p, s, t).value;
    UncastleIds(b2, p, s, t);
    RestoreIds(b3, p, s, t, cap, c.enPassantVulnerable);
    assert UndoMove(c, s, t, cap).value.board == EnPassantRestore(b3, p, s, t, cap, c.enPassantVulnerable).value;
  }

  /** Putting the mover back on `s` and the captured piece back on `t`
      keeps ids distinct and in bounds, adding only the captured id. */
  lemma ReplaceIds(b: Grid, s: Pos, t: Pos, cap: Option<Piece>)
    requires PositionExists(s) && PositionExists(t) && t in b && IdsDistinct(b)
    requires cap.Some? ==> cap.value.id !in IdSet(b)
    requires PlacePiece(b - {t}, Some(Unmoved(b[t])), s).Ok?
    requires cap.Some? ==> PlacePiece(PlacePiece(b - {t}, Some(Unmoved(b[t])), s).value, cap, t).Ok?
    ensures var b1 := PlacePiece(b - {t}, Some(Unmoved(b[t])), s).value;
            var b2 := if cap.Some? then PlacePiece(b1, cap, t).value else b1;
            && IdsDistinct(b2)
            && IdSet(b2) <= IdSet(b) + (if cap.Some? then {cap.value.id} else {})
            && (InBounds(b) ==> InBounds(b2))
  {
    var p := Unmoved(b[t]);
    var b0 := b - {t};
    RemovedIds(b, {t});
    var b1 := b0[s := p];
    PlacedIds(b0, s, p);
    assert PlacePiece(b0, Some(p), s) == Ok(b1);
    if cap.Some? {
      PlacedIds(b1, t, cap.value);
      assert PlacePiece(b1, cap, t) == Ok(b1[t := cap.value]);
    }
  }

  /** Sending a castling rook home keeps ids distinct and in bounds, adding none. */
  lemma UncastleIds(b: Grid, mover: Piece, s: Pos, t: Pos)
    requires IdsDistinct(b) && UncastleRook(b, mover, s, t).Ok?
    ensures var b' := UncastleRook(b, mover, s, t).value;
            IdsDistinct(b') && IdSet(b') <= IdSet(b) && (InBounds(b) ==> InBounds(b'))
  {
    if mover.kind == King && t.1 == s.1 + 2 {
      RelocateIds(b, (s.0, s.1 + 1), (s.0, s.1 + 3), Lower);
    } else if mover.kind == King && t.1 == s.1 - 2 {
      RelocateIds(b, (s.0, s.1 - 1), (s.0, s.1 - 4), Lower);
    }
  }

  /** Moving a reverted en-passant victim to its row keeps ids distinct and
      in bounds, adding none. */
  lemma RestoreIds(b: Grid, mover: Piece, s: Pos, t: Pos, cap: Option<Piece>, vulnerable: Option<nat>)
    requires IdsDistinct(b) && EnPassantRestore(b, mover, s, t, cap, vulnerable).Ok?
    ensures var b' := EnPassantRestore(b, mover, s, t, cap, vulnerable).value;
            IdsDistinct(b') && IdSet(b') <= IdSet(b) && (InBounds(b) ==> InBounds(b'))
  {
    if mover.kind == Pawn && s.1 != t.1 && IsVulnerable(cap, vulnerable) {
      var to := (PawnMoves.EnPassantRow(mover.color), t.1);
      assert t in b;
      RelocateIds(b, t, to, Keep);
    }
  }

  /** Replacing the pending promoted piece keeps the match well formed. */
  lemma ReplacePromotedPieceKeepsWf(m: Match, letter: string)
    requires Wf(m) && ReplacePromotedPiece(m, letter).Ok?
    ensures Wf(ReplacePromotedPiece(m, letter).value.0)
  {
    if letter in {"B", "N", "R", "Q"} {
      var (m', piece) := ReplacePromotedPiece(m, letter).value;
      var pos :| pos in m.board && m.board[pos].id == m.promoted.value.id && m'.board == m.board[pos := piece];
      assert piece.id !in IdSet(m.board - {pos});
      RemovedIds(m.board, {pos});
      PlacedIds(m.board - {pos}, pos, piece);
      assert (m.board - {pos})[pos := piece] == m'.board;
    }
  }

  /** Committing a move and reverting it leaves the capture log as it was,
      up to one trailing empty entry from an en-passant capture of nothing;
      a returned capture came off the board. */
  lemma RevertLog(m: Match, s: Pos, t: Pos)
    requires PositionExists(s) && s in m.board && PositionExists(t)
    requires Wf(m) && MakeMove(m, s, t).Ok?
    requires UndoMove(MakeMove(m, s, t).value.0, s, t, MakeMove(m, s, t).value.1).Ok?
    ensures var (c, cap) := MakeMove(m, s, t).value;
            cap.Some? ==> cap.value.id in IdSet(m.board) && cap.value.id !in IdSet(c.board)
    ensures var u := UndoMove(MakeMove(m, s, t).value.0, s, t, MakeMove(m, s, t).value.1).value;
            u.captured == m.captured || u.captured == m.captured + [None]
  {
    var (c, cap) := MakeMove(m, s, t).value;
    CommitIds(m, s, t);
    CommitLog(m, s, t);
    UndoLog(c, s, t, cap);
    if cap.Some? {
      assert c.captured[|m.captured|] == cap;
      RemoveAppended(m.captured, cap.value);
    }
  }

  /** A revert takes the returned capture out of the log and leaves it
      alone otherwise. */
  lemma UndoLog(c: Match, s: Pos, t: Pos, cap: Option<Piece>)
    requires PositionExists(s) && PositionExists(t) && UndoMove(c, s, t, cap).Ok?
    ensures UndoMove(c, s, t, cap).value.captured
            == if cap.Some? then RemoveFirst(c.captured, cap.value.id) else c.captured
  {
  }

  /** Committing a move and reverting it, as a self-check refusal does,
      keeps the match well formed, whether or not the revert is exact. */
  lemma CommitRevertKeepsWf(m: Match, s: Pos, t: Pos)
    requires PositionExists(s) && s in m.board && PositionExists(t)
    requires Wf(m) && MakeMove(m, s, t).Ok?
    requires UndoMove(MakeMove(m, s, t).value.0, s, t, MakeMove(m, s, t).value.1).Ok?
    ensures Wf(UndoMove(MakeMove(m, s, t).value.0, s, t, MakeMove(m, s, t).value.1).value)
  {
    var (c, cap) := MakeMove(m, s, t).value;
    var u := UndoMove(c, s, t, cap).value;
    CommitIds(m, s, t);
    RevertLog(m, s, t);
    UndoIds(c, s, t, cap);
    assert IdSet(u.board) <= IdSet(m.board);
    forall q | q in u.board
      ensures u.board[q].id in IdSet(m.board)
    {
      assert u.board[q].id in IdSet(u.board);
    }
    forall q | q in m.board
      ensures m.board[q].id < m.nextId
    {
    }
  }

  /** In a well-formed grid the piece search finds a piece where it stands. */
  lemma FoundWhereItStands(b: Grid, t: Pos)
    requires InBounds(b) && IdsDistinct(b) && t in b
    ensures FindPiece(b, b[t].id, 0) == Some(t)
  {
    assert Square(Index(t)) == t;
  }

  /** Promotion keeps the match well formed: a pawn on row 0 or 7 is
      replaced, on its square, by a new unmoved Queen of its colour carrying
      the next id, which becomes the pending promotion; otherwise the board
      is untouched and nothing is pending. */
  lemma PromoteKeepsWf(m: Match, t: Pos)
    requires Wf(m) && t in m.board
    ensures Promote(m, t).Ok?
    ensures var r, p := Promote(m, t).value, m.board[t];
            && Wf(r)
            && r.(board := m.board, promoted := m.promoted, nextId := m.nextId) == m
            && if p.kind == Pawn && (t.0 == 0 || t.0 == 7) then
                 var queen := Piece(m.nextId, Queen, p.color, 0);
                 r.board == m.board[t := queen] && r.promoted == Some(queen) && r.nextId == m.nextId + 1
               else
                 r.board == m.board && r.promoted.None? && r.nextId == m.nextId
  {
    var p := m.board[t];
    if p.kind == Pawn && (t.0 == 0 || t.0 == 7) {
      var pending := m.(promoted := Some(p));
      FoundWhereItStands(m.board, t);
      var queen := Piece(m.nextId, Queen, p.color, 0);
      assert ReplacePromotedPiece(pending, "Q")
             == Ok((pending.(board := m.board[t := queen], nextId := m.nextId + 1), queen));
      ReplacePromotedPieceKeepsWf(pending, "Q");
    }
  }

  /** The starting position is well formed. */
  lemma InitialWf()
    ensures Wf(InitialSetup())
  {
    var b := InitialSetup().board;
    forall p, q | p in b && q in b && b[p].id == b[q].id
      ensures p == q
    {
      assert b[p].id == Index(p) && b[q].id == Index(q);
      assert Square(Index(p)) == p && Square(Index(q)) == q;
    }
  }

  /** Each side starts with exactly one king, on column 4 of its home rank. */
  lemma InitialKings()
    ensures KingSquare(InitialSetup().board, White) == Some((7, 4))
    ensures KingSquare(InitialSetup().board, Black) == Some((0, 4))
  {
    var b := InitialSetup().board;
    assert b[(7, 4)] == Piece(60, King, White, 0);
    assert b[(0, 4)] == Piece(4, King, Black, 0);
    forall p | p in b && b[p].kind == King
      ensures p == (7, 4) || p == (0, 4)
    {
      OnlyKingColumn(p.1);
    }
  }

  /** The only home-rank column holding a king. */
  lemma OnlyKingColumn(col: int)
    requires 0 <= col < 8
    ensures HomeRankKind(col) == King <==> col == 4
  {
    var row := [Rook, Knight, Bishop, Queen, King, Bishop, Knight, Rook];
    assert HomeRankKind(col) == row[col];
    assert row[0] != King && row[1] != King && row[2] != King && row[3] != King;
    assert row[5] != King && row[6] != King && row[7] != King;
  }
}
