/** Commit followed by revert: when `UndoMove` is the exact inverse of
    `MakeMove`, and the en-passant cases where it is not. */
module RoundTrip {
  import opened Outcomes
  import opened Pieces
  import opened Board
  import opened ChessMatch
  import PawnMoves

  /** No piece on the board appears in the capture log. */
  predicate LogFresh(m: Match) {
    forall p, i :: p in m.board && 0 <= i < |m.captured| && m.captured[i].Some? ==>
                     m.captured[i].value.id != m.board[p].id
  }

  /** The move `s` -> `t` is one `UndoMove` puts back where it found it. Only
      a pawn moving diagonally can fail this: when it captures the
      vulnerable piece on `t`, that piece must already stand on the
      en-passant row; when `t` is empty, the square behind `t` must hold the
      vulnerable piece on the en-passant row. */
  predicate Restorable(m: Match, s: Pos, t: Pos)
    requires s in m.board
  {
    var p := m.board[s];
    var row := PawnMoves.EnPassantRow(p.color);
    var v := EnPassantVictim(p.color, t);
    p.kind == Pawn && s.1 != t.1 ==>
      if t in m.board then m.enPassantVulnerable != Some(m.board[t].id) || t.0 == row
      else v in m.board && m.enPassantVulnerable == Some(m.board[v].id) && v.0 == row
  }

  /** Removing the entry just appended, when nothing earlier shares its id,
      gives back the log. */
  lemma {:induction false} RemoveAppended(log: seq<Option<Piece>>, x: Piece)
    requires forall i :: 0 <= i < |log| && log[i].Some? ==> log[i].value.id != x.id
    ensures RemoveFirst(log + [Some(x)], x.id) == log
  {
    if |log| > 0 {
      assert (log + [Some(x)])[1..] == log[1..] + [Some(x)];
      RemoveAppended(log[1..], x);
    }
  }

  /** A move that is neither castling nor a diagonal pawn move is undone exactly. */
  lemma PlainRoundTrip(m: Match, s: Pos, t: Pos)
    requires PositionExists(s) && s in m.board && PositionExists(t)
    requires LogFresh(m)
    requires !(m.board[s].kind == King && (t.1 == s.1 + 2 || t.1 == s.1 - 2))
    requires !(m.board[s].kind == Pawn && s.1 != t.1)
    ensures MakeMove(m, s, t).Ok?
    ensures UndoMove(MakeMove(m, s, t).value.0, s, t, MakeMove(m, s, t).value.1) == Ok(m)
  {
    var p := Moved(m.board[s]);
    var cap := PieceAt(m.board - {s}, t);
    var b := ((m.board - {s}) - {t})[t := p];
    assert MakeMove(m, s, t).value.0.board == b;
    assert MakeMove(m, s, t).value.1 == cap;
    if cap.Some? {
      RemoveAppended(m.captured, cap.value);
      assert (b - {t})[s := m.board[s]][t := cap.value] == m.board;
    } else {
      assert (b - {t})[s := m.board[s]] == m.board;
    }
  }

  /** An ordinary commit, neither castling nor a diagonal pawn move onto an
      empty square: the mover, its count raised, replaces whatever stood on
      the target, which is returned and logged; every other square keeps
      its occupant. */
  lemma PlainCommitted(m: Match, s: Pos, t: Pos)
    requires PositionExists(s) && s in m.board && PositionExists(t)
    requires !(m.board[s].kind == King && (t.1 == s.1 + 2 || t.1 == s.1 - 2))
    requires !(m.board[s].kind == Pawn && s.1 != t.1 && t !in m.board)
    ensures MakeMove(m, s, t).Ok?
    ensures var (c, cap) := MakeMove(m, s, t).value;
            && c.board == (m.board - {s})[t := Moved(m.board[s])]
            && (forall q :: q != s && q != t ==> PieceAt(c.board, q) == PieceAt(m.board, q))
            && cap == (if s != t then PieceAt(m.board, t) else None)
            && c.captured == (if cap.Some? then m.captured + [cap] else m.captured)
  {
    var p := Moved(m.board[s]);
    var b1 := m.board - {s};
    var cap := PieceAt(b1, t);
    var b2 := b1 - {t};
    assert CastleRook(b2, p, s, t) == Ok(b2);
    assert b2[t := p] == (m.board - {s})[t := p];
  }

  /** Lifting the piece on `from` and placing it, its count changed as
      `change` says, on an empty `to`. */
  lemma Relocated(b: Grid, from: Pos, to: Pos, change: CountChange)
    requires PositionExists(from) && PositionExists(to) && from in b && to !in b
    ensures Relocate(b, from, to, change) == Ok((b - {from})[to := Shift(Some(b[from]), change).value])
  {
  }

  /** The squares a castling king move `s` -> `t` relocates a rook between. */
  function RookHome(s: Pos, t: Pos): Pos {
    if t.1 == s.1 + 2 then (s.0, s.1 + 3) else (s.0, s.1 - 4)
  }

  function RookNext(s: Pos, t: Pos): Pos {
    if t.1 == s.1 + 2 then (s.0, s.1 + 1) else (s.0, s.1 - 1)
  }

  /** A committed castling move: the king lands on `t`, the rook moves from
      its home square next to the king's source, each with its count raised. */
  lemma CastlingCommitted(m: Match, s: Pos, t: Pos)
    requires PositionExists(s) && s in m.board && PositionExists(t)
    requires m.board[s].kind == King && (t.1 == s.1 + 2 || t.1 == s.1 - 2)
    requires MakeMove(m, s, t).Ok?
    ensures var home, next := RookHome(s, t), RookNext(s, t);
            var b2 := (m.board - {s}) - {t};
            && PositionExists(home) && home in b2 && PositionExists(next) && next !in b2
            && MakeMove(m, s, t).value.1 == PieceAt(m.board, t)
            && MakeMove(m, s, t).value.0.board == (b2 - {home})[next := Moved(b2[home])][t := Moved(m.board[s])]
            && MakeMove(m, s, t).value.0.captured ==
                 if t in m.board then m.captured + [Some(m.board[t])] else m.captured
  {
    var p := Moved(m.board[s]);
    var b2 := (m.board - {s}) - {t};
    var home, next := RookHome(s, t), RookNext(s, t);
    assert CastleRook(b2, p, s, t).Ok?;
    Relocated(b2, home, next, Raise);
  }

  /** On grids: lifting the king and the rook, putting them on their castled
      squares, and putting them back (with whatever stood on `t`) restores
      the grid. */
  lemma CastleGridRestored(b: Grid, s: Pos, t: Pos, home: Pos, next: Pos)
    requires s in b && s != t && home in b - {s} - {t} && next !in b && next != t
    ensures var rook := b[home];
            var u1 := ((((b - {s}) - {t}) - {home})[next := Moved(rook)])[s := b[s]];
            var u2 := if t in b then u1[t := b[t]] else u1;
            (u2 - {next})[home := rook] == b
  {
  }

  /** Reverting the committed form of a castling move gives back the match
      it was committed from. */
  lemma CastlingReverted(m: Match, c: Match, s: Pos, t: Pos)
    requires PositionExists(s) && s in m.board && PositionExists(t)
    requires LogFresh(m)
    requires m.board[s].kind == King && (t.1 == s.1 + 2 || t.1 == s.1 - 2)
    requires var home, next := RookHome(s, t), RookNext(s, t);
             var b2 := (m.board - {s}) - {t};
             && PositionExists(home) && home in b2 && PositionExists(next) && next !in b2
             && c == m.(board := (b2 - {home})[next := Moved(b2[home])][t := Moved(m.board[s])],
                        captured := if t in m.board then m.captured + [Some(m.board[t])] else m.captured)
    ensures UndoMove(c, s, t, PieceAt(m.board, t)) == Ok(m)
  {
    var p := Moved(m.board[s]);
    var cap := PieceAt(m.board, t);
    var b2 := (m.board - {s}) - {t};
    var home, next := RookHome(s, t), RookNext(s, t);
    var rook := b2[home];
    var moved := Moved(rook);
    var b3 := (b2 - {home})[next := moved];
    assert next != t && t !in b3;
    assert c.board - {t} == b3;
    var u1 := b3[s := m.board[s]];
    assert PlacePiece(b3, Some(Unmoved(p)), s) == Ok(u1);
    var u2 := if cap.Some? then u1[t := cap.value] else u1;
    assert (if cap.Some? then PlacePiece(u1, cap, t) else Ok(u1)) == Ok(u2);
    assert next in u2 && u2[next] == moved && home !in u2;
    Relocated(u2, next, home, Lower);
    assert UncastleRook(u2, Unmoved(p), s, t) == Ok((u2 - {next})[home := rook]);
    CastleGridRestored(m.board, s, t, home, next);
    if cap.Some? {
      RemoveAppended(m.captured, cap.value);
    }
  }

  /** A castling move is undone exactly: the rook returns home with its
      count restored. */
  lemma CastlingRoundTrip(m: Match, s: Pos, t: Pos)
    requires PositionExists(s) && s in m.board && PositionExists(t)
    requires LogFresh(m)
    requires m.board[s].kind == King && (t.1 == s.1 + 2 || t.1 == s.1 - 2)
    requires MakeMove(m, s, t).Ok?
    ensures UndoMove(MakeMove(m, s, t).value.0, s, t, MakeMove(m, s, t).value.1) == Ok(m)
  {
    CastlingCommitted(m, s, t);
    CastlingReverted(m, MakeMove(m, s, t).value.0, s, t);
  }

  /** A diagonal pawn capture of the piece on `t` is undone exactly when it
      is restorable: the captured piece was not the vulnerable one, or it
      stood on the en-passant row. */
  lemma PawnCaptureRoundTrip(m: Match, s: Pos, t: Pos)
    requires PositionExists(s) && s in m.board && PositionExists(t) && t in m.board
    requires LogFresh(m)
    requires m.board[s].kind == Pawn && s.1 != t.1
    requires Restorable(m, s, t)
    ensures MakeMove(m, s, t).Ok?
    ensures UndoMove(MakeMove(m, s, t).value.0, s, t, MakeMove(m, s, t).value.1) == Ok(m)
  {
    var p := Moved(m.board[s]);
    var b2 := (m.board - {s}) - {t};
    var c := m.board[t];
    var m1 := m.(board := b2[t := p], captured := m.captured + [Some(c)]);
    assert MakeMove(m, s, t) == Ok((m1, Some(c)));
    var u2 := (b2[t := p] - {t})[s := m.board[s]][t := c];
    assert u2 == m.board;
    RemoveAppended(m.captured, c);
    if IsVulnerable(Some(c), m.enPassantVulnerable) {
      assert (PawnMoves.EnPassantRow(p.color), t.1) == t;
      assert (u2 - {t})[t := c] == u2;
      assert EnPassantRestore(u2, Unmoved(p), s, t, Some(c), m.enPassantVulnerable) == Ok(u2);
    }
  }

  /** A diagonal pawn move onto an empty square commits as an en-passant
      capture: the square behind the target is emptied and its occupant,
      or nothing, is logged and reported as captured. */
  lemma EnPassantCommitted(m: Match, s: Pos, t: Pos)
    requires PositionExists(s) && s in m.board && PositionExists(t) && t !in m.board
    requires m.board[s].kind == Pawn && s.1 != t.1
    requires PositionExists(EnPassantVictim(m.board[s].color, t))
    ensures var v := EnPassantVictim(m.board[s].color, t);
            MakeMove(m, s, t) ==
              Ok((m.(board := ((m.board - {s}) - {v})[t := Moved(m.board[s])],
                     captured := m.captured + [PieceAt(m.board, v)]),
                  PieceAt(m.board, v)))
  {
    var p := Moved(m.board[s]);
    var v := EnPassantVictim(p.color, t);
    var b2 := (m.board - {s}) - {t};
    assert b2 == m.board - {s};
    assert EnPassantCapture(b2, p, s, t, None, m.captured)
           == Ok((b2 - {v}, PieceAt(m.board, v), m.captured + [PieceAt(m.board, v)]));
  }

  /** A diagonal pawn move onto an empty square is undone exactly when it is
      restorable: the square behind the target held the vulnerable piece,
      standing on the en-passant row. */
  lemma EnPassantRoundTrip(m: Match, s: Pos, t: Pos)
    requires PositionExists(s) && s in m.board && PositionExists(t) && t !in m.board
    requires LogFresh(m)
    requires m.board[s].kind == Pawn && s.1 != t.1
    requires Restorable(m, s, t)
    ensures MakeMove(m, s, t).Ok?
    ensures UndoMove(MakeMove(m, s, t).value.0, s, t, MakeMove(m, s, t).value.1) == Ok(m)
  {
    var v := EnPassantVictim(m.board[s].color, t);
    assert PositionExists(v) && v in m.board;
    EnPassantCommitted(m, s, t);
    var c := m.board[v];
    var m1 := m.(board := ((m.board - {s}) - {v})[t := Moved(m.board[s])], captured := m.captured + [Some(c)]);
    EnPassantReverted(m, m1, s, t);
  }

  /** Reverting the committed en-passant capture puts the victim back
      beside the mover's square, since its row is the en-passant row. */
  lemma EnPassantReverted(m: Match, m1: Match, s: Pos, t: Pos)
    requires PositionExists(s) && s in m.board && PositionExists(t) && t !in m.board
    requires LogFresh(m)
    requires m.board[s].kind == Pawn && s.1 != t.1
    requires Restorable(m, s, t)
    requires var v := EnPassantVictim(m.board[s].color, t);
             && v in m.board
             && m1 == m.(board := ((m.board - {s}) - {v})[t := Moved(m.board[s])],
                         captured := m.captured + [Some(m.board[v])])
    ensures UndoMove(m1, s, t, Some(m.board[EnPassantVictim(m.board[s].color, t)])) == Ok(m)
  {
    var p := Moved(m.board[s]);
    var v := EnPassantVictim(p.color, t);
    var c := m.board[v];
    var u1 := (m1.board - {t})[s := m.board[s]];
    var u2 := u1[t := c];
    assert PlacePiece(m1.board - {t}, Some(Unmoved(p)), s) == Ok(u1);
    assert PlacePiece(u1, Some(c), t) == Ok(u2);
    assert UncastleRook(u2, Unmoved(p), s, t) == Ok(u2);
    RemoveAppended(m.captured, c);
    assert (PawnMoves.EnPassantRow(p.color), t.1) == v;
    assert v != s && v != t && v !in u2 && t in u2;
    Relocated(u2, t, v, Keep);
    assert EnPassantRestore(u2, Unmoved(p), s, t, Some(c), m.enPassantVulnerable) == Ok((u2 - {t})[v := c]);
    assert (u2 - {t})[v := c] == m.board;
  }

  /** Round trip: reverting a committed move restores the whole match (grid,
      every move count, the capture log and all other fields) whenever the
      move is restorable and no piece on the board is in the log. */
  lemma MakeUndoRoundTrip(m: Match, s: Pos, t: Pos)
    requires PositionExists(s) && s in m.board && PositionExists(t)
    requires LogFresh(m)
    requires MakeMove(m, s, t).Ok?
    requires Restorable(m, s, t)
    ensures UndoMove(MakeMove(m, s, t).value.0, s, t, MakeMove(m, s, t).value.1) == Ok(m)
  {
    if m.board[s].kind == King && (t.1 == s.1 + 2 || t.1 == s.1 - 2) {
      CastlingRoundTrip(m, s, t);
    } else if m.board[s].kind == Pawn && s.1 != t.1 && t in m.board {
      PawnCaptureRoundTrip(m, s, t);
    } else if m.board[s].kind == Pawn && s.1 != t.1 {
      EnPassantRoundTrip(m, s, t);
    } else {
      PlainRoundTrip(m, s, t);
    }
  }

  /** Conversely, a committed move that is not restorable is never undone
      exactly: the capture is left on the wrong square, a missing en-passant
      victim stays in the log as "nothing", or the revert faults. */
  lemma NotRestorableLeavesTrace(m: Match, s: Pos, t: Pos)
    requires PositionExists(s) && s in m.board && PositionExists(t)
    requires MakeMove(m, s, t).Ok?
    requires !Restorable(m, s, t)
    ensures UndoMove(MakeMove(m, s, t).value.0, s, t, MakeMove(m, s, t).value.1) != Ok(m)
  {
    var p := Moved(m.board[s]);
    var b2 := (m.board - {s}) - {t};
    var row := PawnMoves.EnPassantRow(p.color);
    var square := (row, t.1);
    var r := UndoMove(MakeMove(m, s, t).value.0, s, t, MakeMove(m, s, t).value.1);
    if t in m.board {
      var c := m.board[t];
      var m1 := m.(board := b2[t := p], captured := m.captured + [Some(c)]);
      assert MakeMove(m, s, t) == Ok((m1, Some(c)));
      var u2 := (b2[t := p] - {t})[s := m.board[s]][t := c];
      assert IsVulnerable(Some(c), m.enPassantVulnerable) && square != t;
      if r.Ok? {
        assert square !in u2 - {t};
        assert r.value.board == (u2 - {t})[square := c];
        assert t !in r.value.board;
      }
    } else {
      var v := EnPassantVictim(p.color, t);
      assert PositionExists(v);
      if v !in m.board {
        assert EnPassantCapture(b2, p, s, t, None, m.captured) == Ok((b2 - {v}, None, m.captured + [None]));
        if r.Ok? {
          assert |r.value.captured| == |m.captured| + 1;
        }
      } else {
        var c := m.board[v];
        assert EnPassantCapture(b2, p, s, t, None, m.captured) == Ok((b2 - {v}, Some(c), m.captured + [Some(c)]));
        var m1 := m.(board := (b2 - {v})[t := p], captured := m.captured + [Some(c)]);
        assert MakeMove(m, s, t) == Ok((m1, Some(c)));
        var u2 := ((b2 - {v})[t := p] - {t})[s := m.board[s]][t := c];
        if r.Ok? {
          if IsVulnerable(Some(c), m.enPassantVulnerable) {
            assert square != v;
            assert r.value.board == (u2 - {t})[square := c];
            assert v !in r.value.board;
          } else {
            assert r.value.board == u2;
            assert t in r.value.board;
          }
        }
      }
    }
  }
}
