/** Move generation for bishops: four diagonal rays. */
module BishopMoves {
  import opened Pieces
  import opened Board

  datatype Diagonal = UpLeft | UpRight | DownLeft | DownRight

  /** The square `k` steps from `from` along `d` (up is towards row 0). */
  function Step(from: Pos, d: Diagonal, k: int): Pos {
    var row := if d == UpLeft || d == UpRight then from.0 - k else from.0 + k;
    var col := if d == UpLeft || d == DownLeft then from.1 - k else from.1 + k;
    (row, col)
  }

  /** No piece stands on steps `lo` .. `hi - 1` of the ray. */
  predicate Clear(b: Grid, from: Pos, d: Diagonal, lo: int, hi: int) {
    forall j :: lo <= j < hi ==> Step(from, d, j) !in b
  }

  /** A piece of `color` may end its move on `q`: it is empty or holds an opponent. */
  predicate Enterable(b: Grid, q: Pos, color: Color) {
    q !in b || IsThereOpponentPiece(b, q, color)
  }

  /** The squares marked along `d`, starting at step `k`: every empty square
      up to the first occupied one, and that one too when it holds an
      opponent. */
  function Ray(b: Grid, from: Pos, d: Diagonal, color: Color, k: int): (r: set<Pos>)
    requires PositionExists(from) && k >= 1
    ensures forall q :: q in r ==> PositionExists(q)
    decreases 8 - k
  {
    var q := Step(from, d, k);
    if !PositionExists(q) then {}
    else if !ThereIsAPiece(b, q) then {q} + Ray(b, from, d, color, k + 1)
    else if IsThereOpponentPiece(b, q, color) then {q}
    else {}
  }

  /** The bishop's mask: the union of its four rays. It reads the bishop's
      square, its colour and the board, never its move count. */
  function BishopMoves(b: Grid, pos: Pos, color: Color): (r: set<Pos>)
    requires PositionExists(pos)
    ensures forall q :: q in r ==> PositionExists(q)
  {
    Ray(b, pos, UpLeft, color, 1) + Ray(b, pos, UpRight, color, 1)
    + Ray(b, pos, DownLeft, color, 1) + Ray(b, pos, DownRight, color, 1)
  }

  /** `q` lies on a diagonal through `from` and is not `from` itself. */
  predicate OnDiagonal(from: Pos, q: Pos) {
    q != from && (q.0 - from.0 == q.1 - from.1 || q.0 - from.0 == from.1 - q.1)
  }

  /** The diagonal leading from `from` to `q`. */
  function DiagonalTo(from: Pos, q: Pos): Diagonal {
    if q.0 < from.0 then (if q.1 < from.1 then UpLeft else UpRight)
    else (if q.1 < from.1 then DownLeft else DownRight)
  }

  /** The number of steps from `from` to `q`. */
  function Distance(from: Pos, q: Pos): int {
    if q.0 < from.0 then from.0 - q.0 else q.0 - from.0
  }

  /** Reference definition of the bishop's reach: `q` is on the board, on a
      diagonal through the bishop, every square strictly between is empty,
      and `q` is empty or holds an opponent. */
  predicate BishopReaches(b: Grid, from: Pos, color: Color, q: Pos) {
    && PositionExists(q)
    && OnDiagonal(from, q)
    && Clear(b, from, DiagonalTo(from, q), 1, Distance(from, q))
    && Enterable(b, q, color)
  }

  /** Steps between two on-board steps of a ray are on the board too. */
  lemma StepsBetweenExist(from: Pos, d: Diagonal, j: int, n: int)
    requires PositionExists(from) && 1 <= j <= n && PositionExists(Step(from, d, n))
    ensures PositionExists(Step(from, d, j))
  {
  }

  /** Step `n >= k` of the ray is `q`, on the board, with steps `k` .. `n - 1`
      empty and `q` enterable. */
  predicate RayHit(b: Grid, from: Pos, d: Diagonal, color: Color, k: int, n: int, q: Pos) {
    k <= n && q == Step(from, d, n) && PositionExists(q) && Clear(b, from, d, k, n) && Enterable(b, q, color)
  }

  /** A ray from step `k` marks exactly the squares `n >= k` steps out whose
      earlier steps (from `k`) are empty and which are enterable. */
  lemma {:induction false} RayExactly(b: Grid, from: Pos, d: Diagonal, color: Color, k: int, q: Pos)
    requires PositionExists(from) && k >= 1
    ensures q in Ray(b, from, d, color, k) <==> exists n :: RayHit(b, from, d, color, k, n, q)
    decreases 8 - k
  {
    var s := Step(from, d, k);
    if !PositionExists(s) {
      if exists n :: RayHit(b, from, d, color, k, n, q) {
        var n :| RayHit(b, from, d, color, k, n, q);
        StepsBetweenExist(from, d, k, n);
        assert false;
      }
    } else if s !in b {
      RayExactly(b, from, d, color, k + 1, q);
      RayThroughEmpty(b, from, d, color, k, k + 1, q);
    } else {
      RayAtBlocker(b, from, d, color, k, q);
    }
  }

  /** The inductive step of `RayExactly` across an empty square. */
  lemma RayThroughEmpty(b: Grid, from: Pos, d: Diagonal, color: Color, k: int, k1: int, q: Pos)
    requires PositionExists(from) && k >= 1 && k1 == k + 1
    requires PositionExists(Step(from, d, k)) && Step(from, d, k) !in b
    requires q in Ray(b, from, d, color, k1) <==> exists n :: RayHit(b, from, d, color, k1, n, q)
    ensures q in Ray(b, from, d, color, k) <==> exists n :: RayHit(b, from, d, color, k, n, q)
  {
    var s := Step(from, d, k);
    assert Ray(b, from, d, color, k) == {s} + Ray(b, from, d, color, k1);
    if q in Ray(b, from, d, color, k1) {
      var n :| RayHit(b, from, d, color, k1, n, q);
      HitExtends(b, from, d, color, k, n, q);
    }
    if q == s {
      assert RayHit(b, from, d, color, k, k, q);
    }
    if exists n :: RayHit(b, from, d, color, k, n, q) {
      var n :| RayHit(b, from, d, color, k, n, q);
      if n > k {
        HitShrinks(b, from, d, color, k, n, q);
      }
    }
  }

  /** A hit from step `k + 1` is a hit from step `k` when step `k` is empty. */
  lemma HitExtends(b: Grid, from: Pos, d: Diagonal, color: Color, k: int, n: int, q: Pos)
    requires Step(from, d, k) !in b && RayHit(b, from, d, color, k + 1, n, q)
    ensures RayHit(b, from, d, color, k, n, q)
  {
  }

  /** A hit from step `k` beyond step `k` is a hit from step `k + 1`. */
  lemma HitShrinks(b: Grid, from: Pos, d: Diagonal, color: Color, k: int, n: int, q: Pos)
    requires RayHit(b, from, d, color, k, n, q) && n > k
    ensures RayHit(b, from, d, color, k + 1, n, q)
  {
  }

  /** The base case of `RayExactly` at an occupied square. */
  lemma RayAtBlocker(b: Grid, from: Pos, d: Diagonal, color: Color, k: int, q: Pos)
    requires PositionExists(from) && k >= 1
    requires PositionExists(Step(from, d, k)) && Step(from, d, k) in b
    ensures q in Ray(b, from, d, color, k) <==> exists n :: RayHit(b, from, d, color, k, n, q)
  {
    var s := Step(from, d, k);
    if q == s && Enterable(b, q, color) {
      assert RayHit(b, from, d, color, k, k, q);
    }
    if exists n :: RayHit(b, from, d, color, k, n, q) {
      var n :| RayHit(b, from, d, color, k, n, q);
      assert n > k ==> Step(from, d, k) !in b;
    }
  }

  /** Stepping `n >= 1` squares along `d` lands on a diagonal square whose
      direction and distance from the start are `d` and `n`. */
  lemma StepGeometry(from: Pos, d: Diagonal, n: int)
    requires n >= 1
    ensures OnDiagonal(from, Step(from, d, n))
    ensures DiagonalTo(from, Step(from, d, n)) == d
    ensures Distance(from, Step(from, d, n)) == n
  {
  }

  /** One ray, restated against the reference definition. */
  lemma RayReaches(b: Grid, pos: Pos, d: Diagonal, color: Color, q: Pos)
    requires PositionExists(pos)
    ensures q in Ray(b, pos, d, color, 1) <==>
              BishopReaches(b, pos, color, q) && DiagonalTo(pos, q) == d
  {
    RayExactly(b, pos, d, color, 1, q);
    if q in Ray(b, pos, d, color, 1) {
      var n :| RayHit(b, pos, d, color, 1, n, q);
      StepReaches(b, pos, d, color, n);
    }
    if BishopReaches(b, pos, color, q) && DiagonalTo(pos, q) == d {
      ReachedByStep(b, pos, d, color, q);
      assert RayHit(b, pos, d, color, 1, Distance(pos, q), q);
    }
  }

  /** A clear, enterable, on-board step of a ray is reached by the bishop
      along that ray. */
  lemma StepReaches(b: Grid, pos: Pos, d: Diagonal, color: Color, n: int)
    requires PositionExists(pos) && n >= 1 && PositionExists(Step(pos, d, n))
    requires Clear(b, pos, d, 1, n) && Enterable(b, Step(pos, d, n), color)
    ensures BishopReaches(b, pos, color, Step(pos, d, n)) && DiagonalTo(pos, Step(pos, d, n)) == d
  {
    StepGeometry(pos, d, n);
  }

  /** A square the bishop reaches along `d` is the step of `d` at its
      distance, with a clear path and an enterable end. */
  lemma ReachedByStep(b: Grid, pos: Pos, d: Diagonal, color: Color, q: Pos)
    requires PositionExists(pos)
    requires BishopReaches(b, pos, color, q) && DiagonalTo(pos, q) == d
    ensures var n := Distance(pos, q);
            && 1 <= n && q == Step(pos, d, n) && PositionExists(q)
            && Clear(b, pos, d, 1, n) && Enterable(b, q, color)
  {
  }

  /** The bishop marks `q` iff the reference definition says it reaches `q`. */
  lemma BishopMovesExactly(b: Grid, pos: Pos, color: Color, q: Pos)
    requires PositionExists(pos)
    ensures q in BishopMoves(b, pos, color) <==> BishopReaches(b, pos, color, q)
  {
    RayReaches(b, pos, UpLeft, color, q);
    RayReaches(b, pos, UpRight, color, q);
    RayReaches(b, pos, DownLeft, color, q);
    RayReaches(b, pos, DownRight, color, q);
  }

  /** Every marked square lies on a diagonal through the bishop; the
      bishop's own square is never marked. */
  lemma MarksOnlyDiagonals(b: Grid, pos: Pos, color: Color, q: Pos)
    requires PositionExists(pos)
    requires q in BishopMoves(b, pos, color)
    ensures PositionExists(q) && OnDiagonal(pos, q) && q != pos
  {
    BishopMovesExactly(b, pos, color, q);
  }

  /** Every square strictly between the bishop and a marked square is empty. */
  lemma MarkedPathIsClear(b: Grid, pos: Pos, color: Color, q: Pos, j: int)
    requires PositionExists(pos)
    requires q in BishopMoves(b, pos, color)
    requires 1 <= j < Distance(pos, q)
    ensures Step(pos, DiagonalTo(pos, q), j) !in b
  {
    BishopMovesExactly(b, pos, color, q);
  }

  /** A marked square is empty or holds an opponent, never a piece of the
      bishop's own colour. */
  lemma MarkedNeverFriendly(b: Grid, pos: Pos, color: Color, q: Pos)
    requires PositionExists(pos)
    requires q in BishopMoves(b, pos, color)
    ensures q in b ==> b[q].color != color
  {
    BishopMovesExactly(b, pos, color, q);
  }

  /** Along a ray, an on-board square whose predecessors are all empty is
      marked when empty, and marked iff it holds an opponent when occupied. */
  lemma MarksUpToFirstBlocker(b: Grid, pos: Pos, color: Color, d: Diagonal, n: int)
    requires PositionExists(pos) && n >= 1
    requires PositionExists(Step(pos, d, n)) && Clear(b, pos, d, 1, n)
    ensures Step(pos, d, n) !in b ==> Step(pos, d, n) in BishopMoves(b, pos, color)
    ensures Step(pos, d, n) in b ==>
              (Step(pos, d, n) in BishopMoves(b, pos, color) <==> b[Step(pos, d, n)].color != color)
  {
    StepGeometry(pos, d, n);
    BishopMovesExactly(b, pos, color, Step(pos, d, n));
  }

  /** Nothing beyond the first occupied square of a ray is marked. */
  lemma NothingBeyondBlocker(b: Grid, pos: Pos, color: Color, d: Diagonal, n: int, k: int)
    requires PositionExists(pos) && 1 <= n < k
    requires Step(pos, d, n) in b
    ensures Step(pos, d, k) !in BishopMoves(b, pos, color)
  {
    StepGeometry(pos, d, k);
    BishopMovesExactly(b, pos, color, Step(pos, d, k));
  }

  /** The mask depends only on which squares are occupied and by which
      colour: the kinds, ids and move counts of the pieces do not matter. */
  lemma OccupancyDetermines(b1: Grid, b2: Grid, pos: Pos, color: Color)
    requires PositionExists(pos)
    requires b1.Keys == b2.Keys
    requires forall p :: p in b1 ==> b1[p].color == b2[p].color
    ensures BishopMoves(b1, pos, color) == BishopMoves(b2, pos, color)
  {
    forall q
      ensures q in BishopMoves(b1, pos, color) <==> q in BishopMoves(b2, pos, color)
    {
      BishopMovesExactly(b1, pos, color, q);
      BishopMovesExactly(b2, pos, color, q);
    }
  }
}
