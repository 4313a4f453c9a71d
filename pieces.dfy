/**
 * Chess pieces, the starting layout and move validation.
 *
 * A square is an (x, y) pair: x counts rows from White's back rank (White
 * starts on rows 0 and 1, Black on rows 6 and 7) and y counts columns.
 * The board snapshot handed to move validation is a sequence of pieces, in the
 * order the game's piece query yields them.
 */
module Pieces {

  datatype Option<+T> = None | Some(value: T)

  datatype PieceColor = White | Black

  datatype PieceType = King | Queen | Bishop | Knight | Rook | Pawn

  /** A coordinate of one of the 64 squares; every square and every piece in play lies in 0..7. */
  type Coord = n: int | 0 <= n < 8

  /** The value of an `as u8` cast. */
  type Byte = n: int | 0 <= n < 256

  datatype Piece = Piece(color: PieceColor, pieceType: PieceType, x: Coord, y: Coord)
  {
    /** The piece stands on (px, py). */
    predicate At(px: int, py: int) {
      x == px && y == py
    }
  }

  function IntAbs(v: int): int {
    if v < 0 then -v else v
  }

  function Signum(v: int): int {
    if v < 0 then -1 else if v == 0 then 0 else 1
  }

  /** The cast `v as u8` of an i8 value: two's complement wrap-around. */
  function AsU8(v: int): (b: Byte)
    requires -128 <= v < 128
    ensures 0 <= v ==> b == v
    ensures v < 0 ==> b == v + 256
  {
    v % 256
  }

  /** A wrapped value that started off the board (but within a few steps of it) never names a board square. */
  lemma AsU8OffBoard(v: int, c: Coord)
    requires -8 <= v < 16
    ensures AsU8(v) == c <==> v == c
  {
  }

  // ---------------------------------------------------------------------------
  // Manhatan: signed coordinate delta
  // ---------------------------------------------------------------------------

  /** The signed delta of two squares; the source keeps both components in an i8. */
  datatype Manhatan = Manhatan(dx: int, dy: int)
  {
    /** The delta (x1 - x2, y1 - y2); on the board both components fit in -7..7, so the i8 never overflows. */
    static function From(x1: Coord, y1: Coord, x2: Coord, y2: Coord): (d: Manhatan)
      ensures -7 <= d.dx <= 7 && -7 <= d.dy <= 7
      ensures x2 + d.dx == x1 && y2 + d.dy == y1
    {
      Manhatan(x1 - x2, y1 - y2)
    }

    function Abs(): (a: Manhatan)
      ensures a.dx >= 0 && a.dy >= 0
      ensures (a.dx == dx || a.dx == -dx) && (a.dy == dy || a.dy == -dy)
    {
      Manhatan(IntAbs(dx), IntAbs(dy))
    }

    function Max(): (m: int)
      ensures m >= dx && m >= dy && (m == dx || m == dy)
    {
      if dx >= dy then dx else dy
    }

    function Min(): (m: int)
      ensures m <= dx && m <= dy && (m == dx || m == dy)
    {
      if dx <= dy then dx else dy
    }

    /** Horizontal or vertical: one component is zero. */
    function Straight(): (b: bool)
      ensures b <==> dx == 0 || dy == 0
    {
      Abs().Min() == 0
    }

    /** Diagonal: both components have the same magnitude (the zero delta included). */
    function Diagonal(): (b: bool)
      ensures b <==> dx == dy || dx == -dy
    {
      var a := Abs();
      a.dx == a.dy
    }
  }

  // ---------------------------------------------------------------------------
  // Occupancy
  // ---------------------------------------------------------------------------

  /** Index k holds the first piece of `pieces` standing on (px, py). */
  ghost predicate IsFirstAt(pieces: seq<Piece>, k: int, px: int, py: int) {
    0 <= k < |pieces| && pieces[k].At(px, py) && forall j :: 0 <= j < k ==> !pieces[j].At(px, py)
  }

  lemma {:induction false} FirstAtShift(pieces: seq<Piece>, px: int, py: int)
    requires pieces != [] && !pieces[0].At(px, py)
    ensures forall k :: IsFirstAt(pieces, k, px, py) ==> IsFirstAt(pieces[1..], k - 1, px, py)
  {
    forall k | IsFirstAt(pieces, k, px, py)
      ensures IsFirstAt(pieces[1..], k - 1, px, py)
    {
      assert k != 0;
      forall j | 0 <= j < k - 1
        ensures !pieces[1..][j].At(px, py)
      {
        assert pieces[1..][j] == pieces[j + 1];
      }
    }
  }

  /** The colour of the first piece on (px, py), or None when the square is empty. */
  function ColorOfSquare(px: int, py: int, pieces: seq<Piece>): (c: Option<PieceColor>)
    ensures c.None? <==> forall k :: 0 <= k < |pieces| ==> !pieces[k].At(px, py)
    ensures forall k :: IsFirstAt(pieces, k, px, py) ==> c == Some(pieces[k].color)
  {
    if pieces == [] then None
    else if pieces[0].At(px, py) then Some(pieces[0].color)
    else
      FirstAtShift(pieces, px, py);
      ColorOfSquare(px, py, pieces[1..])
  }

  /** On a concatenation the first occupant is in the front part if there is one there. */
  lemma {:induction false} ColorOfSquareConcat(px: int, py: int, front: seq<Piece>, back: seq<Piece>)
    ensures ColorOfSquare(px, py, front + back)
         == if ColorOfSquare(px, py, front).Some? then ColorOfSquare(px, py, front) else ColorOfSquare(px, py, back)
  {
    if front == [] {
      assert front + back == back;
    } else {
      assert (front + back)[0] == front[0];
      assert (front + back)[1..] == front[1..] + back;
      if !front[0].At(px, py) {
        ColorOfSquareConcat(px, py, front[1..], back);
      }
    }
  }

  /** Some piece stands on (px, py). */
  ghost predicate Occupied(px: int, py: int, pieces: seq<Piece>) {
    exists k :: 0 <= k < |pieces| && pieces[k].At(px, py)
  }

  /** An occupied square has a first occupant. */
  lemma {:induction false} FirstOccupant(px: int, py: int, pieces: seq<Piece>) returns (k: int)
    requires Occupied(px, py, pieces)
    ensures IsFirstAt(pieces, k, px, py)
  {
    if pieces[0].At(px, py) {
      k := 0;
    } else {
      var i :| 0 <= i < |pieces| && pieces[i].At(px, py);
      assert pieces[1..][i - 1] == pieces[i];
      var k' := FirstOccupant(px, py, pieces[1..]);
      k := k' + 1;
      forall j | 0 <= j < k
        ensures !pieces[j].At(px, py)
      {
        if j > 0 {
          assert pieces[j] == pieces[1..][j - 1];
        }
      }
    }
  }

  /** No two pieces share a square. */
  ghost predicate DistinctSquares(pieces: seq<Piece>) {
    forall i, j :: 0 <= i < j < |pieces| ==> !(pieces[i].x == pieces[j].x && pieces[i].y == pieces[j].y)
  }

  /** On a board without shared squares, the colour found is the colour of the one occupant. */
  lemma OccupantColor(px: int, py: int, pieces: seq<Piece>, j: int)
    requires DistinctSquares(pieces)
    requires 0 <= j < |pieces| && pieces[j].At(px, py)
    ensures ColorOfSquare(px, py, pieces) == Some(pieces[j].color)
  {
    assert IsFirstAt(pieces, j, px, py);
  }

  // ---------------------------------------------------------------------------
  // Path check
  // ---------------------------------------------------------------------------

  predicate StrictlyBetween(a: int, b: int, c: int) {
    b < a < c || c < a < b
  }

  /**
   * The scan for x1 == x2: no piece with this x strictly between y1 and y2.
   * With x counting rows this runs along a row; the source's comment calls it
   * the same-column case.
   */
  function FixedXClear(x: int, y1: int, y2: int, pieces: seq<Piece>): (clear: bool)
    ensures clear <==> forall k :: 0 <= k < |pieces| ==> !(pieces[k].x == x && StrictlyBetween(pieces[k].y, y1, y2))
  {
    if pieces == [] then true
    else if pieces[0].x == x && StrictlyBetween(pieces[0].y, y1, y2) then false
    else FixedXClear(x, y1, y2, pieces[1..])
  }

  /**
   * The scan for y1 == y2: no piece with this y strictly between x1 and x2.
   * With y counting columns this runs along a column; the source's comment
   * calls it the same-row case.
   */
  function FixedYClear(y: int, x1: int, x2: int, pieces: seq<Piece>): (clear: bool)
    ensures clear <==> forall k :: 0 <= k < |pieces| ==> !(pieces[k].y == y && StrictlyBetween(pieces[k].x, x1, x2))
  {
    if pieces == [] then true
    else if pieces[0].y == y && StrictlyBetween(pieces[0].x, x1, x2) then false
    else FixedYClear(y, x1, x2, pieces[1..])
  }

  /** The square i steps of (sx, sy) from (x1, y1), after the `as u8` casts, holds a piece. */
  predicate StepOccupied(x1: Coord, y1: Coord, sx: int, sy: int, i: int, pieces: seq<Piece>)
    requires -1 <= sx <= 1 && -1 <= sy <= 1 && 0 <= i < 8
  {
    ColorOfSquare(AsU8(x1 + sx * i), AsU8(y1 + sy * i), pieces).Some?
  }

  /** The diagonal scan, steps i .. n - 1. */
  function DiagonalClear(x1: Coord, y1: Coord, sx: int, sy: int, i: nat, n: nat, pieces: seq<Piece>): (clear: bool)
    requires -1 <= sx <= 1 && -1 <= sy <= 1 && n < 8
    ensures clear <==> forall k :: i <= k < n ==> !StepOccupied(x1, y1, sx, sy, k, pieces)
    decreases n - i
  {
    if i >= n then true
    else if StepOccupied(x1, y1, sx, sy, i, pieces) then false
    else DiagonalClear(x1, y1, sx, sy, i + 1, n, pieces)
  }

  /**
   * The path check: a column scan when x1 == x2, a row scan when y1 == y2 and
   * a diagonal scan when |x1 - x2| == |y1 - y2|, each of which can fail.
   * Along a column or a row it fails exactly when a piece lies strictly
   * between the squares; along a diagonal exactly when a piece stands on a
   * square the diagonal scan visits, which steps by signum(x1 - x2),
   * signum(y1 - y2), that is away from (x2, y2).
   */
  function IsPathEmpty(x1: Coord, y1: Coord, x2: Coord, y2: Coord, pieces: seq<Piece>): (clear: bool)
    ensures x1 == x2 || y1 == y2
        ==> (clear <==> forall k :: 0 <= k < |pieces| ==> !StraightBetween(pieces[k], x1, y1, x2, y2))
    ensures IntAbs(x1 - x2) == IntAbs(y1 - y2) && x1 != x2
        ==> (clear <==> forall k :: 0 <= k < |pieces| ==> !OnDiagonalScan(pieces[k].x, pieces[k].y, x1, y1, x2, y2))
  {
    DiagonalScanClear(x1, y1, x2, y2, pieces);
    && (x1 != x2 || FixedXClear(x1, y1, y2, pieces))
    && (y1 != y2 || FixedYClear(y1, x1, x2, pieces))
    && (IntAbs(x1 - x2) != IntAbs(y1 - y2)
        || DiagonalClear(x1, y1, Signum(x1 - x2), Signum(y1 - y2), 1, IntAbs(x1 - x2), pieces))
  }

  /** p lies strictly between two squares that share a column or a row. */
  predicate StraightBetween(p: Piece, x1: int, y1: int, x2: int, y2: int) {
    || (x1 == x2 && p.x == x1 && StrictlyBetween(p.y, y1, y2))
    || (y1 == y2 && p.y == y1 && StrictlyBetween(p.x, x1, x2))
  }

  /** p lies strictly between two squares on a common diagonal. */
  predicate DiagonalBetween(p: Piece, x1: int, y1: int, x2: int, y2: int) {
    StrictlyBetween(p.x, x1, x2) && StrictlyBetween(p.y, y1, y2) && IntAbs(p.x - x1) == IntAbs(p.y - y1)
  }

  /**
   * (px, py) is one of the squares the diagonal scan visits: i steps from
   * (x1, y1) in the direction AWAY from (x2, y2), for 1 <= i < |x1 - x2|.
   */
  predicate OnDiagonalScan(px: int, py: int, x1: int, y1: int, x2: int, y2: int) {
    var i := IntAbs(px - x1);
    && 1 <= i < IntAbs(x1 - x2)
    && px == x1 + Signum(x1 - x2) * i
    && py == y1 + Signum(y1 - y2) * i
  }

  lemma {:induction false} StepOccupiedOnScan(x1: Coord, y1: Coord, x2: Coord, y2: Coord, i: int, pieces: seq<Piece>)
    requires IntAbs(x1 - x2) == IntAbs(y1 - y2) && 1 <= i < IntAbs(x1 - x2)
    ensures StepOccupied(x1, y1, Signum(x1 - x2), Signum(y1 - y2), i, pieces)
        <==> exists k :: 0 <= k < |pieces| && OnDiagonalScan(pieces[k].x, pieces[k].y, x1, y1, x2, y2)
                        && IntAbs(pieces[k].x - x1) == i
  {
    var sx, sy := Signum(x1 - x2), Signum(y1 - y2);
    var px, py := x1 + sx * i, y1 + sy * i;
    assert sx * i == i || sx * i == -i;
    assert sy * i == i || sy * i == -i;
    if StepOccupied(x1, y1, sx, sy, i, pieces) {
      var k := FirstOccupant(AsU8(px), AsU8(py), pieces);
      AsU8OffBoard(px, pieces[k].x);
      AsU8OffBoard(py, pieces[k].y);
      assert OnDiagonalScan(pieces[k].x, pieces[k].y, x1, y1, x2, y2);
    }
    if exists k :: 0 <= k < |pieces| && OnDiagonalScan(pieces[k].x, pieces[k].y, x1, y1, x2, y2)
                   && IntAbs(pieces[k].x - x1) == i {
      var k :| 0 <= k < |pieces| && OnDiagonalScan(pieces[k].x, pieces[k].y, x1, y1, x2, y2)
               && IntAbs(pieces[k].x - x1) == i;
      AsU8OffBoard(px, pieces[k].x);
      AsU8OffBoard(py, pieces[k].y);
      assert pieces[k].At(AsU8(px), AsU8(py));
    }
  }

  /**
   * The diagonal scan finds no piece exactly when no piece stands on one of
   * the squares it visits: 1 .. |x1 - x2| - 1 steps from (x1, y1) away from
   * (x2, y2). Squares off the board never match a piece.
   */
  lemma DiagonalScanClear(x1: Coord, y1: Coord, x2: Coord, y2: Coord, pieces: seq<Piece>)
    ensures IntAbs(x1 - x2) == IntAbs(y1 - y2) && x1 != x2
        ==> (DiagonalClear(x1, y1, Signum(x1 - x2), Signum(y1 - y2), 1, IntAbs(x1 - x2), pieces)
             <==> forall k :: 0 <= k < |pieces| ==> !OnDiagonalScan(pieces[k].x, pieces[k].y, x1, y1, x2, y2))
  {
    if IntAbs(x1 - x2) == IntAbs(y1 - y2) && x1 != x2 {
      var n := IntAbs(x1 - x2);
      var sx, sy := Signum(x1 - x2), Signum(y1 - y2);
      forall i | 1 <= i < n
        ensures StepOccupied(x1, y1, sx, sy, i, pieces)
            <==> exists k :: 0 <= k < |pieces| && OnDiagonalScan(pieces[k].x, pieces[k].y, x1, y1, x2, y2)
                            && IntAbs(pieces[k].x - x1) == i
      {
        StepOccupiedOnScan(x1, y1, x2, y2, i, pieces);
      }
      if !DiagonalClear(x1, y1, sx, sy, 1, n, pieces) {
        var i :| 1 <= i < n && StepOccupied(x1, y1, sx, sy, i, pieces);
      }
      if exists k :: 0 <= k < |pieces| && OnDiagonalScan(pieces[k].x, pieces[k].y, x1, y1, x2, y2) {
        var k :| 0 <= k < |pieces| && OnDiagonalScan(pieces[k].x, pieces[k].y, x1, y1, x2, y2);
        var i := IntAbs(pieces[k].x - x1);
        assert !DiagonalClear(x1, y1, sx, sy, 1, n, pieces) by {
          assert StepOccupied(x1, y1, sx, sy, i, pieces);
        }
      }
    }
  }

  /** The diagonal scan never visits a square strictly between the two squares. */
  lemma DiagonalScanMissesBetween(p: Piece, x1: Coord, y1: Coord, x2: Coord, y2: Coord)
    requires OnDiagonalScan(p.x, p.y, x1, y1, x2, y2)
    ensures !DiagonalBetween(p, x1, y1, x2, y2)
  {
  }

  /**
   * A piece strictly between the two squares of a diagonal never makes the
   * path check fail: adding one leaves the result unchanged.
   */
  lemma DiagonalBlockerIgnored(x1: Coord, y1: Coord, x2: Coord, y2: Coord, pieces: seq<Piece>, blocker: Piece)
    requires IntAbs(x1 - x2) == IntAbs(y1 - y2) && x1 != x2
    requires DiagonalBetween(blocker, x1, y1, x2, y2)
    ensures IsPathEmpty(x1, y1, x2, y2, pieces + [blocker]) == IsPathEmpty(x1, y1, x2, y2, pieces)
  {
    var all := pieces + [blocker];
    assert all[|pieces|] == blocker;
    assert forall k :: 0 <= k < |pieces| ==> all[k] == pieces[k];
  }

  // ---------------------------------------------------------------------------
  // Move legality
  // ---------------------------------------------------------------------------

  /** Whether `piece` may move to (nx, ny) on the board `pieces` (which holds the piece itself). */
  function IsMoveValid(piece: Piece, nx: Coord, ny: Coord, pieces: seq<Piece>): (valid: bool)
    ensures valid ==> ColorOfSquare(nx, ny, pieces) != Some(piece.color)
  {
    if ColorOfSquare(nx, ny, pieces) == Some(piece.color) then false
    else
      var dist := Manhatan.From(piece.x, piece.y, nx, ny);
      match piece.pieceType
      case King => dist.Abs().Max() == 1
      case Queen => IsPathEmpty(piece.x, piece.y, nx, ny, pieces) && (dist.Diagonal() || dist.Straight())
      case Bishop => IsPathEmpty(piece.x, piece.y, nx, ny, pieces) && dist.Diagonal()
      case Knight =>
        var abs := dist.Abs();
        abs == Manhatan(2, 1) || abs == Manhatan(1, 2)
      case Rook => IsPathEmpty(piece.x, piece.y, nx, ny, pieces) && dist.Straight()
      case Pawn =>
        var dist := if piece.color == White then Manhatan.From(nx, ny, piece.x, piece.y) else dist;
        var squareColor := ColorOfSquare(nx, ny, pieces);
        if dist == Manhatan(1, 0) && squareColor.None? then true
        else if ((piece.color == White && piece.x == 1) || (piece.color == Black && piece.x == 6))
                && dist == Manhatan(2, 0)
                && IsPathEmpty(piece.x, piece.y, nx, ny, pieces)
                && squareColor.None? then true
        else if dist.dx == 1 && IntAbs(dist.dy) == 1 && squareColor.Some? then true
        else false
  }

  /** The target does not hold a piece of the mover's colour (the first check of IsMoveValid). */
  predicate NotOwnColored(piece: Piece, nx: Coord, ny: Coord, pieces: seq<Piece>) {
    ColorOfSquare(nx, ny, pieces) != Some(piece.color)
  }

  /** Every kind: a target holding a piece of the mover's colour is never valid. */
  lemma OwnColorTargetInvalid(piece: Piece, nx: Coord, ny: Coord, pieces: seq<Piece>, j: int)
    requires DistinctSquares(pieces)
    requires 0 <= j < |pieces| && pieces[j].At(nx, ny) && pieces[j].color == piece.color
    ensures !IsMoveValid(piece, nx, ny, pieces)
  {
    OccupantColor(nx, ny, pieces, j);
  }

  /** Every kind: a piece on the board can never move onto its own square. */
  lemma CannotStayInPlace(piece: Piece, pieces: seq<Piece>)
    requires DistinctSquares(pieces) && piece in pieces
    ensures !IsMoveValid(piece, piece.x, piece.y, pieces)
  {
    var j :| 0 <= j < |pieces| && pieces[j] == piece;
    OwnColorTargetInvalid(piece, piece.x, piece.y, pieces, j);
  }

  /** King: exactly one square in any direction. */
  lemma KingMoves(piece: Piece, nx: Coord, ny: Coord, pieces: seq<Piece>)
    requires piece.pieceType == King
    ensures IsMoveValid(piece, nx, ny, pieces)
        <==> NotOwnColored(piece, nx, ny, pieces)
             && IntAbs(piece.x - nx) <= 1 && IntAbs(piece.y - ny) <= 1
             && (IntAbs(piece.x - nx) == 1 || IntAbs(piece.y - ny) == 1)
  {
  }

  /** Knight: the eight L-shaped offsets, and the other pieces never matter beyond the target's colour. */
  lemma KnightMoves(piece: Piece, nx: Coord, ny: Coord, pieces: seq<Piece>, others: seq<Piece>)
    requires piece.pieceType == Knight
    requires ColorOfSquare(nx, ny, others) == ColorOfSquare(nx, ny, pieces)
    ensures IsMoveValid(piece, nx, ny, pieces)
        <==> NotOwnColored(piece, nx, ny, pieces)
             && ((IntAbs(piece.x - nx) == 2 && IntAbs(piece.y - ny) == 1)
                 || (IntAbs(piece.x - nx) == 1 && IntAbs(piece.y - ny) == 2))
    ensures IsMoveValid(piece, nx, ny, others) == IsMoveValid(piece, nx, ny, pieces)
  {
  }

  /** Rook: along a column or a row, with no piece strictly between. */
  lemma RookMoves(piece: Piece, nx: Coord, ny: Coord, pieces: seq<Piece>)
    requires piece.pieceType == Rook
    ensures IsMoveValid(piece, nx, ny, pieces)
        <==> NotOwnColored(piece, nx, ny, pieces)
             && (piece.x == nx || piece.y == ny)
             && forall k :: 0 <= k < |pieces| ==> !StraightBetween(pieces[k], piece.x, piece.y, nx, ny)
  {
  }

  /** Bishop: along a diagonal, with none of the squares the diagonal scan visits occupied. */
  lemma BishopMoves(piece: Piece, nx: Coord, ny: Coord, pieces: seq<Piece>)
    requires piece.pieceType == Bishop
    ensures IsMoveValid(piece, nx, ny, pieces)
        <==> NotOwnColored(piece, nx, ny, pieces)
             && IntAbs(piece.x - nx) == IntAbs(piece.y - ny)
             && forall k :: 0 <= k < |pieces| ==> !OnDiagonalScan(pieces[k].x, pieces[k].y, piece.x, piece.y, nx, ny)
  {
  }

  /** Queen: the rook's moves and the bishop's moves. */
  lemma QueenMoves(piece: Piece, nx: Coord, ny: Coord, pieces: seq<Piece>)
    requires piece.pieceType == Queen
    ensures IsMoveValid(piece, nx, ny, pieces)
        <==> NotOwnColored(piece, nx, ny, pieces)
             && (|| ((piece.x == nx || piece.y == ny)
                     && forall k :: 0 <= k < |pieces| ==> !StraightBetween(pieces[k], piece.x, piece.y, nx, ny))
                 || (IntAbs(piece.x - nx) == IntAbs(piece.y - ny)
                     && forall k :: 0 <= k < |pieces| ==> !OnDiagonalScan(pieces[k].x, pieces[k].y, piece.x, piece.y, nx, ny)))
  {
  }

  /** The row direction a pawn of this colour advances in. */
  function Forward(color: PieceColor): int {
    if color == White then 1 else -1
  }

  /** The pawn's starting row. */
  function PawnRow(color: PieceColor): Coord {
    if color == White then 1 else 6
  }

  /**
   * Pawn: one step forward onto an empty square; two steps forward from the
   * starting row when both squares are empty; one step forward and one
   * sideways onto an occupied square. Every other delta is invalid.
   */
  lemma PawnMoves(piece: Piece, nx: Coord, ny: Coord, pieces: seq<Piece>)
    requires piece.pieceType == Pawn
    ensures IsMoveValid(piece, nx, ny, pieces)
        <==> NotOwnColored(piece, nx, ny, pieces)
             && (|| (nx == piece.x + Forward(piece.color) && ny == piece.y
                     && !Occupied(nx, ny, pieces))
                 || (nx == piece.x + 2 * Forward(piece.color) && ny == piece.y && piece.x == PawnRow(piece.color)
                     && !Occupied(piece.x + Forward(piece.color), ny, pieces)
                     && !Occupied(nx, ny, pieces))
                 || (nx == piece.x + Forward(piece.color) && IntAbs(ny - piece.y) == 1
                     && Occupied(nx, ny, pieces)))
  {
    var mid := piece.x + Forward(piece.color);
    if nx == piece.x + 2 * Forward(piece.color) && ny == piece.y {
      assert forall k :: 0 <= k < |pieces| ==>
        (StraightBetween(pieces[k], piece.x, piece.y, nx, ny) <==> pieces[k].At(mid, ny));
    }
  }

  /** A valid diagonal pawn move lands on a square whose first occupant is an opponent. */
  lemma PawnCapturesOpponent(piece: Piece, nx: Coord, ny: Coord, pieces: seq<Piece>) returns (k: int)
    requires piece.pieceType == Pawn
    requires nx == piece.x + Forward(piece.color) && IntAbs(ny - piece.y) == 1
    requires IsMoveValid(piece, nx, ny, pieces)
    ensures IsFirstAt(pieces, k, nx, ny) && pieces[k].color != piece.color
  {
    PawnMoves(piece, nx, ny, pieces);
    k := FirstOccupant(nx, ny, pieces);
  }

  // ---------------------------------------------------------------------------
  // Starting layout
  // ---------------------------------------------------------------------------

  /** The back-row kinds in column order 0..7. */
  const BackRow: seq<PieceType> := [Rook, Knight, Bishop, Queen, King, Bishop, Knight, Rook]

  /**
   * The i-th piece the game spawns: White's back row (columns 0..7), White's
   * pawns, Black's back row, Black's pawns.
   */
  function StartingPiece(i: int): (p: Piece)
    requires 0 <= i < 32
    ensures p.color == White <==> i < 16
    ensures p.y == i % 8
    ensures p.color == White ==> p.x == 0 || p.x == 1
    ensures p.color == Black ==> p.x == 6 || p.x == 7
    ensures p.pieceType == Pawn <==> p.x == 1 || p.x == 6
    ensures p.pieceType != Pawn ==> p.pieceType == BackRow[p.y]
  {
    var color := if i < 16 then White else Black;
    var pawns := i % 16 >= 8;
    var x := if color == White then (if pawns then 1 else 0) else (if pawns then 6 else 7);
    Piece(color, if pawns then Pawn else BackRow[i % 8], x, i % 8)
  }

  const StartingPieces: seq<Piece> := seq(32, i requires 0 <= i < 32 => StartingPiece(i))

  /**
   * 32 pieces on distinct squares; White fills rows 0 and 1, Black rows 6
   * and 7; the only kings are White's on (0, 4) and Black's on (7, 4).
   */
  lemma StartingLayout()
    ensures |StartingPieces| == 32
    ensures DistinctSquares(StartingPieces)
    ensures forall k :: 0 <= k < 32 ==> (StartingPieces[k].color == White <==> k < 16)
    ensures forall k :: 0 <= k < 32 && StartingPieces[k].color == White ==> StartingPieces[k].x in {0, 1}
    ensures forall k :: 0 <= k < 32 && StartingPieces[k].color == Black ==> StartingPieces[k].x in {6, 7}
    ensures StartingPieces[4] == Piece(White, King, 0, 4) && StartingPieces[20] == Piece(Black, King, 7, 4)
    ensures forall k :: 0 <= k < 32 && StartingPieces[k].pieceType == King ==> k == 4 || k == 20
  {
    forall i, j | 0 <= i < j < 32
      ensures !(StartingPieces[i].x == StartingPieces[j].x && StartingPieces[i].y == StartingPieces[j].y)
    {
      assert StartingPieces[i] == StartingPiece(i) && StartingPieces[j] == StartingPiece(j);
    }
  }

  /** From the starting position White's pawn at (1, 0) may advance two rows. */
  lemma OpeningPawnDoubleStep()
    ensures StartingPieces[8] == Piece(White, Pawn, 1, 0)
    ensures IsMoveValid(StartingPieces[8], 3, 0, StartingPieces)
  {
    StartingLayout();
    var p := StartingPieces;
    PawnMoves(p[8], 3, 0, p);
    assert !Occupied(2, 0, p);
    assert !Occupied(3, 0, p);
  }

  /** From the starting position White's rook at (0, 0) may not go to (3, 0): its own pawn on (1, 0) is in the way. */
  lemma OpeningRookBlocked()
    ensures StartingPieces[0] == Piece(White, Rook, 0, 0)
    ensures StartingPieces[8] == Piece(White, Pawn, 1, 0) && StraightBetween(StartingPieces[8], 0, 0, 3, 0)
    ensures !Occupied(3, 0, StartingPieces)
    ensures !IsMoveValid(StartingPieces[0], 3, 0, StartingPieces)
  {
    StartingLayout();
    var p := StartingPieces;
    RookMoves(p[0], 3, 0, p);
  }

  /**
   * From the starting position White's bishop at (0, 2) may go to (2, 4)
   * although White's own pawn stands between them on (1, 3): the diagonal
   * scan looks at (-1, 1), off the board, not at (1, 3).
   */
  lemma OpeningBishopPassesOwnPawn()
    ensures StartingPieces[2] == Piece(White, Bishop, 0, 2)
    ensures StartingPieces[11] == Piece(White, Pawn, 1, 3)
    ensures DiagonalBetween(StartingPieces[11], 0, 2, 2, 4)
    ensures IsMoveValid(StartingPieces[2], 2, 4, StartingPieces)
  {
    StartingLayout();
    var p := StartingPieces;
    BishopMoves(p[2], 2, 4, p);
    assert !Occupied(2, 4, p);
  }
}
