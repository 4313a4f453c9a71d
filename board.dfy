/**
 * The selection, turn and capture state machine: the four systems that run,
 * in this order, on every tick of the game loop (select_squares,
 * select_piece, move_piece, remove_taken_pieces), over the game's resources
 * and the pieces' components.
 *
 * Entities are indices: piece entity i is `pieces[i]`, and a square is named
 * by its coordinates. Change detection is replaced by two flags that the
 * systems set during the tick; deferred commands by a queue that is applied
 * when the tick ends.
 */
module Board {
  import opened Pieces

  /** A board square; there is one pickable entity per coordinate, and nothing else is pickable. */
  datatype Square = Square(x: Coord, y: Coord)

  /** A selection event delivered by the picking layer. */
  datatype SelectionEvent = JustSelected(square: Square) | JustDeselected(square: Square)

  // ---------------------------------------------------------------------------
  // PlayerTurn
  // ---------------------------------------------------------------------------

  function Toggled(turn: PieceColor): (next: PieceColor)
    ensures next != turn
  {
    match turn
    case White => Black
    case Black => White
  }

  /** Toggling twice gives the turn back. */
  lemma ToggleInvolution(turn: PieceColor)
    ensures Toggled(Toggled(turn)) == turn
  {
  }

  /** The text shown for a turn. */
  function TurnName(turn: PieceColor): (name: string)
    ensures name == "White" <==> turn == White
    ensures name == "Black" <==> turn == Black
  {
    match turn
    case White => "White"
    case Black => "Black"
  }

  // ---------------------------------------------------------------------------
  // select_squares, as a function of the events
  // ---------------------------------------------------------------------------

  /** Handling event e with selection `sel` writes the selected square. */
  predicate Writes(sel: Option<Square>, e: SelectionEvent) {
    e.JustSelected? || sel == Some(e.square)
  }

  /** The selection after one event: a selection replaces it, a deselection clears it only if it names it. */
  function Step(sel: Option<Square>, e: SelectionEvent): (next: Option<Square>)
    ensures e.JustSelected? ==> next == Some(e.square)
    ensures e.JustDeselected? ==> next != Some(e.square) && (next == sel || next.None?)
    ensures next != sel ==> Writes(sel, e)
  {
    match e
    case JustSelected(s) => Some(s)
    case JustDeselected(s) => if sel == Some(s) then None else sel
  }

  /** The selection after the events, handled in order. */
  function SelectSquares(sel: Option<Square>, events: seq<SelectionEvent>): (r: Option<Square>)
    ensures events != [] && events[|events| - 1].JustSelected? ==> r == Some(events[|events| - 1].square)
    ensures events != [] && events[|events| - 1].JustDeselected? ==> r != Some(events[|events| - 1].square)
    decreases |events|
  {
    if events == [] then sel
    else Step(SelectSquares(sel, events[..|events| - 1]), events[|events| - 1])
  }

  /** Some event wrote the selected square. */
  function SquareChanged(sel: Option<Square>, events: seq<SelectionEvent>): (changed: bool)
    ensures (exists i :: 0 <= i < |events| && events[i].JustSelected?) ==> changed
    ensures SelectSquares(sel, events) != sel ==> changed
    decreases |events|
  {
    if events == [] then false
    else
      var before := events[..|events| - 1];
      assert forall i :: 0 <= i < |before| ==> before[i] == events[i];
      SquareChanged(sel, before) || Writes(SelectSquares(sel, before), events[|events| - 1])
  }

  /** An event that wrote the selection as it stood when it arrived sets the flag. */
  lemma {:induction false} WritesSetsChanged(sel: Option<Square>, events: seq<SelectionEvent>, i: nat)
    requires i < |events| && Writes(SelectSquares(sel, events[..i]), events[i])
    ensures SquareChanged(sel, events)
    decreases |events|
  {
    var n := |events| - 1;
    var before := events[..n];
    if i == n {
      assert events[..i] == before;
    } else {
      assert before[..i] == events[..i];
      assert before[i] == events[i];
      WritesSetsChanged(sel, before, i);
    }
  }

  /** When the flag is set, some event wrote the selection as it stood when it arrived. */
  lemma {:induction false} ChangedHasWriter(sel: Option<Square>, events: seq<SelectionEvent>) returns (i: nat)
    requires SquareChanged(sel, events)
    ensures i < |events| && Writes(SelectSquares(sel, events[..i]), events[i])
    decreases |events|
  {
    var n := |events| - 1;
    var before := events[..n];
    if SquareChanged(sel, before) {
      i := ChangedHasWriter(sel, before);
      assert before[..i] == events[..i];
      assert before[i] == events[i];
    } else {
      i := n;
      assert events[..i] == before;
    }
  }

  /** The flag is set exactly when some event wrote the selection as it stood when that event arrived. */
  lemma SquareChangedWrites(sel: Option<Square>, events: seq<SelectionEvent>)
    ensures SquareChanged(sel, events)
        <==> exists i :: 0 <= i < |events| && Writes(SelectSquares(sel, events[..i]), events[i])
  {
    if SquareChanged(sel, events) {
      var i := ChangedHasWriter(sel, events);
    } else {
      forall i | 0 <= i < |events|
        ensures !Writes(SelectSquares(sel, events[..i]), events[i])
      {
        if Writes(SelectSquares(sel, events[..i]), events[i]) {
          WritesSetsChanged(sel, events, i);
        }
      }
    }
  }

  /** The selected square is the one before the events, none, or one that an event selected. */
  lemma {:induction false} SelectionFromEvents(sel: Option<Square>, events: seq<SelectionEvent>)
    ensures var r := SelectSquares(sel, events);
            r == sel || r == None || JustSelected(r.value) in events
    decreases |events|
  {
    if events != [] {
      var before := events[..|events| - 1];
      SelectionFromEvents(sel, before);
      var r := SelectSquares(sel, before);
      if r.Some? && JustSelected(r.value) in before {
        var i :| 0 <= i < |before| && before[i] == JustSelected(r.value);
        assert events[i] == before[i];
      }
    }
  }

  /** A deselection of a square that is not the selected one changes nothing. */
  lemma DeselectOtherIgnored(sel: Option<Square>, events: seq<SelectionEvent>, s: Square)
    requires SelectSquares(sel, events) != Some(s)
    ensures SelectSquares(sel, events + [JustDeselected(s)]) == SelectSquares(sel, events)
    ensures SquareChanged(sel, events + [JustDeselected(s)]) == SquareChanged(sel, events)
  {
    assert (events + [JustDeselected(s)])[..|events|] == events;
  }

  /** Deselecting the same square twice is the same as deselecting it once. */
  lemma DeselectTwice(sel: Option<Square>, events: seq<SelectionEvent>, s: Square)
    ensures SelectSquares(sel, events + [JustDeselected(s), JustDeselected(s)])
         == SelectSquares(sel, events + [JustDeselected(s)])
    ensures SquareChanged(sel, events + [JustDeselected(s), JustDeselected(s)])
         == SquareChanged(sel, events + [JustDeselected(s)])
  {
    var once := events + [JustDeselected(s)];
    assert (events + [JustDeselected(s), JustDeselected(s)]) == once + [JustDeselected(s)];
    assert once[..|events|] == events;
    DeselectOtherIgnored(sel, once, s);
  }

  // ---------------------------------------------------------------------------
  // Piece lookups and the snapshot
  // ---------------------------------------------------------------------------

  /** Entity k is live, stands on the square and, when a colour is given, has that colour. */
  ghost predicate Matches(pieces: seq<Piece>, live: set<nat>, k: int, square: Square, color: Option<PieceColor>) {
    && 0 <= k < |pieces| && k in live
    && pieces[k].At(square.x, square.y)
    && (color.None? || pieces[k].color == color.value)
  }

  ghost predicate IsFirstMatch(pieces: seq<Piece>, live: set<nat>, k: int, square: Square, color: Option<PieceColor>) {
    Matches(pieces, live, k, square, color) && forall j :: 0 <= j < k ==> !Matches(pieces, live, j, square, color)
  }

  ghost predicate NoMatch(pieces: seq<Piece>, live: set<nat>, square: Square, color: Option<PieceColor>) {
    forall k :: 0 <= k < |pieces| ==> !Matches(pieces, live, k, square, color)
  }

  /** The pieces of the live entities among the first n, in entity order. */
  function LivePieces(pieces: seq<Piece>, live: set<nat>, n: nat): (s: seq<Piece>)
    requires n <= |pieces|
    ensures |s| <= n
    ensures forall p :: p in s <==> exists k :: 0 <= k < n && k in live && pieces[k] == p
  {
    if n == 0 then []
    else LivePieces(pieces, live, n - 1) + (if n - 1 in live then [pieces[n - 1]] else [])
  }

  /**
   * The colour the move validation sees on a square of the snapshot is the colour of
   * the first live entity there, the one move_piece marks as taken.
   */
  lemma {:induction false} LiveColorOfSquare(pieces: seq<Piece>, live: set<nat>, n: nat, square: Square)
    requires n <= |pieces|
    ensures (forall k :: 0 <= k < n ==> !Matches(pieces, live, k, square, None))
        ==> ColorOfSquare(square.x, square.y, LivePieces(pieces, live, n)) == None
    ensures forall k :: (0 <= k < n && IsFirstMatch(pieces, live, k, square, None)
        ==> ColorOfSquare(square.x, square.y, LivePieces(pieces, live, n)) == Some(pieces[k].color))
  {
    if n > 0 {
      LiveColorOfSquare(pieces, live, n - 1, square);
      var front := LivePieces(pieces, live, n - 1);
      var last := if n - 1 in live then [pieces[n - 1]] else [];
      ColorOfSquareConcat(square.x, square.y, front, last);
      if forall k :: 0 <= k < n ==> !Matches(pieces, live, k, square, None) {
        assert !Matches(pieces, live, n - 1, square, None);
        assert ColorOfSquare(square.x, square.y, last) == None;
      }
      forall k | 0 <= k < n && IsFirstMatch(pieces, live, k, square, None)
        ensures ColorOfSquare(square.x, square.y, LivePieces(pieces, live, n)) == Some(pieces[k].color)
      {
        if k == n - 1 {
          assert forall j :: 0 <= j < n - 1 ==> !Matches(pieces, live, j, square, None);
          assert IsFirstAt(last, 0, square.x, square.y);
        }
      }
    }
  }

  /** On a board whose live pieces stand on distinct squares, a lookup can find only the one occupant. */
  lemma UniqueMatch(pieces: seq<Piece>, live: set<nat>, square: Square, color: Option<PieceColor>, j: nat)
    requires DistinctOn(pieces, live) && Matches(pieces, live, j, square, color)
    ensures IsFirstMatch(pieces, live, j, square, color) && !NoMatch(pieces, live, square, color)
    ensures forall k :: IsFirstMatch(pieces, live, k, square, color) ==> k == j
  {
  }

  /** With every entity live, the snapshot is the whole component table. */
  lemma {:induction false} AllLive(pieces: seq<Piece>, live: set<nat>, n: nat)
    requires n <= |pieces| && forall i: nat :: i < n ==> i in live
    ensures LivePieces(pieces, live, n) == pieces[..n]
  {
    if n > 0 {
      AllLive(pieces, live, n - 1);
      assert pieces[..n] == pieces[..n - 1] + [pieces[n - 1]];
    }
  }

  /** Live entities that share no square. */
  ghost predicate DistinctOn(pieces: seq<Piece>, s: set<nat>) {
    forall i, j :: i in s && j in s && i != j && i < |pieces| && j < |pieces|
      ==> !(pieces[i].x == pieces[j].x && pieces[i].y == pieces[j].y)
  }

  function MovedTo(piece: Piece, square: Square): Piece {
    piece.(x := square.x, y := square.y)
  }

  /** The entities 0 .. n - 1. */
  function Entities(n: nat): (s: set<nat>)
    ensures forall i: nat :: i in s <==> i < n
  {
    if n == 0 then {} else Entities(n - 1) + {n - 1}
  }

  function CapturedSet(captured: Option<nat>): set<nat> {
    if captured.Some? then {captured.value} else {}
  }

  /**
   * A move onto a square whose only live occupant (if any) is then removed
   * keeps the live pieces on distinct squares.
   */
  lemma MovePreservesDistinct(pieces: seq<Piece>, live: set<nat>, mover: nat, target: Square, captured: Option<nat>)
    requires DistinctOn(pieces, live) && mover < |pieces| && mover in live
    requires captured.Some? ==> IsFirstMatch(pieces, live, captured.value, target, None) && captured.value != mover
    requires captured.None? ==> NoMatch(pieces, live, target, None)
    ensures DistinctOn(pieces[mover := MovedTo(pieces[mover], target)], live - CapturedSet(captured))
  {
    var after := pieces[mover := MovedTo(pieces[mover], target)];
    var rest := live - CapturedSet(captured);
    forall i, j | i in rest && j in rest && i != j && i < |after| && j < |after|
      ensures !(after[i].x == after[j].x && after[i].y == after[j].y)
    {
      if i == mover || j == mover {
        var other := if i == mover then j else i;
        assert !Matches(pieces, live, other, target, None);
      }
    }
  }

  // ---------------------------------------------------------------------------
  // The game
  // ---------------------------------------------------------------------------

  /** What one run of move_piece did. */
  datatype MoveOutcome =
    | Skipped
    | Rejected(mover: nat, target: Square)
    | Moved(mover: nat, target: Square, captured: Option<nat>)
    | Panicked(mover: nat)

  class Game {
    /** The Piece component of every entity spawned: entity i is pieces[i]. */
    const pieces: array<Piece>
    /** Entities not despawned yet. */
    var live: set<nat>
    /** Entities carrying the Taken marker. */
    var taken: set<nat>
    /** Taken markers inserted through the command buffer during this tick; they land when it ends. */
    var queuedTaken: set<nat>
    var selectedSquare: Option<Square>
    var selectedPiece: Option<nat>
    var turn: PieceColor
    /** An exit was requested because a king was removed. */
    var gameOver: bool
    /** select_squares wrote the selected square during this tick. */
    var squareChanged: bool
    /** select_piece wrote the selected piece during this tick. */
    var pieceChanged: bool

    ghost predicate Valid()
      reads this, pieces
    {
      && (forall i :: i in live ==> i < pieces.Length)
      && (forall i :: i in taken ==> i < pieces.Length)
      && (forall i :: i in queuedTaken ==> i < pieces.Length)
      && (selectedPiece.Some? ==> selectedPiece.value < pieces.Length && pieces[selectedPiece.value].color == turn)
    }

    /**
     * Between ticks: the command queue is empty, marked pieces are still
     * live, and nothing is selected while a marked piece awaits removal.
     */
    ghost predicate Settled()
      reads this
    {
      queuedTaken == {} && taken <= live && (taken != {} ==> selectedPiece.None?)
    }

    /** Live pieces not marked for removal stand on distinct squares. */
    ghost predicate SquaresDistinct()
      reads this, pieces
    {
      DistinctOn(pieces[..], live - taken - queuedTaken)
    }

    /** The board as move_piece collects it: every live piece, marked or not. */
    function Snapshot(): (s: seq<Piece>)
      reads this, pieces
      ensures |s| <= pieces.Length
      ensures forall p :: p in s <==> exists k :: 0 <= k < pieces.Length && k in live && pieces[k] == p
    {
      LivePieces(pieces[..], live, pieces.Length)
    }

    /** move_piece gets past its four early returns. */
    predicate Attempting(): (b: bool)
      reads this
      ensures b ==> selectedSquare.Some? && selectedPiece.Some?
    {
      squareChanged && selectedSquare.Some? && !pieceChanged && selectedPiece.Some?
    }

    /** The starting position, White to move, nothing selected. */
    constructor ()
      ensures Valid() && Settled() && SquaresDistinct()
      ensures fresh(pieces) && pieces[..] == StartingPieces
      ensures live == Entities(32)
      ensures taken == {} && queuedTaken == {}
      ensures selectedSquare.None? && selectedPiece.None? && turn == White && !gameOver
    {
      pieces := new Piece[32](i requires 0 <= i < 32 => StartingPiece(i));
      live := Entities(32);
      taken, queuedTaken := {}, {};
      selectedSquare, selectedPiece := None, None;
      turn := White;
      gameOver := false;
      squareChanged, pieceChanged := false, false;
      new;
      assert pieces[..] == StartingPieces;
      StartingLayout();
    }

    /** select_squares: handle this tick's selection events in order. */
    method ApplyEvents(events: seq<SelectionEvent>)
      modifies this`selectedSquare, this`squareChanged
      ensures selectedSquare == SelectSquares(old(selectedSquare), events)
      ensures squareChanged == SquareChanged(old(selectedSquare), events)
    {
      ghost var start := selectedSquare;
      squareChanged := false;
      for i := 0 to |events|
        invariant selectedSquare == SelectSquares(start, events[..i])
        invariant squareChanged == SquareChanged(start, events[..i])
      {
        assert events[..i + 1][..i] == events[..i];
        match events[i]
        case JustSelected(s) =>
          selectedSquare := Some(s);
          squareChanged := true;
        case JustDeselected(s) =>
          if selectedSquare == Some(s) {
            selectedSquare := None;
            squareChanged := true;
          }
      }
      assert events[..|events|] == events;
    }

    /** The first live entity on the square with the given colour (any colour when None). */
    method FindPiece(square: Square, color: Option<PieceColor>) returns (found: Option<nat>)
      ensures found.Some? ==> IsFirstMatch(pieces[..], live, found.value, square, color)
      ensures found.None? ==> NoMatch(pieces[..], live, square, color)
    {
      for i: nat := 0 to pieces.Length
        invariant forall k :: 0 <= k < i ==> !Matches(pieces[..], live, k, square, color)
      {
        var p := pieces[i];
        if i in live && p.At(square.x, square.y) && (color.None? || p.color == color.value) {
          return Some(i);
        }
      }
      return None;
    }

    /**
     * select_piece: when the selected square changed this tick, select the
     * first piece of the player to move on it (if none is selected yet), or
     * drop the selected piece when the square was cleared.
     */
    method SelectPiece()
      requires Valid()
      modifies this`selectedPiece, this`pieceChanged
      ensures Valid()
      ensures !squareChanged ==> selectedPiece == old(selectedPiece) && !pieceChanged
      ensures squareChanged && selectedSquare.None? ==> selectedPiece.None? && pieceChanged
      ensures squareChanged && selectedSquare.Some? && old(selectedPiece).Some?
          ==> selectedPiece == old(selectedPiece) && !pieceChanged
      ensures squareChanged && selectedSquare.Some? && old(selectedPiece).None?
          ==> && pieceChanged == selectedPiece.Some?
              && (selectedPiece.Some? ==> IsFirstMatch(pieces[..], live, selectedPiece.value, selectedSquare.value, Some(turn)))
              && (selectedPiece.None? ==> NoMatch(pieces[..], live, selectedSquare.value, Some(turn)))
    {
      pieceChanged := false;
      if squareChanged {
        match selectedSquare
        case Some(square) =>
          if selectedPiece.None? {
            var found := FindPiece(square, Some(turn));
            if found.Some? {
              selectedPiece := found;
              pieceChanged := true;
            }
          }
        case None =>
          selectedPiece := None;
          pieceChanged := true;
      }
    }

    /**
     * move_piece: with a destination chosen this tick for a piece selected on
     * an earlier tick, move the piece if the move is valid (marking the
     * square's occupant as taken and passing the turn), then clear both
     * selections whatever the verdict.
     */
    method MovePiece() returns (outcome: MoveOutcome)
      requires Valid()
      modifies this`selectedSquare, this`selectedPiece, this`turn, this`queuedTaken, pieces
      ensures Valid()
      ensures !old(Attempting()) ==> outcome == Skipped
      ensures old(Attempting()) && old(selectedPiece).value !in live ==> outcome == Panicked(old(selectedPiece).value)
      ensures old(Attempting()) && old(selectedPiece).value in live
          ==> && (outcome.Moved? || outcome.Rejected?)
              && outcome.mover == old(selectedPiece).value
              && outcome.target == old(selectedSquare).value
              && (outcome.Moved? <==> IsMoveValid(old(pieces[selectedPiece.value]), outcome.target.x, outcome.target.y, old(Snapshot())))
              && selectedSquare.None? && selectedPiece.None?
      ensures outcome.Skipped? || outcome.Panicked?
          ==> && selectedSquare == old(selectedSquare) && selectedPiece == old(selectedPiece)
              && pieces[..] == old(pieces[..]) && turn == old(turn) && queuedTaken == old(queuedTaken)
      ensures outcome.Rejected?
          ==> pieces[..] == old(pieces[..]) && turn == old(turn) && queuedTaken == old(queuedTaken)
      ensures outcome.Moved?
          ==> && outcome.mover < pieces.Length && outcome.mover in live
              && old(pieces[outcome.mover]).color == old(turn)
              && pieces[..] == old(pieces[..])[outcome.mover := MovedTo(old(pieces[outcome.mover]), outcome.target)]
              && turn == Toggled(old(turn))
              && queuedTaken == old(queuedTaken) + CapturedSet(outcome.captured)
              && (outcome.captured.None? ==> NoMatch(old(pieces[..]), live, outcome.target, None))
              && (outcome.captured.Some?
                  ==> && IsFirstMatch(old(pieces[..]), live, outcome.captured.value, outcome.target, None)
                      && old(pieces[outcome.captured.value]).color != old(pieces[outcome.mover]).color)
      ensures old(SquaresDistinct()) && (old(Attempting()) ==> old(taken + queuedTaken) == {}) ==> SquaresDistinct()
    {
      if !squareChanged {
        return Skipped;
      }
      if selectedSquare.None? {
        return Skipped;
      }
      if pieceChanged {
        return Skipped;
      }
      if selectedPiece.None? {
        return Skipped;
      }
      var square := selectedSquare.value;
      var snapshot := Snapshot();
      var other := FindPiece(square, None);
      var mover := selectedPiece.value;
      if mover !in live {
        return Panicked(mover);
      }
      var piece := pieces[mover];
      ghost var before := pieces[..];
      if IsMoveValid(piece, square.x, square.y, snapshot) {
        LiveColorOfSquare(before, live, |before|, square);
        if other.Some? {
          queuedTaken := queuedTaken + {other.value};
        }
        pieces[mover] := MovedTo(piece, square);
        turn := Toggled(turn);
        outcome := Moved(mover, square, other);
        if taken + old(queuedTaken) == {} && old(SquaresDistinct()) {
          MovePreservesDistinct(before, live, mover, square, other);
        }
      } else {
        outcome := Rejected(mover, square);
      }
      selectedSquare := None;
      selectedPiece := None;
    }

    /** remove_taken_pieces: despawn every marked piece; removing a king ends the game. */
    method Sweep()
      requires Valid()
      modifies this`live, this`taken, this`gameOver
      ensures Valid()
      ensures live == old(live) - old(taken) && taken == {}
      ensures gameOver == (old(gameOver) || exists i :: i in old(taken) && i < pieces.Length && pieces[i].pieceType == King)
      ensures old(SquaresDistinct()) ==> SquaresDistinct()
    {
      for i: nat := 0 to pieces.Length
        invariant taken == old(taken) && Valid()
        invariant live == old(live) - (set k | k in taken && k < i)
        invariant gameOver == (old(gameOver) || exists k :: k in taken && k < i && pieces[k].pieceType == King)
      {
        if i in taken {
          if pieces[i].pieceType == King {
            gameOver := true;
          }
          live := live - {i};
        }
      }
      assert (set k | k in taken && k < pieces.Length) == taken;
      taken := {};
    }

    /** The end of a tick: the queued Taken markers land. */
    method ApplyCommands()
      requires Valid()
      modifies this`taken, this`queuedTaken
      ensures Valid()
      ensures taken == old(taken) + old(queuedTaken) && queuedTaken == {}
      ensures old(SquaresDistinct()) ==> SquaresDistinct()
    {
      taken := taken + queuedTaken;
      queuedTaken := {};
      assert live - old(taken) - old(queuedTaken) == live - taken - queuedTaken;
    }

    /** One tick: the four systems in their registered order, then the queued commands. */
    method Tick(events: seq<SelectionEvent>) returns (outcome: MoveOutcome)
      requires Valid() && Settled() && SquaresDistinct()
      modifies this, pieces
      ensures Valid() && Settled() && SquaresDistinct()
      ensures outcome.Moved?
          ==> && outcome.mover < pieces.Length && outcome.mover in live - taken
              && old(pieces[outcome.mover]).color == old(turn)
              && (outcome.captured.Some?
                  ==> && outcome.captured.value < pieces.Length && outcome.captured.value in live
                      && old(pieces[outcome.captured.value]).At(outcome.target.x, outcome.target.y))
              && pieces[..] == old(pieces[..])[outcome.mover := MovedTo(old(pieces[outcome.mover]), outcome.target)]
              && IsMoveValid(old(pieces[outcome.mover]), outcome.target.x, outcome.target.y, old(Snapshot()))
              && turn == Toggled(old(turn))
              && taken == CapturedSet(outcome.captured)
              && (outcome.captured.Some? ==> old(pieces[outcome.captured.value]).color != old(pieces[outcome.mover]).color)
      ensures !outcome.Moved? ==> pieces[..] == old(pieces[..]) && turn == old(turn) && taken == {}
      ensures outcome.Moved? || outcome.Rejected? ==> selectedSquare.None? && selectedPiece.None?
      ensures live == old(live) - old(taken)
      ensures gameOver == (old(gameOver) || exists i :: i in old(taken) && i < pieces.Length && pieces[i].pieceType == King)
      ensures outcome.Skipped?
          <==> !(SquareChanged(old(selectedSquare), events)
                 && SelectSquares(old(selectedSquare), events).Some? && old(selectedPiece).Some?)
      ensures outcome.Skipped? ==> selectedSquare == SelectSquares(old(selectedSquare), events)
      ensures !outcome.Skipped? ==> outcome.mover == old(selectedPiece).value
      ensures outcome.Panicked? <==> !outcome.Skipped? && old(selectedPiece).value !in old(live)
      ensures outcome.Skipped? && !SquareChanged(old(selectedSquare), events) ==> selectedPiece == old(selectedPiece)
      ensures outcome.Skipped? && SquareChanged(old(selectedSquare), events) && SelectSquares(old(selectedSquare), events).None?
          ==> selectedPiece.None?
      ensures SquareChanged(old(selectedSquare), events) && SelectSquares(old(selectedSquare), events).Some? && old(selectedPiece).None?
          ==> && (selectedPiece.Some? ==> IsFirstMatch(old(pieces[..]), old(live), selectedPiece.value, SelectSquares(old(selectedSquare), events).value, Some(old(turn))))
              && (selectedPiece.None? ==> NoMatch(old(pieces[..]), old(live), SelectSquares(old(selectedSquare), events).value, Some(old(turn))))
      ensures outcome.Moved? || outcome.Rejected?
          ==> && outcome.target == SelectSquares(old(selectedSquare), events).value
              && (outcome.Moved? <==> IsMoveValid(old(pieces[selectedPiece.value]), outcome.target.x, outcome.target.y, old(Snapshot())))
    {
      ApplyEvents(events);
      SelectPiece();
      outcome := MovePiece();
      Sweep();
      ApplyCommands();
    }
  }

  /** The state a new game starts in, while the board is still the starting one. */
  ghost predicate AtStart(g: Game)
    reads g, g.pieces
  {
    && g.Valid() && g.Settled() && g.SquaresDistinct()
    && g.pieces[..] == StartingPieces && g.live == Entities(32) && g.taken == {}
    && g.turn == White
  }

  /** The end of a tick in which no piece was marked: nothing is despawned and nothing changes. */
  method EndQuietTick(g: Game)
    requires g.Valid() && g.taken == {} && g.queuedTaken == {}
    modifies g`live, g`taken, g`queuedTaken, g`gameOver
    ensures g.Valid() && g.live == old(g.live) && g.gameOver == old(g.gameOver)
    ensures g.taken == {} && g.queuedTaken == {}
    ensures old(g.SquaresDistinct()) ==> g.SquaresDistinct()
  {
    g.Sweep();
    g.ApplyCommands();
  }

  /** In the starting position, the only White piece on (1, 0) is entity 8. */
  lemma StartingPawnLookup()
    ensures IsFirstMatch(StartingPieces, Entities(32), 8, Square(1, 0), Some(White))
    ensures forall k :: IsFirstMatch(StartingPieces, Entities(32), k, Square(1, 0), Some(White)) ==> k == 8
    ensures !NoMatch(StartingPieces, Entities(32), Square(1, 0), Some(White))
  {
    StartingLayout();
    UniqueMatch(StartingPieces, Entities(32), Square(1, 0), Some(White), 8);
  }

  /** In the starting position with every entity live, the snapshot is the starting layout. */
  lemma StartingSnapshot()
    ensures LivePieces(StartingPieces, Entities(32), 32) == StartingPieces
  {
    StartingLayout();
    AllLive(StartingPieces, Entities(32), 32);
    assert StartingPieces[..32] == StartingPieces;
  }

  /** select_squares and select_piece of the first tick: picking (1, 0) selects White's pawn there. */
  method SelectOpeningPawn(g: Game)
    requires AtStart(g) && g.selectedSquare.None? && g.selectedPiece.None?
    modifies g`selectedSquare, g`squareChanged, g`selectedPiece, g`pieceChanged
    ensures AtStart(g) && g.selectedSquare == Some(Square(1, 0)) && g.selectedPiece == Some(8)
    ensures g.squareChanged && g.pieceChanged
  {
    var pawn := Square(1, 0);
    StartingPawnLookup();
    g.ApplyEvents([JustSelected(pawn)]);
    assert g.selectedSquare == Some(pawn) && g.squareChanged;
    g.SelectPiece();
  }

  /** First tick of the opening: picking (1, 0) selects White's pawn there and moves nothing. */
  method PickOpeningPawn(g: Game)
    requires AtStart(g) && g.selectedSquare.None? && g.selectedPiece.None?
    modifies g, g.pieces
    ensures AtStart(g) && g.selectedSquare == Some(Square(1, 0)) && g.selectedPiece == Some(8)
  {
    SelectOpeningPawn(g);
    var outcome := g.MovePiece();
    assert outcome == Skipped;
    EndQuietTick(g);
  }

  /** select_squares and select_piece of the second tick: (1, 0) is dropped, (3, 0) picked, the pawn stays selected. */
  method SelectOpeningTarget(g: Game)
    requires AtStart(g) && g.selectedSquare == Some(Square(1, 0)) && g.selectedPiece == Some(8)
    modifies g`selectedSquare, g`squareChanged, g`selectedPiece, g`pieceChanged
    ensures AtStart(g) && g.selectedSquare == Some(Square(3, 0)) && g.selectedPiece == Some(8)
    ensures g.squareChanged && !g.pieceChanged
  {
    var events := [JustDeselected(Square(1, 0)), JustSelected(Square(3, 0))];
    g.ApplyEvents(events);
    assert g.selectedSquare == Some(Square(3, 0)) && g.squareChanged;
    g.SelectPiece();
  }

  /** Second tick: picking (3, 0) moves the selected pawn two rows and passes the turn. */
  method AdvanceOpeningPawn(g: Game)
    requires AtStart(g) && g.selectedSquare == Some(Square(1, 0)) && g.selectedPiece == Some(8)
    modifies g, g.pieces
    ensures g.Valid() && g.Settled() && g.SquaresDistinct()
    ensures g.pieces[..] == StartingPieces[8 := Piece(White, Pawn, 3, 0)]
    ensures g.turn == Black && g.selectedSquare.None? && g.selectedPiece.None?
  {
    SelectOpeningTarget(g);
    OpeningPawnDoubleStep();
    StartingSnapshot();
    assert g.Snapshot() == StartingPieces;
    var outcome := g.MovePiece();
    assert outcome == Moved(8, Square(3, 0), None);
    EndQuietTick(g);
  }

  /**
   * From the starting position White picks the pawn on (1, 0), and on the
   * next tick the square (3, 0): the pawn moves there and Black is to move.
   */
  method OpeningPawnMove() returns (g: Game)
    ensures g.Valid() && g.Settled() && g.SquaresDistinct()
    ensures g.pieces[..] == StartingPieces[8 := Piece(White, Pawn, 3, 0)]
    ensures g.turn == Black && g.selectedSquare.None? && g.selectedPiece.None?
  {
    g := new Game();
    PickOpeningPawn(g);
    AdvanceOpeningPawn(g);
  }

  /**
   * Right after a capture the taken piece, which has the colour now to move,
   * is still live and stands on the capturer's square: picking that square
   * selects it, and the same tick's removal despawns it while it stays
   * selected.
   */
  method ReselectTaken(g: Game, c: nat, m: nat)
    requires g.Valid() && g.Settled() && g.SquaresDistinct() && g.selectedSquare.None?
    requires g.taken == {c} && c < g.pieces.Length && g.pieces[c].color == g.turn
    requires m in g.live - g.taken && m < g.pieces.Length && g.pieces[m].color != g.turn
    requires g.pieces[m].x == g.pieces[c].x && g.pieces[m].y == g.pieces[c].y
    modifies g, g.pieces
    ensures g.Valid() && g.Settled() && g.SquaresDistinct()
    ensures g.selectedPiece == Some(c) && c !in g.live
  {
    var square := Square(g.pieces[c].x, g.pieces[c].y);
    assert Matches(g.pieces[..], g.live, c, square, Some(g.turn));
    assert forall k :: Matches(g.pieces[..], g.live, k, square, Some(g.turn)) ==> k == c;
    g.ApplyEvents([JustSelected(square)]);
    assert g.selectedSquare == Some(square) && g.squareChanged;
    g.SelectPiece();
    assert g.selectedPiece == Some(c) && g.pieceChanged;
    var outcome := g.MovePiece();
    assert outcome == Skipped;
    g.Sweep();
    g.ApplyCommands();
  }

  /** With a despawned piece still selected, the next destination picked makes move_piece panic. */
  method PickForDespawned(g: Game, c: nat, target: Square) returns (outcome: MoveOutcome)
    requires g.Valid() && g.Settled() && g.SquaresDistinct()
    requires g.selectedPiece == Some(c) && c !in g.live
    modifies g, g.pieces
    ensures outcome == Panicked(c)
  {
    g.ApplyEvents([JustSelected(target)]);
    assert g.selectedSquare == Some(target) && g.squareChanged;
    g.SelectPiece();
    outcome := g.MovePiece();
  }

  /** The two ticks after a capture can end in a panic. */
  method PanicAfterCapture(g: Game, c: nat, m: nat, target: Square) returns (outcome: MoveOutcome)
    requires g.Valid() && g.Settled() && g.SquaresDistinct() && g.selectedSquare.None?
    requires g.taken == {c} && c < g.pieces.Length && g.pieces[c].color == g.turn
    requires m in g.live - g.taken && m < g.pieces.Length && g.pieces[m].color != g.turn
    requires g.pieces[m].x == g.pieces[c].x && g.pieces[m].y == g.pieces[c].y
    modifies g, g.pieces
    ensures outcome == Panicked(c)
  {
    ReselectTaken(g, c, m);
    outcome := PickForDespawned(g, c, target);
  }

  /**
   * Whatever tick captures a piece, the two ticks after it can end in a
   * panic: the first picks the capturer's square, the second any square.
   */
  method CaptureThenPanic(g: Game, events: seq<SelectionEvent>, target: Square) returns (first: MoveOutcome, last: MoveOutcome)
    requires g.Valid() && g.Settled() && g.SquaresDistinct()
    modifies g, g.pieces
    ensures first.Moved? && first.captured.Some? ==> last == Panicked(first.captured.value)
  {
    first := g.Tick(events);
    last := Skipped;
    if first.Moved? && first.captured.Some? {
      var c, m := first.captured.value, first.mover;
      assert c != m;
      last := PanicAfterCapture(g, c, m, target);
    }
  }
}
