/** ChessGame: a board and a turn flag; applies moves, copies boards, finds
    the king, tests for check and filters legal moves.

    The Java class is unfinished: validMoves does not compile, makes its
    trial moves on the live board, and its in-check branch keeps the moves
    that leave the king attacked; checkOpponentMove compares positions by
    reference and casts a collection to a move. Those parts are modelled by
    their documented intent, each departure being noted where it occurs. The
    rest (makeMove, setBoard, copyBoard, kingPosition, the turn flag) is
    modelled as written. */
module ChessGames {
  import opened Wrappers
  import opened ChessPieces
  import opened ChessBoards
  import opened MoveGeneration

  // ---------------------------------------------------------------------
  // Row-major order over the 1..8 board, as the nested row/col loops visit it
  // ---------------------------------------------------------------------

  /** A point of the scan: about to visit (row, col), or (9, 1) when done. */
  predicate ScanPoint(row: int, col: int)
  {
    (1 <= row <= 8 && 1 <= col <= 9) || (row == 9 && col == 1)
  }

  /** Square p is visited before the scan reaches (row, col). */
  predicate Visited(p: ChessPosition, row: int, col: int)
  {
    OnBoard(p) && (p.row < row || (p.row == row && p.col < col))
  }

  predicate RowMajorBefore(p: ChessPosition, q: ChessPosition)
  {
    p.row < q.row || (p.row == q.row && p.col < q.col)
  }

  // ---------------------------------------------------------------------
  // kingPosition
  // ---------------------------------------------------------------------

  predicate IsKingOf(piece: ChessPiece?, color: Option<TeamColor>)
  {
    piece != null && piece.pieceType == KING && piece.pieceColor == color
  }

  /** The king held by the scan when it reaches (row, col): the last one seen. */
  function KingScan(g: Grid, color: Option<TeamColor>, row: int, col: int): Option<ChessPosition>
    requires WellFormed(g) && ScanPoint(row, col)
    decreases row, col
  {
    if col > 1 then
      if IsKingOf(PieceAt(g, ChessPosition(row, col - 1)), color) then Some(ChessPosition(row, col - 1))
      else KingScan(g, color, row, col - 1)
    else if row > 1 then KingScan(g, color, row - 1, 9)
    else None
  }

  function KingPosition(g: Grid, color: Option<TeamColor>): Option<ChessPosition>
    requires WellFormed(g)
  {
    KingScan(g, color, 9, 1)
  }

  lemma {:induction false} KingScanSpec(g: Grid, color: Option<TeamColor>, row: int, col: int)
    requires WellFormed(g) && ScanPoint(row, col)
    ensures KingScan(g, color, row, col).None? ==>
      forall p :: Visited(p, row, col) ==> !IsKingOf(PieceAt(g, p), color)
    ensures KingScan(g, color, row, col).Some? ==>
      var k := KingScan(g, color, row, col).value;
      Visited(k, row, col) && IsKingOf(PieceAt(g, k), color) &&
      forall p :: Visited(p, row, col) && RowMajorBefore(k, p) ==> !IsKingOf(PieceAt(g, p), color)
    decreases row, col
  {
    if col > 1 {
      KingScanSpec(g, color, row, col - 1);
    } else if row > 1 {
      KingScanSpec(g, color, row - 1, 9);
    }
  }

  /** kingPosition returns the last square in row-major order over 1..8 that
      holds a king of the colour, or `null` when there is none. */
  lemma KingPositionIsLast(g: Grid, color: Option<TeamColor>)
    requires WellFormed(g)
    ensures KingPosition(g, color).None? <==> forall p :: OnBoard(p) ==> !IsKingOf(PieceAt(g, p), color)
    ensures KingPosition(g, color).Some? ==>
      var k := KingPosition(g, color).value;
      OnBoard(k) && IsKingOf(PieceAt(g, k), color) &&
      forall p :: OnBoard(p) && RowMajorBefore(k, p) ==> !IsKingOf(PieceAt(g, p), color)
  {
    KingScanSpec(g, color, 9, 1);
  }

  // ---------------------------------------------------------------------
  // checkOpponentMove and isInCheck
  // ---------------------------------------------------------------------

  /** The first move of ms[j..] that ends on the king's square. */
  function FirstHitFrom(ms: seq<ChessMove>, king: Option<ChessPosition>, j: nat): Option<ChessMove>
    requires j <= |ms|
    decreases |ms| - j
  {
    if j == |ms| then None
    else if Some(ms[j].end) == king then Some(ms[j])
    else FirstHitFrom(ms, king, j + 1)
  }

  lemma {:induction false} FirstHitSpec(ms: seq<ChessMove>, king: Option<ChessPosition>, j: nat)
    requires j <= |ms|
    ensures FirstHitFrom(ms, king, j).None? <==> forall t :: j <= t < |ms| ==> Some(ms[t].end) != king
    ensures FirstHitFrom(ms, king, j).Some? ==>
      FirstHitFrom(ms, king, j).value in ms && Some(FirstHitFrom(ms, king, j).value.end) == king
    decreases |ms| - j
  {
    if j < |ms| {
      FirstHitSpec(ms, king, j + 1);
    }
  }

  /** What checkOpponentMove collects for one square: the first move of an
      opposing piece there that ends on the king's square. */
  function AttackFrom(g: Grid, color: Option<TeamColor>, king: Option<ChessPosition>, p: ChessPosition): seq<ChessMove>
    requires WellFormed(g) && OnBoard(p)
  {
    var piece := PieceAt(g, p);
    if piece != null && color != piece.pieceColor then
      match FirstHitFrom(PieceMovesSpec(g, piece, p), king, 0)
      case Some(m) => [m]
      case None => []
    else []
  }

  /** What checkOpponentMove has collected when its scan reaches (row, col). */
  function Attacks(g: Grid, color: Option<TeamColor>, king: Option<ChessPosition>, row: int, col: int): seq<ChessMove>
    requires WellFormed(g) && ScanPoint(row, col)
    decreases row, col
  {
    if col > 1 then Attacks(g, color, king, row, col - 1) + AttackFrom(g, color, king, ChessPosition(row, col - 1))
    else if row > 1 then Attacks(g, color, king, row - 1, 9)
    else []
  }

  /** isInCheck: the opponent-move collection for the king's square is not empty. */
  predicate InCheck(g: Grid, color: Option<TeamColor>)
    requires WellFormed(g)
  {
    Attacks(g, color, KingPosition(g, color), 9, 1) != []
  }

  /** Some piece of another colour on the 1..8 board has a pseudo-legal move ending on `target`. */
  ghost predicate Attacked(g: Grid, color: Option<TeamColor>, target: ChessPosition)
    requires WellFormed(g)
  {
    exists p, m :: OnBoard(p) && PieceAt(g, p) != null && PieceAt(g, p).pieceColor != color &&
      m in PieceMovesSpec(g, PieceAt(g, p), p) && m.end == target
  }

  lemma {:induction false} AttacksEmptyIff(g: Grid, color: Option<TeamColor>, king: Option<ChessPosition>, row: int, col: int)
    requires WellFormed(g) && ScanPoint(row, col)
    ensures Attacks(g, color, king, row, col) == [] <==>
      forall p {:trigger Visited(p, row, col)} :: Visited(p, row, col) ==> AttackFrom(g, color, king, p) == []
    decreases row, col
  {
    if col > 1 {
      var q := ChessPosition(row, col - 1);
      AttacksEmptyIff(g, color, king, row, col - 1);
      assert Attacks(g, color, king, row, col) == Attacks(g, color, king, row, col - 1) + AttackFrom(g, color, king, q);
      if Attacks(g, color, king, row, col) == [] {
        forall p | Visited(p, row, col) ensures AttackFrom(g, color, king, p) == [] {
          if p != q {
            assert Visited(p, row, col - 1);
          }
        }
      }
      if forall p {:trigger Visited(p, row, col)} :: Visited(p, row, col) ==> AttackFrom(g, color, king, p) == [] {
        assert Visited(q, row, col);
        forall p | Visited(p, row, col - 1) ensures AttackFrom(g, color, king, p) == [] {
          assert Visited(p, row, col);
        }
      }
    } else if row > 1 {
      AttacksEmptyIff(g, color, king, row - 1, 9);
      assert Attacks(g, color, king, row, col) == Attacks(g, color, king, row - 1, 9);
      if Attacks(g, color, king, row, col) == [] {
        forall p | Visited(p, row, col) ensures AttackFrom(g, color, king, p) == [] {
          assert Visited(p, row - 1, 9);
        }
      }
      if forall p {:trigger Visited(p, row, col)} :: Visited(p, row, col) ==> AttackFrom(g, color, king, p) == [] {
        forall p | Visited(p, row - 1, 9) ensures AttackFrom(g, color, king, p) == [] {
          assert Visited(p, row, col);
        }
      }
    }
  }

  lemma AttackFromNonEmpty(g: Grid, color: Option<TeamColor>, king: Option<ChessPosition>, p: ChessPosition)
    requires WellFormed(g) && OnBoard(p)
    ensures AttackFrom(g, color, king, p) != [] <==>
      PieceAt(g, p) != null && PieceAt(g, p).pieceColor != color &&
      exists m :: m in PieceMovesSpec(g, PieceAt(g, p), p) && Some(m.end) == king
  {
    var piece := PieceAt(g, p);
    if piece != null && color != piece.pieceColor {
      var ms := PieceMovesSpec(g, piece, p);
      FirstHitSpec(ms, king, 0);
      if exists m :: m in ms && Some(m.end) == king {
        var m :| m in ms && Some(m.end) == king;
        var t :| 0 <= t < |ms| && ms[t] == m;
      }
    }
  }

  /** isInCheck(c) holds iff c has a king on the board and some square holding
      a piece of another colour has a pseudo-legal move ending on that king's
      square (the one kingPosition reports). */
  lemma InCheckIff(g: Grid, color: Option<TeamColor>)
    requires WellFormed(g)
    ensures InCheck(g, color) <==> KingPosition(g, color).Some? && Attacked(g, color, KingPosition(g, color).value)
  {
    var king := KingPosition(g, color);
    AttacksEmptyIff(g, color, king, 9, 1);
    if InCheck(g, color) {
      var p :| Visited(p, 9, 1) && AttackFrom(g, color, king, p) != [];
      AttackFromNonEmpty(g, color, king, p);
      var m :| m in PieceMovesSpec(g, PieceAt(g, p), p) && Some(m.end) == king;
      assert Attacked(g, color, king.value);
    }
    if king.Some? && Attacked(g, color, king.value) {
      var p, m :| OnBoard(p) && PieceAt(g, p) != null && PieceAt(g, p).pieceColor != color &&
        m in PieceMovesSpec(g, PieceAt(g, p), p) && m.end == king.value;
      AttackFromNonEmpty(g, color, king, p);
      assert Visited(p, 9, 1);
    }
  }

  // ---------------------------------------------------------------------
  // Trial moves on a scratch copy (the intent of validMoves)
  // ---------------------------------------------------------------------

  function SetCell(g: Grid, p: ChessPosition, x: ChessPiece?): (h: Grid)
    requires WellFormed(g) && InArray(p)
    ensures WellFormed(h)
    ensures forall r, c :: 0 <= r < 9 && 0 <= c < 9 ==> h[r][c] == if r == p.row && c == p.col then x else g[r][c]
  {
    g[p.row := g[p.row][p.col := x]]
  }

  /** The board after a move without promotion: the end square receives what
      the start square held, then the start square is cleared. */
  function Moved(g: Grid, m: ChessMove): Grid
    requires WellFormed(g) && InArray(m.start) && InArray(m.end)
  {
    SetCell(SetCell(g, m.end, PieceAt(g, m.start)), m.start, null)
  }

  /** What copyBoard produces: the cells with row and column in 1..8, every
      other cell empty. */
  function Scratch(g: Grid): (h: Grid)
    requires WellFormed(g)
    ensures WellFormed(h)
  {
    seq(9, r requires 0 <= r < 9 => seq(9, c requires 0 <= c < 9 => if IsValidPosition(r, c) then g[r][c] else null))
  }

  /** A move the intended filter keeps: made on a scratch copy of the board,
      it leaves the mover's king not in check. The trial is a plain
      relocation: `m.promotion` is not trialled (no generated move has one). */
  predicate SafeMove(g: Grid, color: Option<TeamColor>, m: ChessMove)
    requires WellFormed(g)
  {
    InArray(m.start) && InArray(m.end) && !InCheck(Moved(Scratch(g), m), color)
  }

  /** The safe moves of ms, in order. */
  function SafeMoves(g: Grid, color: Option<TeamColor>, ms: seq<ChessMove>): seq<ChessMove>
    requires WellFormed(g)
  {
    if ms == [] then []
    else SafeMoves(g, color, ms[..|ms| - 1]) + (if SafeMove(g, color, ms[|ms| - 1]) then [ms[|ms| - 1]] else [])
  }


  /** One step of the filter: the safe moves of a longer prefix. */
  lemma SafeMovesSnoc(g: Grid, color: Option<TeamColor>, ms: seq<ChessMove>, i: nat)
    requires WellFormed(g) && i < |ms|
    ensures SafeMoves(g, color, ms[..i + 1]) ==
      SafeMoves(g, color, ms[..i]) + (if SafeMove(g, color, ms[i]) then [ms[i]] else [])
  {
    assert ms[..i + 1][..i] == ms[..i];
  }

  lemma {:induction false} SafeMovesIff(g: Grid, color: Option<TeamColor>, ms: seq<ChessMove>, m: ChessMove)
    requires WellFormed(g)
    ensures m in SafeMoves(g, color, ms) <==> m in ms && SafeMove(g, color, m)
  {
    if ms != [] {
      var init := ms[..|ms| - 1];
      SafeMovesIff(g, color, init, m);
      assert ms == init + [ms[|ms| - 1]];
    }
  }

  /** validMoves(p), by intent: exactly the pseudo-legal moves of the piece
      that, tried on a scratch copy, leave its own king out of check; so a
      subset of pieceMoves. */
  lemma ValidMovesAreSafePseudoLegal(g: Grid, piece: ChessPiece, from: ChessPosition)
    requires WellFormed(g) && InArray(from)
    ensures forall m :: m in SafeMoves(g, piece.pieceColor, PieceMovesSpec(g, piece, from)) <==>
      m in PieceMovesSpec(g, piece, from) && SafeMove(g, piece.pieceColor, m)
    ensures forall m :: m in PieceMovesSpec(g, piece, from) ==> m.start == from && OnBoard(m.end)
  {
    PieceMovesSound(g, piece, from);
    forall m
      ensures m in SafeMoves(g, piece.pieceColor, PieceMovesSpec(g, piece, from)) <==>
        m in PieceMovesSpec(g, piece, from) && SafeMove(g, piece.pieceColor, m)
    {
      SafeMovesIff(g, piece.pieceColor, PieceMovesSpec(g, piece, from), m);
    }
  }

  // ---------------------------------------------------------------------
  // The game
  // ---------------------------------------------------------------------

  class ChessGame {
    /** Never reassigned (getBoard always returns this one object). */
    const myBoard: ChessBoard
    /** `None` is Java's `null`, which is where the flag starts. */
    var teamTurn: Option<TeamColor>

    predicate Valid()
    {
      myBoard.Valid()
    }

    /** A new game holds an empty board (it is not reset) and no turn. */
    constructor ()
      ensures Valid() && fresh(myBoard) && fresh(myBoard.squares) && teamTurn == None
      ensures forall r, c :: 0 <= r < 9 && 0 <= c < 9 ==> myBoard.squares[r, c] == null
    {
      myBoard := new ChessBoard();
      teamTurn := None;
    }

    function GetTeamTurn(): (t: Option<TeamColor>)
      reads this
      ensures t == teamTurn
    {
      teamTurn
    }

    method SetTeamTurn(team: Option<TeamColor>)
      modifies this`teamTurn
      ensures teamTurn == team
    {
      teamTurn := team;
    }

    /** getBoard hands out the live board, not a copy. */
    function GetBoard(): (b: ChessBoard)
      ensures b == myBoard
    {
      myBoard
    }

    /** makeMove: no legality check at all. The end square receives the
        piece from the start square, or, for a promotion, a new piece of
        colour `teamTurn` (not necessarily the mover's) and the promotion
        type; then the start square is cleared (so a move onto its own start
        square empties it). Nothing else changes, `teamTurn` included. */
    method MakeMove(move: ChessMove)
      requires Valid() && InArray(move.start) && InArray(move.end)
      modifies myBoard.squares
      ensures myBoard.GetPiece(move.start) == null
      ensures move.start != move.end && move.promotion.None? ==>
        myBoard.GetPiece(move.end) == old(myBoard.GetPiece(move.start))
      ensures move.start != move.end && move.promotion.Some? ==>
        var p := myBoard.GetPiece(move.end);
        p != null && fresh(p) && p.pieceColor == teamTurn && p.pieceType == move.promotion.value
      ensures forall r, c :: 0 <= r < 9 && 0 <= c < 9 && ChessPosition(r, c) != move.start && ChessPosition(r, c) != move.end ==>
        myBoard.squares[r, c] == old(myBoard.squares[r, c])
      ensures move.promotion.None? ==> myBoard.Cells() == Moved(old(myBoard.Cells()), move)
    {
      ghost var before := myBoard.Cells();
      var board := GetBoard();
      var piece := board.GetPiece(move.start);
      if move.promotion.Some? {
        var promoted := new ChessPiece(teamTurn, move.promotion.value);
        board.AddPiece(move.end, promoted);
      } else {
        board.AddPiece(move.end, piece);
      }
      board.AddPiece(move.start, null);
      // The Java method ends with setBoard(board), board being myBoard itself.
      SetBoard(board);
      if move.promotion.None? {
        GridExt(myBoard.Cells(), Moved(before, move));
      }
    }

    /** setBoard: copies the cells with row and column in 1..8 from `board`
        into this game's board; the other cells keep their pieces. `board`
        may be this game's own board (makeMove passes it), which makes the
        call a no-op. */
    method SetBoard(board: ChessBoard)
      requires Valid() && board.Valid()
      modifies myBoard.squares
      ensures forall r, c :: 1 <= r <= 8 && 1 <= c <= 8 ==> myBoard.squares[r, c] == old(board.squares[r, c])
      ensures forall r, c :: 0 <= r < 9 && 0 <= c < 9 && !IsValidPosition(r, c) ==> myBoard.squares[r, c] == old(myBoard.squares[r, c])
    {
      for row := 1 to 9
        invariant forall r, c :: 1 <= r < row && 1 <= c <= 8 ==> myBoard.squares[r, c] == old(board.squares[r, c])
        invariant forall r, c :: 0 <= r < 9 && 0 <= c < 9 && !(1 <= r < row && 1 <= c <= 8) ==>
          myBoard.squares[r, c] == old(myBoard.squares[r, c]) && board.squares[r, c] == old(board.squares[r, c])
      {
        for col := 1 to 9
          invariant forall r, c :: ((1 <= r < row && 1 <= c <= 8) || (r == row && 1 <= c < col)) ==>
            myBoard.squares[r, c] == old(board.squares[r, c])
          invariant forall r, c :: 0 <= r < 9 && 0 <= c < 9 && !((1 <= r < row && 1 <= c <= 8) || (r == row && 1 <= c < col)) ==>
            myBoard.squares[r, c] == old(myBoard.squares[r, c]) && board.squares[r, c] == old(board.squares[r, c])
        {
          var position := ChessPosition(row, col);
          var piece := board.GetPiece(position);
          myBoard.AddPiece(position, piece);
        }
      }
    }

    /** copyBoard: a new board holding the 1..8 cells of `board`; its other
        cells are empty, and `board` is left as it was. */
    method CopyBoard(board: ChessBoard) returns (newBoard: ChessBoard)
      requires board.Valid()
      ensures fresh(newBoard) && fresh(newBoard.squares) && newBoard.Valid()
      ensures forall r, c :: 0 <= r < 9 && 0 <= c < 9 ==>
        newBoard.squares[r, c] == if IsValidPosition(r, c) then board.squares[r, c] else null
      ensures newBoard.Cells() == Scratch(board.Cells())
    {
      newBoard := new ChessBoard();
      for row := 1 to 9
        invariant fresh(newBoard.squares) && newBoard.Valid()
        invariant forall r, c :: 0 <= r < 9 && 0 <= c < 9 ==>
          newBoard.squares[r, c] == if 1 <= r < row && 1 <= c <= 8 then board.squares[r, c] else null
      {
        for col := 1 to 9
          invariant fresh(newBoard.squares) && newBoard.Valid()
          invariant forall r, c :: 0 <= r < 9 && 0 <= c < 9 ==>
            newBoard.squares[r, c] == if (1 <= r < row && 1 <= c <= 8) || (r == row && 1 <= c < col) then board.squares[r, c] else null
        {
          var position := ChessPosition(row, col);
          var piece := board.GetPiece(position);
          newBoard.AddPiece(position, piece);
        }
      }
      GridExt(newBoard.Cells(), Scratch(board.Cells()));
    }

    /** kingPosition: the nested scan keeps the last king of the colour. */
    method KingPositionOn(teamColor: Option<TeamColor>, board: ChessBoard) returns (king: Option<ChessPosition>)
      requires board.Valid()
      ensures king == KingPosition(board.Cells(), teamColor)
    {
      ghost var g := board.Cells();
      king := None;
      for row := 1 to 9
        invariant king == KingScan(g, teamColor, row, 1)
      {
        for col := 1 to 9
          invariant king == KingScan(g, teamColor, row, col)
        {
          var piece := board.GetPiece(ChessPosition(row, col));
          if piece != null {
            if piece.GetPieceType() == KING && piece.GetTeamColor() == teamColor {
              king := Some(ChessPosition(row, col));
            }
          }
        }
      }
    }

    /** checkOpponentMove, by intent: for each square holding a piece of
        another colour, the first of its pseudo-legal moves that ends on the
        king's square. Departures from the Java: positions are compared by
        value (Java `==` compares references, so it never matches a freshly
        built position), the matching move itself is collected (Java casts
        the whole move collection to a move), and the piece is read from
        `board` (Java reads it from myBoard, which every caller passes as
        `board` anyway). */
    method CheckOpponentMove(teamColor: Option<TeamColor>, king: Option<ChessPosition>, board: ChessBoard)
      returns (opponentMoves: seq<ChessMove>)
      requires board.Valid()
      ensures opponentMoves == Attacks(board.Cells(), teamColor, king, 9, 1)
    {
      ghost var g := board.Cells();
      opponentMoves := [];
      for row := 1 to 9
        invariant opponentMoves == Attacks(g, teamColor, king, row, 1)
      {
        for col := 1 to 9
          invariant opponentMoves == Attacks(g, teamColor, king, row, col)
        {
          var opponentPosition := ChessPosition(row, col);
          var piece := board.GetPiece(opponentPosition);
          if piece != null {
            if teamColor != piece.GetTeamColor() {
              var moves := PieceMoves(piece, board, opponentPosition);
              for j := 0 to |moves|
                invariant FirstHitFrom(moves, king, j) == FirstHitFrom(moves, king, 0)
                invariant opponentMoves == Attacks(g, teamColor, king, row, col)
              {
                var opponent := moves[j].end;
                if Some(opponent) == king {
                  opponentMoves := opponentMoves + [moves[j]];
                  break;
                }
              }
            }
          }
        }
      }
    }

    /** isInCheck: locate the king on this game's board and collect the
        opposing moves that reach it. */
    method IsInCheck(teamColor: Option<TeamColor>) returns (inCheck: bool)
      requires Valid()
      ensures inCheck == InCheck(myBoard.Cells(), teamColor)
    {
      var board := GetBoard();
      var king := KingPositionOn(teamColor, board);
      var opponentMoves := CheckOpponentMove(teamColor, king, board);
      return opponentMoves != [];
    }

    /** checkMoves, by intent: keep each pseudo-legal move of the piece at
        `startPosition` after which, on a scratch copy of `board`, the
        team's king is not attacked. Departures from the Java: the trial move
        is made on a fresh copy instead of the live board, and a move is kept
        when the opposing collection is empty (Java keeps it when it is not
        empty). `board` is not changed. */
    method CheckMoves(startPosition: ChessPosition, teamColor: Option<TeamColor>, board: ChessBoard)
      returns (validMoves: seq<ChessMove>)
      requires board.Valid() && InArray(startPosition) && board.GetPiece(startPosition) != null
      ensures validMoves == SafeMoves(board.Cells(), teamColor,
        PieceMovesSpec(board.Cells(), board.GetPiece(startPosition), startPosition))
    {
      var piece := board.GetPiece(startPosition);
      var tempMoves := PieceMoves(piece, board, startPosition);
      PieceMovesSound(board.Cells(), piece, startPosition);
      validMoves := FilterSafe(tempMoves, teamColor, board);
    }

    /** checkMoves' loop: keep, in order, each move that leaves the team's
        king unattacked. */
    method FilterSafe(tempMoves: seq<ChessMove>, teamColor: Option<TeamColor>, board: ChessBoard)
      returns (validMoves: seq<ChessMove>)
      requires board.Valid()
      requires forall m <- tempMoves :: InArray(m.start) && InArray(m.end)
      ensures validMoves == SafeMoves(board.Cells(), teamColor, tempMoves)
    {
      ghost var g := board.Cells();
      validMoves := [];
      for i := 0 to |tempMoves|
        invariant validMoves == SafeMoves(g, teamColor, tempMoves[..i])
      {
        var move := tempMoves[i];
        var safe := TryMove(move, teamColor, board);
        SafeMovesSnoc(g, teamColor, tempMoves, i);
        if safe {
          validMoves := validMoves + [move];
        }
      }
      assert tempMoves[..|tempMoves|] == tempMoves;
    }

    /** The body of checkMoves' loop: make the move on a fresh copy of
        `board`, then ask whether the team's king on that copy is attacked. */
    method TryMove(move: ChessMove, teamColor: Option<TeamColor>, board: ChessBoard) returns (safe: bool)
      requires board.Valid() && InArray(move.start) && InArray(move.end)
      ensures safe == SafeMove(board.Cells(), teamColor, move)
    {
      var scratch := CopyBoard(board);
      ghost var copied := scratch.Cells();
      var moving := scratch.GetPiece(move.start);
      scratch.AddPiece(move.end, moving);
      scratch.AddPiece(move.start, null);
      GridExt(scratch.Cells(), Moved(copied, move));
      var simKing := KingPositionOn(teamColor, scratch);
      var simOpponentMoves := CheckOpponentMove(teamColor, simKing, scratch);
      safe := simOpponentMoves == [];
    }

    /** validMoves, by intent: `None` (Java's documented `null`) when the
        square is empty; otherwise the turn flag becomes the piece's colour
        and the result is the piece's safe pseudo-legal moves. Departures
        from the Java: an empty square returns `None` instead of throwing,
        both branches of the Java (already in check or not) compute the same
        filter here, and the live board is never changed. */
    method ValidMoves(startPosition: ChessPosition) returns (validMoves: Option<seq<ChessMove>>)
      requires Valid() && InArray(startPosition)
      modifies this`teamTurn
      ensures myBoard.GetPiece(startPosition) == null ==> validMoves == None && teamTurn == old(teamTurn)
      ensures myBoard.GetPiece(startPosition) != null ==>
        teamTurn == myBoard.GetPiece(startPosition).pieceColor &&
        validMoves == Some(SafeMoves(myBoard.Cells(), teamTurn,
          PieceMovesSpec(myBoard.Cells(), myBoard.GetPiece(startPosition), startPosition)))
    {
      var board := GetBoard();
      var piece := board.GetPiece(startPosition);
      if piece == null {
        return None;
      }
      SetTeamTurn(piece.GetTeamColor());
      var moves := CheckMoves(startPosition, teamTurn, board);
      validMoves := Some(moves);
    }
  }
}
