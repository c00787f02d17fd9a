/** ChessPiece.pieceMoves, bishopMoves and kingMoves. In Java these are
    instance methods of ChessPiece taking a ChessBoard; Dafny modules cannot
    import each other in a cycle, so here they take the piece as their first
    parameter. Each is proved to return exactly the rule function of
    ChessPieces on the board's contents. */
module MoveGeneration {
  import opened Wrappers
  import opened ChessPieces
  import opened ChessBoards

  /** pieceMoves: dispatch on the piece type; every type but BISHOP and KING
      yields the empty collection. */
  method PieceMoves(piece: ChessPiece, board: ChessBoard, myPosition: ChessPosition) returns (moves: seq<ChessMove>)
    requires board.Valid()
    ensures moves == PieceMovesSpec(board.Cells(), piece, myPosition)
  {
    moves := [];
    if piece.GetPieceType() == BISHOP {
      moves := BishopMoves(piece, board, myPosition);
    }
    if piece.GetPieceType() == KING {
      moves := KingMoves(piece, board, myPosition);
    }
  }

  /** The number of further unit steps in direction d that stay on 1..8,
      with every off-board coordinate ranked above all on-board ones. */
  function StepsLeft(x: int, d: int): nat
  {
    if 1 <= x <= 8 then (if d > 0 then 9 - x else x) else 10
  }

  /** One step of a diagonal walk at distance k: what has been emitted so
      far, followed by the rest of the walk, still makes up `target`. */
  lemma RayStep(g: Grid, color: Option<TeamColor>, from: ChessPosition, dr: int, dc: int, k: int,
                moves: seq<ChessMove>, target: seq<ChessMove>)
    requires WellFormed(g) && UnitStep(dr)
    requires moves + Ray(g, color, from, dr, dc, k) == target
    ensures var p := Along(from, dr, dc, k);
      (!OnBoard(p) ==> moves == target) &&
      (OnBoard(p) && PieceAt(g, p) == null ==>
        (moves + [ChessMove(from, p, None)]) + Ray(g, color, from, dr, dc, k + 1) == target) &&
      (OnBoard(p) && PieceAt(g, p) != null && PieceAt(g, p).pieceColor != color ==>
        moves + [ChessMove(from, p, None)] == target) &&
      (OnBoard(p) && PieceAt(g, p) != null && PieceAt(g, p).pieceColor == color ==> moves == target)
  {
    var p := Along(from, dr, dc, k);
    if OnBoard(p) && PieceAt(g, p) == null {
      assert moves + ([ChessMove(from, p, None)] + Ray(g, color, from, dr, dc, k + 1)) ==
        (moves + [ChessMove(from, p, None)]) + Ray(g, color, from, dr, dc, k + 1);
    }
  }

  /** bishopMoves: walks each of the four diagonals in turn. */
  method BishopMoves(piece: ChessPiece, board: ChessBoard, myPosition: ChessPosition) returns (moves: seq<ChessMove>)
    requires board.Valid()
    ensures moves == BishopMovesSpec(board.Cells(), piece.pieceColor, myPosition)
  {
    ghost var g := board.Cells();
    var pieceColor := piece.GetTeamColor();
    moves := [];
    for i := 0 to |BishopRowDirections|
      invariant moves == BishopRays(g, pieceColor, myPosition, i)
    {
      var rowIncrement := BishopRowDirections[i];
      var colIncrement := BishopColDirections[i];
      var row := myPosition.row;
      var col := myPosition.col;
      ghost var k := 0;
      while true
        invariant row == Off(myPosition.row, rowIncrement, k) && col == Off(myPosition.col, colIncrement, k)
        invariant moves + Ray(g, pieceColor, myPosition, rowIncrement, colIncrement, k + 1) == BishopRays(g, pieceColor, myPosition, i + 1)
        decreases StepsLeft(row, rowIncrement)
      {
        row := row + rowIncrement;
        col := col + colIncrement;
        k := k + 1;
        RayStep(g, pieceColor, myPosition, rowIncrement, colIncrement, k, moves, BishopRays(g, pieceColor, myPosition, i + 1));
        if IsValidPosition(row, col) {
          var position := ChessPosition(row, col);
          assert position == Along(myPosition, rowIncrement, colIncrement, k);
          if board.GetPiece(position) == null {
            moves := moves + [ChessMove(myPosition, position, None)];
          } else if board.GetPiece(position).GetTeamColor() != pieceColor {
            moves := moves + [ChessMove(myPosition, position, None)];
            break;
          } else {
            break;
          }
        } else {
          break;
        }
      }
    }
  }

  /** kingMoves: the eight offsets in table order. */
  method KingMoves(piece: ChessPiece, board: ChessBoard, myPosition: ChessPosition) returns (moves: seq<ChessMove>)
    requires board.Valid()
    ensures moves == KingMovesSpec(board.Cells(), piece.pieceColor, myPosition)
  {
    ghost var g := board.Cells();
    var pieceColor := piece.GetTeamColor();
    moves := [];
    var row := myPosition.row;
    var col := myPosition.col;
    for i := 0 to |KingRowDirections|
      invariant moves == KingSteps(g, pieceColor, myPosition, i)
    {
      var rowIncrement := KingRowDirections[i];
      var colIncrement := KingColDirections[i];
      var position := ChessPosition(row + rowIncrement, col + colIncrement);
      if IsValidPosition(row + rowIncrement, col + colIncrement) {
        if board.GetPiece(position) == null {
          moves := moves + [ChessMove(myPosition, position, None)];
        } else if board.GetPiece(position).GetTeamColor() != pieceColor {
          moves := moves + [ChessMove(myPosition, position, None)];
        }
      }
    }
  }
}
