/** ChessBoard: a 9x9 array of nullable pieces, indexed directly by the
    position's row and column (so index 0 is never on the 1..8 board, yet
    resetBoard fills rows 0, 1, 6, 7 and columns 0..7). */
module ChessBoards {
  import opened Wrappers
  import opened ChessPieces

  /** The back rank in column order 0..7, as resetBoard lays it out. */
  const BackRank: seq<PieceType> := [ROOK, KNIGHT, BISHOP, QUEEN, KING, BISHOP, KNIGHT, ROOK]

  /** The array cells (r, c) other than `p` hold what they held in `before`. */
  ghost predicate SameExcept(squares: array2<ChessPiece?>, before: Grid, p: ChessPosition)
    reads squares
    requires squares.Length0 == 9 && squares.Length1 == 9 && WellFormed(before)
  {
    forall r, c :: 0 <= r < 9 && 0 <= c < 9 && (r != p.row || c != p.col) ==> squares[r, c] == before[r][c]
  }

  class ChessBoard {
    /** Never reassigned after construction; its cells are. */
    const squares: array2<ChessPiece?>

    predicate Valid()
    {
      squares.Length0 == 9 && squares.Length1 == 9
    }

    /** The board's contents as a value. */
    ghost function Cells(): (g: Grid)
      reads squares
      requires Valid()
      ensures WellFormed(g)
      ensures forall r, c :: 0 <= r < 9 && 0 <= c < 9 ==> g[r][c] == squares[r, c]
    {
      seq(9, r requires 0 <= r < 9 reads squares => seq(9, c requires 0 <= c < 9 reads squares => squares[r, c]))
    }

    /** A new board is empty. */
    constructor ()
      ensures Valid() && fresh(squares)
      ensures forall r, c :: 0 <= r < 9 && 0 <= c < 9 ==> squares[r, c] == null
    {
      squares := new ChessPiece?[9, 9]((r, c) => null);
    }

    /** addPiece: writes one cell (`null` clears it); every other cell keeps its piece. */
    method AddPiece(position: ChessPosition, piece: ChessPiece?)
      requires Valid() && InArray(position)
      modifies squares
      ensures GetPiece(position) == piece
      ensures SameExcept(squares, old(Cells()), position)
    {
      squares[position.row, position.col] := piece;
    }

    /** getPiece: the piece in the cell, or `null`. As a function it cannot
        change the board. */
    function GetPiece(position: ChessPosition): (piece: ChessPiece?)
      reads squares
      requires Valid() && InArray(position)
      ensures piece == PieceAt(Cells(), position)
    {
      squares[position.row, position.col]
    }

    /** setupRow (single type): cells (row, 0..7) receive new pieces of one
        colour and type; the rest of the array is untouched. */
    method SetupRow(row: int, color: TeamColor, pieceType: PieceType)
      requires Valid() && 0 <= row < 9
      modifies squares
      ensures forall c :: 0 <= c < 8 ==> var p := squares[row, c];
        p != null && fresh(p) && p.pieceColor == Some(color) && p.pieceType == pieceType
      ensures forall r, c :: 0 <= r < 9 && 0 <= c < 9 && !(r == row && c < 8) ==> squares[r, c] == old(squares[r, c])
    {
      for col := 0 to 8
        invariant forall c :: 0 <= c < col ==> var p := squares[row, c];
          p != null && fresh(p) && p.pieceColor == Some(color) && p.pieceType == pieceType
        invariant forall r, c :: 0 <= r < 9 && 0 <= c < 9 && !(r == row && c < col) ==> squares[r, c] == old(squares[r, c])
      {
        squares[row, col] := new ChessPiece(Some(color), pieceType);
      }
    }

    /** setupRow (one type per column): cell (row, c) receives a new piece of
        type pieces[c] for c in 0..7. The Java array argument is read only,
        so it is a sequence here. */
    method SetupRowOf(row: int, color: TeamColor, pieces: seq<PieceType>)
      requires Valid() && 0 <= row < 9 && |pieces| >= 8
      modifies squares
      ensures forall c :: 0 <= c < 8 ==> var p := squares[row, c];
        p != null && fresh(p) && p.pieceColor == Some(color) && p.pieceType == pieces[c]
      ensures forall r, c :: 0 <= r < 9 && 0 <= c < 9 && !(r == row && c < 8) ==> squares[r, c] == old(squares[r, c])
    {
      for col := 0 to 8
        invariant forall c :: 0 <= c < col ==> var p := squares[row, c];
          p != null && fresh(p) && p.pieceColor == Some(color) && p.pieceType == pieces[c]
        invariant forall r, c :: 0 <= r < 9 && 0 <= c < 9 && !(r == row && c < col) ==> squares[r, c] == old(squares[r, c])
      {
        squares[row, col] := new ChessPiece(Some(color), pieces[col]);
      }
    }

    /** resetBoard: white pawns in array row 1, black pawns in row 6, the
        white back rank in row 0 and the black one in row 7, all in columns
        0..7 and all newly created; column 8 and rows 2..5 and 8 keep what
        they held. */
    method ResetBoard()
      requires Valid()
      modifies squares
      ensures forall c :: 0 <= c < 8 ==> var p := squares[1, c];
        p != null && fresh(p) && p.pieceColor == Some(WHITE) && p.pieceType == PAWN
      ensures forall c :: 0 <= c < 8 ==> var p := squares[6, c];
        p != null && fresh(p) && p.pieceColor == Some(BLACK) && p.pieceType == PAWN
      ensures forall c :: 0 <= c < 8 ==> var p := squares[0, c];
        p != null && fresh(p) && p.pieceColor == Some(WHITE) && p.pieceType == BackRank[c]
      ensures forall c :: 0 <= c < 8 ==> var p := squares[7, c];
        p != null && fresh(p) && p.pieceColor == Some(BLACK) && p.pieceType == BackRank[c]
      ensures forall r, c :: 0 <= r < 9 && 0 <= c < 9 && !(r in {0, 1, 6, 7} && c < 8) ==> squares[r, c] == old(squares[r, c])
    {
      SetupRow(1, WHITE, PAWN);
      SetupRow(6, BLACK, PAWN);
      SetupRowOf(0, WHITE, BackRank);
      SetupRowOf(7, BLACK, BackRank);
    }

    /** resetBoard as evidently intended: the standard opening position on
        the squares getPiece and move generation use, rows and columns 1..8
        (white back rank on row 1, white pawns on row 2, black pawns on row
        7, black back rank on row 8); row 0 and column 0 are left as they
        were. */
    method ResetBoardOneBased()
      requires Valid()
      modifies squares
      ensures forall c :: 1 <= c <= 8 ==> var p := squares[1, c];
        p != null && fresh(p) && p.pieceColor == Some(WHITE) && p.pieceType == BackRank[c - 1]
      ensures forall c :: 1 <= c <= 8 ==> var p := squares[2, c];
        p != null && fresh(p) && p.pieceColor == Some(WHITE) && p.pieceType == PAWN
      ensures forall c :: 1 <= c <= 8 ==> var p := squares[7, c];
        p != null && fresh(p) && p.pieceColor == Some(BLACK) && p.pieceType == PAWN
      ensures forall c :: 1 <= c <= 8 ==> var p := squares[8, c];
        p != null && fresh(p) && p.pieceColor == Some(BLACK) && p.pieceType == BackRank[c - 1]
      ensures forall r, c :: 0 <= r < 9 && 0 <= c < 9 && !(r in {1, 2, 7, 8} && c >= 1) ==> squares[r, c] == old(squares[r, c])
    {
      var pawns := seq(8, _ => PAWN);
      SetupRank(2, WHITE, pawns);
      SetupRank(7, BLACK, pawns);
      SetupRank(1, WHITE, BackRank);
      SetupRank(8, BLACK, BackRank);
    }

    /** One rank of ResetBoardOneBased: cell (row, c) receives a new piece of
        type pieces[c - 1] for c in 1..8. */
    method SetupRank(row: int, color: TeamColor, pieces: seq<PieceType>)
      requires Valid() && 0 <= row < 9 && |pieces| >= 8
      modifies squares
      ensures forall c :: 1 <= c <= 8 ==> var p := squares[row, c];
        p != null && fresh(p) && p.pieceColor == Some(color) && p.pieceType == pieces[c - 1]
      ensures forall r, c :: 0 <= r < 9 && 0 <= c < 9 && !(r == row && c >= 1) ==> squares[r, c] == old(squares[r, c])
    {
      for col := 1 to 9
        invariant forall c :: 1 <= c < col ==> var p := squares[row, c];
          p != null && fresh(p) && p.pieceColor == Some(color) && p.pieceType == pieces[c - 1]
        invariant forall r, c :: 0 <= r < 9 && 0 <= c < 9 && !(r == row && 1 <= c < col) ==> squares[r, c] == old(squares[r, c])
      {
        squares[row, col] := new ChessPiece(Some(color), pieces[col - 1]);
      }
    }

    /** equals: true iff `o` is a board whose every cell holds the same piece
        object (Objects.deepEquals over the arrays, pieces by identity). */
    method Equals(o: ChessBoard?) returns (eq: bool)
      requires Valid() && (o != null ==> o.Valid())
      ensures eq <==> o != null && forall r, c :: 0 <= r < 9 && 0 <= c < 9 ==> squares[r, c] == o.squares[r, c]
    {
      if this == o {
        return true;
      }
      if o == null {
        return false;
      }
      for r := 0 to 9
        invariant forall i, j :: 0 <= i < r && 0 <= j < 9 ==> squares[i, j] == o.squares[i, j]
      {
        for c := 0 to 9
          invariant forall i, j :: (0 <= i < r && 0 <= j < 9) || (i == r && 0 <= j < c) ==> squares[i, j] == o.squares[i, j]
        {
          if squares[r, c] != o.squares[r, c] {
            return false;
          }
        }
      }
      return true;
    }
  }

  /** resetBoard as written, on a new board: position (1, 5), where the white
      king belongs, holds a pawn; position (8, 1), where a black rook
      belongs, is empty; and array cell (0, 0), which no position on the
      board reaches, holds a piece. */
  method ResetBoardMisplacesPieces() returns (board: ChessBoard)
    ensures board.Valid()
    ensures board.GetPiece(ChessPosition(1, 5)) != null && board.GetPiece(ChessPosition(1, 5)).pieceType == PAWN
    ensures board.GetPiece(ChessPosition(8, 1)) == null
    ensures board.GetPiece(ChessPosition(0, 0)) != null && !OnBoard(ChessPosition(0, 0))
  {
    board := new ChessBoard();
    board.ResetBoard();
  }

  /** The corrected reset, on a new board: the white king stands on (1, 5)
      and a black rook on (8, 1), and no piece is left off the 1..8 board. */
  method ResetBoardOneBasedPlacesPieces() returns (board: ChessBoard)
    ensures board.Valid()
    ensures board.GetPiece(ChessPosition(1, 5)) != null && board.GetPiece(ChessPosition(1, 5)).pieceType == KING
    ensures board.GetPiece(ChessPosition(1, 5)).pieceColor == Some(WHITE)
    ensures board.GetPiece(ChessPosition(8, 1)) != null && board.GetPiece(ChessPosition(8, 1)).pieceType == ROOK
    ensures board.GetPiece(ChessPosition(8, 1)).pieceColor == Some(BLACK)
    ensures forall r, c :: 0 <= r < 9 && 0 <= c < 9 && !IsValidPosition(r, c) ==> board.squares[r, c] == null
  {
    board := new ChessBoard();
    board.ResetBoardOneBased();
  }
}
