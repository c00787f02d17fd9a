/** The value types of the chess engine (team colours, piece types, positions,
    moves), the piece class, and the pseudo-legal movement rules of a piece,
    stated as functions over a snapshot of the board (a `Grid`). */
module ChessPieces {
  import opened Wrappers

  /** ChessGame.TeamColor. */
  datatype TeamColor = WHITE | BLACK

  /** ChessPiece.PieceType. */
  datatype PieceType = KING | QUEEN | BISHOP | KNIGHT | ROOK | PAWN

  /** A square: row and column as the engine passes them around (1..8 on the
      board, although the board array itself has indices 0..8). */
  datatype ChessPosition = ChessPosition(row: int, col: int)

  /** A move: start, end and the optional promotion piece type. */
  datatype ChessMove = ChessMove(start: ChessPosition, end: ChessPosition, promotion: Option<PieceType>)

  /** A piece. Java compares pieces by identity (there is no `equals`), so a
      piece is an object; its two fields never change after construction.
      The colour is a nullable reference in Java: `makeMove` creates promoted
      pieces with the colour `teamTurn`, which starts out `null`. */
  class ChessPiece {
    const pieceColor: Option<TeamColor>
    const pieceType: PieceType

    constructor (pieceColor: Option<TeamColor>, pieceType: PieceType)
      ensures this.pieceColor == pieceColor && this.pieceType == pieceType
    {
      this.pieceColor := pieceColor;
      this.pieceType := pieceType;
    }

    function GetTeamColor(): Option<TeamColor>
    {
      pieceColor
    }

    function GetPieceType(): PieceType
    {
      pieceType
    }
  }

  /** A snapshot of the 9x9 `squares` array of a board, rows first. */
  type Grid = seq<seq<ChessPiece?>>

  predicate WellFormed(g: Grid)
  {
    |g| == 9 && forall r :: 0 <= r < 9 ==> |g[r]| == 9
  }

  /** The position indexes the 9x9 array (Java would throw otherwise). */
  predicate InArray(p: ChessPosition)
  {
    0 <= p.row < 9 && 0 <= p.col < 9
  }

  function PieceAt(g: Grid, p: ChessPosition): ChessPiece?
    requires WellFormed(g) && InArray(p)
  {
    g[p.row][p.col]
  }

  /** Two grids with the same cells are the same grid. */
  lemma GridExt(g: Grid, h: Grid)
    requires WellFormed(g) && WellFormed(h)
    requires forall r, c :: 0 <= r < 9 && 0 <= c < 9 ==> g[r][c] == h[r][c]
    ensures g == h
  {
    forall r | 0 <= r < 9
      ensures g[r] == h[r]
    {
    }
  }

  /** ChessPiece.isValidPosition: both coordinates in 1..8. A valid
      position indexes the 9x9 array and never falls in its unused row 0 or
      column 0. */
  predicate IsValidPosition(row: int, col: int): (valid: bool)
    ensures valid ==> InArray(ChessPosition(row, col)) && row != 0 && col != 0
  {
    1 <= row <= 8 && 1 <= col <= 8
  }

  predicate OnBoard(p: ChessPosition)
  {
    IsValidPosition(p.row, p.col)
  }

  /** An on-board square that a piece of colour `color` may move to: it is
      empty or holds a piece whose colour differs. */
  predicate Enterable(g: Grid, color: Option<TeamColor>, p: ChessPosition)
    requires WellFormed(g)
  {
    OnBoard(p) && (PieceAt(g, p) == null || PieceAt(g, p).pieceColor != color)
  }

  predicate EmptySquare(g: Grid, p: ChessPosition)
    requires WellFormed(g)
  {
    OnBoard(p) && PieceAt(g, p) == null
  }

  /** The direction tables of bishopMoves and kingMoves, in their order. */
  const BishopRowDirections: seq<int> := [1, -1, -1, 1]
  const BishopColDirections: seq<int> := [1, 1, -1, -1]
  const KingRowDirections: seq<int> := [-1, -1, -1, 0, 0, 1, 1, 1]
  const KingColDirections: seq<int> := [0, 1, -1, 1, -1, 0, 1, -1]

  predicate UnitStep(d: int)
  {
    d == 1 || d == -1
  }

  /** x + k * d for a unit step d, written without multiplication. */
  function Off(x: int, d: int, k: int): int
  {
    if d > 0 then x + k else x - k
  }

  /** The square k steps from `from` in direction (dr, dc). */
  function Along(from: ChessPosition, dr: int, dc: int, k: int): ChessPosition
  {
    ChessPosition(Off(from.row, dr, k), Off(from.col, dc, k))
  }

  /** The squares at distances lo .. hi-1 along the direction are on the board and empty. */
  predicate ClearBetween(g: Grid, from: ChessPosition, dr: int, dc: int, lo: int, hi: int)
    requires WellFormed(g)
  {
    forall t :: lo <= t < hi ==> EmptySquare(g, Along(from, dr, dc, t))
  }

  /** The moves one iteration of bishopMoves' `while (true)` loop emits from
      distance k on: empty squares are emitted and the walk goes on; the first
      occupied square is emitted if its piece has another colour; the walk
      stops there or at the edge. */
  function Ray(g: Grid, color: Option<TeamColor>, from: ChessPosition, dr: int, dc: int, k: int): seq<ChessMove>
    requires WellFormed(g) && UnitStep(dr)
    decreases if dr > 0 then 9 - from.row - k else from.row - k
  {
    var p := Along(from, dr, dc, k);
    if !OnBoard(p) then []
    else if PieceAt(g, p) == null then [ChessMove(from, p, None)] + Ray(g, color, from, dr, dc, k + 1)
    else if PieceAt(g, p).pieceColor != color then [ChessMove(from, p, None)]
    else []
  }

  /** The rays of the first n bishop directions, in the order they are emitted. */
  function BishopRays(g: Grid, color: Option<TeamColor>, from: ChessPosition, n: nat): seq<ChessMove>
    requires WellFormed(g) && n <= 4
  {
    if n == 0 then []
    else BishopRays(g, color, from, n - 1) + Ray(g, color, from, BishopRowDirections[n - 1], BishopColDirections[n - 1], 1)
  }

  /** What bishopMoves returns for a bishop of colour `color` at `from`. */
  function BishopMovesSpec(g: Grid, color: Option<TeamColor>, from: ChessPosition): seq<ChessMove>
    requires WellFormed(g)
  {
    BishopRays(g, color, from, 4)
  }

  function KingTarget(from: ChessPosition, i: nat): ChessPosition
    requires i < 8
  {
    ChessPosition(from.row + KingRowDirections[i], from.col + KingColDirections[i])
  }

  /** The moves kingMoves emits for its first n offsets. */
  function KingSteps(g: Grid, color: Option<TeamColor>, from: ChessPosition, n: nat): (ms: seq<ChessMove>)
    requires WellFormed(g) && n <= 8
    ensures |ms| <= n
  {
    if n == 0 then []
    else
      var p := KingTarget(from, n - 1);
      KingSteps(g, color, from, n - 1) + (if Enterable(g, color, p) then [ChessMove(from, p, None)] else [])
  }

  /** What kingMoves returns for a king of colour `color` at `from`. */
  function KingMovesSpec(g: Grid, color: Option<TeamColor>, from: ChessPosition): seq<ChessMove>
    requires WellFormed(g)
  {
    KingSteps(g, color, from, 8)
  }

  /** What pieceMoves returns: only bishops and kings have moves. */
  function PieceMovesSpec(g: Grid, piece: ChessPiece, from: ChessPosition): seq<ChessMove>
    requires WellFormed(g)
  {
    match piece.pieceType
    case BISHOP => BishopMovesSpec(g, piece.pieceColor, from)
    case KING => KingMovesSpec(g, piece.pieceColor, from)
    case _ => []
  }

  // ---------------------------------------------------------------------
  // Properties of the movement rules
  // ---------------------------------------------------------------------

  /** Clearing extends by one empty square in front, and shrinks from the front. */
  lemma ClearCons(g: Grid, from: ChessPosition, dr: int, dc: int, k: int, j: int)
    requires WellFormed(g) && EmptySquare(g, Along(from, dr, dc, k)) && ClearBetween(g, from, dr, dc, k + 1, j)
    ensures ClearBetween(g, from, dr, dc, k, j)
  {
  }

  lemma ClearTail(g: Grid, from: ChessPosition, dr: int, dc: int, k: int, j: int)
    requires WellFormed(g) && ClearBetween(g, from, dr, dc, k, j)
    ensures ClearBetween(g, from, dr, dc, k + 1, j)
  {
  }

  /** A ray from distance k emits exactly the moves to squares at some
      distance j >= k whose predecessors (from k on) are empty and which are
      themselves empty or hold an opposing piece. */
  lemma {:induction false} RayMembers(g: Grid, color: Option<TeamColor>, from: ChessPosition, dr: int, dc: int, k: int, m: ChessMove)
    requires WellFormed(g) && UnitStep(dr)
    ensures m in Ray(g, color, from, dr, dc, k) <==>
      m.start == from && m.promotion == None &&
      exists j :: k <= j && m.end == Along(from, dr, dc, j) && ClearBetween(g, from, dr, dc, k, j) && Enterable(g, color, m.end)
    decreases if dr > 0 then 9 - from.row - k else from.row - k
  {
    var p := Along(from, dr, dc, k);
    if !OnBoard(p) || PieceAt(g, p) != null {
      // Ray emits at most the move to p, and nothing beyond it is clear.
      if exists j :: k <= j && m.end == Along(from, dr, dc, j) && ClearBetween(g, from, dr, dc, k, j) && Enterable(g, color, m.end) {
        var j :| k <= j && m.end == Along(from, dr, dc, j) && ClearBetween(g, from, dr, dc, k, j) && Enterable(g, color, m.end);
        if j > k {
          assert EmptySquare(g, p);
        }
      }
    } else {
      assert Ray(g, color, from, dr, dc, k) == [ChessMove(from, p, None)] + Ray(g, color, from, dr, dc, k + 1);
      RayMembers(g, color, from, dr, dc, k + 1, m);
      if m.start == from && m.promotion == None && exists j :: k <= j && m.end == Along(from, dr, dc, j) && ClearBetween(g, from, dr, dc, k, j) && Enterable(g, color, m.end) {
        var j :| k <= j && m.end == Along(from, dr, dc, j) && ClearBetween(g, from, dr, dc, k, j) && Enterable(g, color, m.end);
        if j > k {
          ClearTail(g, from, dr, dc, k, j);
        }
      }
      if m in Ray(g, color, from, dr, dc, k + 1) {
        var j :| k + 1 <= j && m.end == Along(from, dr, dc, j) && ClearBetween(g, from, dr, dc, k + 1, j) && Enterable(g, color, m.end);
        ClearCons(g, from, dr, dc, k, j);
      }
      if m == ChessMove(from, p, None) {
        assert ClearBetween(g, from, dr, dc, k, k);
      }
    }
  }

  /** The first n bishop rays together emit exactly the moves of each ray. */
  lemma {:induction false} BishopRaysMembers(g: Grid, color: Option<TeamColor>, from: ChessPosition, n: nat, m: ChessMove)
    requires WellFormed(g) && n <= 4
    ensures m in BishopRays(g, color, from, n) <==>
      exists i :: 0 <= i < n && m in Ray(g, color, from, BishopRowDirections[i], BishopColDirections[i], 1)
  {
    if n > 0 {
      BishopRaysMembers(g, color, from, n - 1, m);
    }
  }

  /** Bishop moves, exactly: from `from`, no promotion, ending k >= 1 steps
      along one of the four diagonals, with every square before the end empty
      and the end empty or opposing. The "if" direction says that every empty
      square up to the first blocker, and an opposing first blocker, are
      emitted; the "only if" direction says nothing beyond a blocker is. */
  lemma BishopMoveIff(g: Grid, color: Option<TeamColor>, from: ChessPosition, m: ChessMove)
    requires WellFormed(g)
    ensures m in BishopMovesSpec(g, color, from) <==>
      m.start == from && m.promotion == None &&
      exists i, k :: 0 <= i < 4 && 1 <= k && m.end == Along(from, BishopRowDirections[i], BishopColDirections[i], k) &&
        ClearBetween(g, from, BishopRowDirections[i], BishopColDirections[i], 1, k) && Enterable(g, color, m.end)
  {
    BishopRaysMembers(g, color, from, 4, m);
    forall i | 0 <= i < 4
      ensures m in Ray(g, color, from, BishopRowDirections[i], BishopColDirections[i], 1) <==>
        m.start == from && m.promotion == None &&
        exists k :: 1 <= k && m.end == Along(from, BishopRowDirections[i], BishopColDirections[i], k) &&
          ClearBetween(g, from, BishopRowDirections[i], BishopColDirections[i], 1, k) && Enterable(g, color, m.end)
    {
      RayMembers(g, color, from, BishopRowDirections[i], BishopColDirections[i], 1, m);
    }
  }

  function Abs(x: int): nat
  {
    if x < 0 then -x else x
  }

  function Sign(x: int): int
  {
    if x < 0 then -1 else 1
  }

  /** Geometry of a bishop move: |drow| = |dcol| >= 1 and every square
      strictly between start and end is empty. */
  lemma BishopGeometry(g: Grid, color: Option<TeamColor>, from: ChessPosition, m: ChessMove)
    requires WellFormed(g) && m in BishopMovesSpec(g, color, from)
    ensures m.start == from && m.promotion == None && Enterable(g, color, m.end)
    ensures Abs(m.end.row - from.row) == Abs(m.end.col - from.col) >= 1
    ensures ClearBetween(g, from, Sign(m.end.row - from.row), Sign(m.end.col - from.col), 1, Abs(m.end.row - from.row))
  {
    BishopMoveIff(g, color, from, m);
    var i, k :| 0 <= i < 4 && 1 <= k && m.end == Along(from, BishopRowDirections[i], BishopColDirections[i], k) &&
      ClearBetween(g, from, BishopRowDirections[i], BishopColDirections[i], 1, k) && Enterable(g, color, m.end);
    assert Abs(m.end.row - from.row) == k;
    assert Sign(m.end.row - from.row) == BishopRowDirections[i];
    assert Sign(m.end.col - from.col) == BishopColDirections[i];
  }

  /** The first n king offsets emit exactly the moves to their enterable targets. */
  lemma {:induction false} KingStepsMembers(g: Grid, color: Option<TeamColor>, from: ChessPosition, n: nat, m: ChessMove)
    requires WellFormed(g) && n <= 8
    ensures m in KingSteps(g, color, from, n) <==>
      exists i :: 0 <= i < n && m == ChessMove(from, KingTarget(from, i), None) && Enterable(g, color, KingTarget(from, i))
  {
    if n > 0 {
      var p := KingTarget(from, n - 1);
      var tail := if Enterable(g, color, p) then [ChessMove(from, p, None)] else [];
      assert KingSteps(g, color, from, n) == KingSteps(g, color, from, n - 1) + tail;
      KingStepsMembers(g, color, from, n - 1, m);
      if m in KingSteps(g, color, from, n) && m !in KingSteps(g, color, from, n - 1) {
        assert m == ChessMove(from, p, None) && Enterable(g, color, p);
      }
      if exists i :: 0 <= i < n && m == ChessMove(from, KingTarget(from, i), None) && Enterable(g, color, KingTarget(from, i)) {
        var i :| 0 <= i < n && m == ChessMove(from, KingTarget(from, i), None) && Enterable(g, color, KingTarget(from, i));
        if i == n - 1 {
          assert m in tail;
        }
      }
    }
  }

  /** The eight king offsets are exactly the eight neighbouring displacements. */
  lemma KingOffsets(dr: int, dc: int)
    ensures (-1 <= dr <= 1 && -1 <= dc <= 1 && (dr, dc) != (0, 0)) <==>
      exists i :: 0 <= i < 8 && dr == KingRowDirections[i] && dc == KingColDirections[i]
  {
    if -1 <= dr <= 1 && -1 <= dc <= 1 && (dr, dc) != (0, 0) {
      var i :=
        if dr == -1 then (if dc == 0 then 0 else if dc == 1 then 1 else 2)
        else if dr == 0 then (if dc == 1 then 3 else 4)
        else (if dc == 0 then 5 else if dc == 1 then 6 else 7);
      assert dr == KingRowDirections[i] && dc == KingColDirections[i];
    }
  }

  /** King moves, exactly: from `from`, no promotion, to an enterable square
      at most one step away in each coordinate and not `from` itself; and
      there are at most eight of them. */
  lemma KingMoveIff(g: Grid, color: Option<TeamColor>, from: ChessPosition, m: ChessMove)
    requires WellFormed(g)
    ensures m in KingMovesSpec(g, color, from) <==>
      m.start == from && m.promotion == None && Enterable(g, color, m.end) &&
      -1 <= m.end.row - from.row <= 1 && -1 <= m.end.col - from.col <= 1 && m.end != from
    ensures |KingMovesSpec(g, color, from)| <= 8
  {
    KingStepsMembers(g, color, from, 8, m);
    var dr, dc := m.end.row - from.row, m.end.col - from.col;
    KingOffsets(dr, dc);
    if m.start == from && m.promotion == None && Enterable(g, color, m.end) && -1 <= dr <= 1 && -1 <= dc <= 1 && m.end != from {
      var i :| 0 <= i < 8 && dr == KingRowDirections[i] && dc == KingColDirections[i];
      assert m == ChessMove(from, KingTarget(from, i), None);
    }
  }

  /** Every pseudo-legal move starts at `from`, carries no promotion and ends
      on an on-board square that holds no piece of the mover's colour; pieces
      other than bishops and kings have none. */
  lemma PieceMovesSound(g: Grid, piece: ChessPiece, from: ChessPosition)
    requires WellFormed(g)
    ensures forall m :: m in PieceMovesSpec(g, piece, from) ==>
      m.start == from && m.promotion == None && OnBoard(m.end) &&
      (PieceAt(g, m.end) == null || PieceAt(g, m.end).pieceColor != piece.pieceColor)
    ensures piece.pieceType !in {BISHOP, KING} ==> PieceMovesSpec(g, piece, from) == []
  {
    forall m | m in PieceMovesSpec(g, piece, from)
      ensures m.start == from && m.promotion == None && Enterable(g, piece.pieceColor, m.end)
    {
      if piece.pieceType == BISHOP {
        BishopMoveIff(g, piece.pieceColor, from, m);
      } else {
        KingMoveIff(g, piece.pieceColor, from, m);
      }
    }
  }
}
