# Chess engine and in-memory server stores, modelled in Dafny

This project models two parts of a small Java chess application:

- **The engine** (`chess` package). A `ChessBoard` is a 9x9 array of nullable
  pieces, indexed directly by a position's row and column. A `ChessPiece` has a
  colour and a type and generates pseudo-legal moves. Only bishops (sliding
  along the four diagonals) and kings (one step in eight directions) have
  moves. A `ChessGame` owns one board and a turn flag. It applies moves
  without any legality check, copies boards, finds a team's king, decides
  whether a team is in check and filters a piece's moves down to those that
  keep its own king safe.
- **The server's in-memory stores and user service** (`dataaccess` and `service`
  packages). `MemoryGameDAO` keeps games in a map by id and in a list, with
  ids from an int counter that starts at 1234. `MemoryAuthDAO` maps session
  tokens to sessions and `MemoryUserDAO` maps usernames to users.
  `UserService` handles registration, login, logout and session lookup over
  one user store and one auth store.

The Java classes whose fields change in place are Dafny classes below: the
board (an `array2`), the game (`teamTurn`), the three stores (a `map`, and a
`seq` for the game list) and the service. Each method is proved against a
specification. Either its `ensures` states the new state and result
outright, or it ties the result to a pure function over a snapshot of the
board (`ChessBoard.Cells()`, a `Grid`). The properties the game promises are
then proved about those functions as lemmas: the exact shape of bishop and
king moves, "in check" as an existential statement about attacking pieces,
the last-king rule of the king search, and the safe-move filter. The stores
and the service carry invariants that their operations preserve. One example
is that the game map and the game list hold the same games. Another is that
every session belongs to a registered user.

Files and modules: `wrappers.dfy` (`Wrappers`: `Option` for Java's `null`,
`Result` and `Outcome` for calls that may throw), `chess_piece.dfy`
(`ChessPieces`), `chess_board.dfy` (`ChessBoards`), `piece_moves.dfy`
(`MoveGeneration`), `chess_game.dfy` (`ChessGames`), `models.dfy` (`Models`),
`memory_game_dao.dfy` (`MemoryGames`), `memory_auth_dao.dfy` (`MemoryAuths`),
`memory_user_dao.dfy` (`MemoryUsers`), `user_service.dfy` (`Users`).

Modelling decisions:

- `ChessPiece` has no `equals`, so in Java pieces compare by identity. They
  are objects here too, with `const` fields. `ChessBoard.equals` compares the
  arrays cell by cell with those identities.
- A piece's colour and the game's `teamTurn` are `Option<TeamColor>`.
  `teamTurn` starts as `null`, and `makeMove` builds a promoted piece with
  colour `teamTurn`.
- In Java, `pieceMoves`, `bishopMoves` and `kingMoves` are methods of
  `ChessPiece` that take a `ChessBoard`. The board module already imports the
  piece module, and Dafny modules cannot import each other in a cycle. So
  these three live in `MoveGeneration` and take the piece as their first
  parameter.
- Positions passed to board accesses must index the 9x9 array (`InArray`,
  indices 0..8). Java would throw `ArrayIndexOutOfBoundsException` for any
  other position, and that exception is not modelled.
- Java's `int` counter in `MemoryGameDAO` is modelled with its wrap-around
  (`MemoryGames.Increment`).
- `MemoryAuthDAO.createAuth` draws a random UUID. Here the token is a
  parameter of `CreateAuth`, `RegisterUser` and `LoginUser`.

Where the code and its documented intent disagree, the model follows the code
except in these places. The unfinished check machinery of `ChessGame`
(`validMoves`, `checkMoves`, `checkOpponentMove`) does not compile or cannot
work as written, so it is modelled by the intent its comments state. In
`UserService`, `getAuth(auth)` and `logoutUser` pass an `AuthData` to
`MemoryAuthDAO.getAuth(String)`, which also does not compile. They are
modelled as looking up `auth.authToken`. Each departure is listed under
"Left out".

## Model

| member | source | states |
|---|---|---|
| `ChessPieces.ChessPiece.constructor` | shared/src/main/java/chess/ChessPiece.java:19-22 | the piece carries the given colour and type, which its getters return (lines 39-48) |
| `ChessPieces.IsValidPosition` | shared/src/main/java/chess/ChessPiece.java:105-107 | a position accepted as valid (1..8 in both coordinates) indexes the 9x9 array and never touches its unused row 0 or column 0 |
| `ChessPieces.RayMembers` | shared/src/main/java/chess/ChessPiece.java:83-99 | one diagonal walk emits a move to a square exactly when every square before it on the walk is empty and the square is empty or holds an opposing piece |
| `ChessPieces.BishopRaysMembers` | shared/src/main/java/chess/ChessPiece.java:76-101 | the moves of the first n directions are exactly those of each direction's walk |
| `ChessPieces.BishopMoveIff` | shared/src/main/java/chess/ChessPiece.java:72-103 | bishop moves are exactly the moves from the start, without promotion, k >= 1 steps along a diagonal, with all earlier squares empty and the end empty or opposing: every empty square up to the first blocker is emitted, an opposing blocker is emitted, nothing beyond it is |
| `ChessPieces.BishopGeometry` | shared/src/main/java/chess/ChessPiece.java:74-101 | a bishop move has abs(drow) = abs(dcol) >= 1 and every square strictly between its start and end is empty |
| `ChessPieces.KingStepsMembers` | shared/src/main/java/chess/ChessPiece.java:113-129 | the first n offsets emit exactly the moves to their enterable targets |
| `ChessPieces.KingOffsets` | shared/src/main/java/chess/ChessPiece.java:113-114 | the two offset tables list exactly the eight displacements of at most one in each coordinate, not both zero |
| `ChessPieces.KingMoveIff` | shared/src/main/java/chess/ChessPiece.java:109-130 | king moves are exactly the moves from the start, without promotion, to an enterable square at most one step away in each coordinate and not the start square; there are at most eight |
| `ChessPieces.PieceMovesSound` | shared/src/main/java/chess/ChessPiece.java:65-70 | every pseudo-legal move starts at the given square, has no promotion, ends on a square in 1..8 x 1..8 that holds no piece of the mover's colour; queens, knights, rooks and pawns have no moves |
| `MoveGeneration.PieceMoves` | shared/src/main/java/chess/ChessPiece.java:65-70 | dispatches on the type and returns exactly the rule function's moves for the board's contents |
| `MoveGeneration.BishopMoves` | shared/src/main/java/chess/ChessPiece.java:72-103 | the four `while (true)` walks return exactly the bishop rule's moves, in direction order |
| `MoveGeneration.KingMoves` | shared/src/main/java/chess/ChessPiece.java:109-130 | the offset loop returns exactly the king rule's moves, in table order |
| `ChessBoards.ChessBoard.constructor` | shared/src/main/java/chess/ChessBoard.java:13 | a new board is a 9x9 array with every cell empty |
| `ChessBoards.ChessBoard.AddPiece` | shared/src/main/java/chess/ChessBoard.java:24-26 | afterwards getPiece returns the given piece (possibly null) and every other cell is unchanged |
| `ChessBoards.ChessBoard.GetPiece` | shared/src/main/java/chess/ChessBoard.java:48-50 | the piece reference (or null) in the indexed cell of the board's contents; reading changes nothing |
| `ChessBoards.ChessBoard.SetupRow` | shared/src/main/java/chess/ChessBoard.java:72-76 | columns 0..7 of the row receive new pieces of the colour and type; nothing else changes |
| `ChessBoards.ChessBoard.SetupRowOf` | shared/src/main/java/chess/ChessBoard.java:78-82 | column c of the row, for c in 0..7, receives a new piece of type pieces[c]; nothing else changes |
| `ChessBoards.ChessBoard.ResetBoard` | shared/src/main/java/chess/ChessBoard.java:56-70 | array rows 1 and 6 (columns 0..7) hold new white and black pawns, rows 0 and 7 the white and black back ranks ROOK KNIGHT BISHOP QUEEN KING BISHOP KNIGHT ROOK; column 8 and rows 2-5 and 8 are unchanged |
| `ChessBoards.ChessBoard.ResetBoardOneBased` | shared/src/main/java/chess/ChessBoard.java:56-82 | the corrected reset: back ranks on rows 1 and 8 and pawns on rows 2 and 7, in columns 1..8, all new; row 0 and column 0 unchanged |
| `ChessBoards.ChessBoard.SetupRank` | shared/src/main/java/chess/ChessBoard.java:78-82 | the corrected row setup: column c in 1..8 receives a new piece of type pieces[c - 1]; nothing else changes |
| `ChessBoards.ChessBoard.Equals` | shared/src/main/java/chess/ChessBoard.java:28-34 | true exactly when the other board is not null and every cell holds the same piece object |
| `ChessBoards.ResetBoardMisplacesPieces` | shared/src/main/java/chess/ChessBoard.java:56-70 | after resetBoard on a new board, position (1, 5) holds a pawn, (8, 1) is empty and cell (0, 0), off the board, holds a piece |
| `ChessBoards.ResetBoardOneBasedPlacesPieces` | shared/src/main/java/chess/ChessBoard.java:56-70 | after the corrected reset on a new board, the white king is on (1, 5), a black rook on (8, 1), and no cell off the 1..8 board holds a piece |
| `ChessGames.KingScanSpec` | shared/src/main/java/chess/ChessGame.java:125-138 | at every point of the row/column scan, the result is the last king of the colour visited so far, or none when none was visited |
| `ChessGames.KingPositionIsLast` | shared/src/main/java/chess/ChessGame.java:125-138 | kingPosition is null iff no square in 1..8 x 1..8 holds a king of the colour; otherwise it is such a square and no later square in row-major order holds one |
| `ChessGames.FirstHitSpec` | shared/src/main/java/chess/ChessGame.java:149-155 | the inner search finds nothing iff no move ends on the king's square; what it finds is one of the moves and ends there |
| `ChessGames.AttackFromNonEmpty` | shared/src/main/java/chess/ChessGame.java:144-157 | a square contributes to the opponent collection iff it holds a piece of another colour with a pseudo-legal move ending on the king's square |
| `ChessGames.AttacksEmptyIff` | shared/src/main/java/chess/ChessGame.java:140-161 | the collection built so far is empty iff no square visited so far contributes a move |
| `ChessGames.InCheckIff` | shared/src/main/java/chess/ChessGame.java:111-123 | a team is in check iff it has a king on the board and some piece of another colour has a pseudo-legal move ending on that king's square |
| `ChessGames.SafeMovesIff` | shared/src/main/java/chess/ChessGame.java:71-91 | the filter keeps a move iff it is in the input and, made on a scratch copy, leaves the team's king not in check |
| `ChessGames.ValidMovesAreSafePseudoLegal` | shared/src/main/java/chess/ChessGame.java:43-69 | the valid moves are exactly the piece's pseudo-legal moves that keep its own king out of check, so a subset of pieceMoves, each starting at the piece's square and ending on the board |
| `ChessGames.ChessGame.constructor` | shared/src/main/java/chess/ChessGame.java:13-17 | a new game has a new, empty board and no team to move |
| `ChessGames.ChessGame.GetTeamTurn` | shared/src/main/java/chess/ChessGame.java:22-24 | the turn flag as the constructor, `setTeamTurn` or `validMoves` last left it (None at first) |
| `ChessGames.ChessGame.GetBoard` | shared/src/main/java/chess/ChessGame.java:216-218 | the game's own live board object, not a copy, so changes through it are changes to the game |
| `ChessGames.ChessGame.SetTeamTurn` | shared/src/main/java/chess/ChessGame.java:31-33 | the turn flag becomes the given team and nothing else changes |
| `ChessGames.ChessGame.MakeMove` | shared/src/main/java/chess/ChessGame.java:99-108 | with no legality check: the start square is emptied; the end square receives the start square's piece, or for a promotion a new piece of colour teamTurn and the promotion type; every other square and teamTurn are unchanged |
| `ChessGames.ChessGame.SetBoard` | shared/src/main/java/chess/ChessGame.java:189-197 | afterwards the game's board agrees with the given board on every square of 1..8 x 1..8 (even when the two are the same object) and keeps its other cells |
| `ChessGames.ChessGame.CopyBoard` | shared/src/main/java/chess/ChessGame.java:199-209 | returns a new board that agrees with the given one on 1..8 x 1..8 and is empty elsewhere; the given board is unchanged |
| `ChessGames.ChessGame.KingPositionOn` | shared/src/main/java/chess/ChessGame.java:125-138 | the nested scan returns exactly the last king of the colour (see KingPositionIsLast) |
| `ChessGames.ChessGame.CheckOpponentMove` | shared/src/main/java/chess/ChessGame.java:140-161 | returns, square by square in row-major order, the first move of each opposing piece that ends on the king's square |
| `ChessGames.ChessGame.IsInCheck` | shared/src/main/java/chess/ChessGame.java:117-123 | true exactly when the team is in check on the game's board (see InCheckIff) |
| `ChessGames.ChessGame.CheckMoves` | shared/src/main/java/chess/ChessGame.java:71-91 | returns, in order, the pseudo-legal moves of the piece after which the team's king on a scratch copy is not in check; the given board is unchanged |
| `ChessGames.ChessGame.FilterSafe` | shared/src/main/java/chess/ChessGame.java:76-88 | the loop over the pseudo-legal moves keeps, in their order, exactly those whose trial on a scratch copy leaves the team's king not in check |
| `ChessGames.ChessGame.TryMove` | shared/src/main/java/chess/ChessGame.java:77-87 | makes the move on a fresh copy and reports that the team's king there is not in check, the safe-move test |
| `ChessGames.ChessGame.ValidMoves` | shared/src/main/java/chess/ChessGame.java:43-69 | null for an empty square, with the turn flag unchanged; otherwise the turn flag becomes the piece's colour and the result is its safe pseudo-legal moves |
| `MemoryGames.Increment` | server/src/main/java/dataaccess/MemoryGameDAO.java:17 | the counter's `++` stays a Java int: one more below the largest int, the smallest int after it |
| `MemoryGames.FirstIndexWithId` | server/src/main/java/dataaccess/MemoryGameDAO.java:56-61 | the loop's search: -1 iff no listed game has the id, otherwise the first index of a game with it |
| `MemoryGames.RemoveFirst` | server/src/main/java/dataaccess/MemoryGameDAO.java:64 | List.remove shortens the list by one when the element is present and leaves it unchanged otherwise |
| `MemoryGames.RemoveFirstAt` | server/src/main/java/dataaccess/MemoryGameDAO.java:56-64 | removing the element first found at index k leaves the list without index k, order kept |
| `MemoryGames.UpdatedListReplaces` | server/src/main/java/dataaccess/MemoryGameDAO.java:53-67 | updateGames keeps the list's length; with no game of the id the list is unchanged, otherwise the new game is last and the matching game is traded for it |
| `MemoryGames.CreateKeepsMirror` | server/src/main/java/dataaccess/MemoryGameDAO.java:17-20 | storing a game under an unused id in both the map and the list keeps the two holding the same games |
| `MemoryGames.JoinKeepsMirror` | server/src/main/java/dataaccess/MemoryGameDAO.java:37-44 | replacing a stored game in the map and through updateGames in the list keeps the two holding the same games |
| `MemoryGames.TakeSeat` | server/src/main/java/dataaccess/MemoryGameDAO.java:37-47 | BLACK or WHITE with that seat empty puts the user in it and keeps id, name, game and the other seat; any other colour or a taken seat is 403 "Error: already taken" |
| `MemoryGames.MemoryGameDAO.constructor` | server/src/main/java/dataaccess/MemoryGameDAO.java:11-13 | the counter starts at 1234 with no games |
| `MemoryGames.MemoryGameDAO.CreateGame` | server/src/main/java/dataaccess/MemoryGameDAO.java:16-21 | the new game has the counter's value as id, empty seats, the given name and a new ChessGame; it is stored in the map and appended to the list; the counter is incremented as a Java int; ids stay in [1234, counter) until it wraps, and the map and list stay in step while they do |
| `MemoryGames.MemoryGameDAO.GetGame` | server/src/main/java/dataaccess/MemoryGameDAO.java:24-26 | the stored game for a known id, null otherwise; with the stores in step, a found game is listed and has that id |
| `MemoryGames.MemoryGameDAO.ListGames` | server/src/main/java/dataaccess/MemoryGameDAO.java:29-31 | with the stores in step, the list holds exactly the stored games |
| `MemoryGames.MemoryGameDAO.JoinGame` | server/src/main/java/dataaccess/MemoryGameDAO.java:34-51 | unknown id is 400 "Error: bad request" and a refused seat is 403, both changing nothing; otherwise the seated game replaces the old one in the map and through updateGames in the list; ids and the in-step invariants are kept |
| `MemoryGames.MemoryGameDAO.UpdateGames` | server/src/main/java/dataaccess/MemoryGameDAO.java:53-67 | the list afterwards is the old list with the first game of the id removed and the new game appended, or unchanged when no game has the id |
| `MemoryGames.MemoryGameDAO.Clear` | server/src/main/java/dataaccess/MemoryGameDAO.java:69-72 | the map and the list become empty; the counter is not reset |
| `MemoryAuths.MemoryAuthDAO.constructor` | server/src/main/java/dataaccess/MemoryAuthDAO.java:11 | a new store has no sessions |
| `MemoryAuths.MemoryAuthDAO.CreateAuth` | server/src/main/java/dataaccess/MemoryAuthDAO.java:14-20 | stores and returns AuthData(token, username) under the token, which getAuth then finds; every other token keeps its session |
| `MemoryAuths.MemoryAuthDAO.GetAuth` | server/src/main/java/dataaccess/MemoryAuthDAO.java:23-25 | the session stored under the token, whose token it is, or null when absent |
| `MemoryAuths.MemoryAuthDAO.DeleteAuth` | server/src/main/java/dataaccess/MemoryAuthDAO.java:28-30 | removes only that token, a no-op when absent; getAuth then finds nothing |
| `MemoryAuths.MemoryAuthDAO.Clear` | server/src/main/java/dataaccess/MemoryAuthDAO.java:32-34 | the store becomes empty |
| `MemoryUsers.MemoryUserDAO.constructor` | server/src/main/java/dataaccess/MemoryUserDAO.java:9 | a new store has no users |
| `MemoryUsers.MemoryUserDAO.CreateUser` | server/src/main/java/dataaccess/MemoryUserDAO.java:12-14 | stores the user under its name, replacing any earlier entry; reading it back with its password returns the same user (the round trip of server/src/test/java/dataaccessTests/DataAccessTest.java:11-16) |
| `MemoryUsers.MemoryUserDAO.GetUser` | server/src/main/java/dataaccess/MemoryUserDAO.java:17-26 | null for an unknown name; a stored null password throws a NullPointerException; a different password is 401 "Error: unauthorized"; otherwise the stored user |
| `MemoryUsers.MemoryUserDAO.Clear` | server/src/main/java/dataaccess/MemoryUserDAO.java:28-30 | the store becomes empty |
| `Users.UserService.constructor` | server/src/main/java/service/UserService.java:10-11 | the service owns a new, empty user store and a new, empty auth store |
| `Users.UserService.RegisterUser` | server/src/main/java/service/UserService.java:13-23 | missing password or email is 400 before any store is read; a stored name with another password is 401; a stored name with this password is 403; a failure changes nothing; a new name is stored and issued the token, and getAuth finds the session (server/src/test/java/service/tests/ServiceTests.java:13-19) |
| `Users.UserService.LoginUser` | server/src/main/java/service/UserService.java:25-31 | an unknown name or a wrong password is 401 and changes nothing; otherwise a session for the token is added; the user store never changes |
| `Users.UserService.LogoutUser` | server/src/main/java/service/UserService.java:33-39 | a token with no session is 401 and changes nothing; otherwise exactly that session is removed |
| `Users.UserService.GetAuth` | server/src/main/java/service/UserService.java:41-43 | the session stored under the record's token, or null; a found session belongs to a stored user |
| `Users.UserService.Clear` | server/src/main/java/service/UserService.java:45-48 | both stores become empty |

## Left out

- `ChessGames.ChessGame.ValidMoves`: modelled by the intent in its comment. As written, the method cannot compile: line 60 lacks the loop variable's type. It also throws `NullPointerException` on an empty square, where its comment promises `null`. Its non-check branch makes each trial move on the live board, never undoes it, and filters by the shared check test. Here both branches are the same filter on a scratch copy, the live board never changes, and an empty square returns `None`.
- `ChessGames.ChessGame.CheckMoves`: modelled by intent. As written, the trial moves are made on the live board one after another and never undone, since `setBoard(board)` copies the board onto itself. A move is also kept when the opponent collection is NOT empty (line 85). Here each move is tried on a fresh copy, and a move is kept when the collection is empty.
- `ChessGames.ChessGame.CheckOpponentMove`: modelled by intent. As written, line 151 compares positions by reference, so it never matches a freshly built position. Line 152 casts the whole move collection to a single move, and line 145 reads the piece from `myBoard` rather than from `board`. Here positions compare by value, and the matching move itself is collected. The piece is read from `board`, which is `myBoard` at every call.
- `ChessGames.ChessGame.IsInCheck` and `ChessGames.InCheckIff`: built on the intended `checkOpponentMove`. As written, the method would report no check at all.
- `isInCheckmate` and `isInStalemate` (ChessGame.java:169-182) only throw "Not implemented". They are not modelled as if they worked.
- Queen, rook, knight and pawn moves, promotion moves and castling do not exist in the engine. `pieceMoves` returns an empty collection for those types, and that is what is modelled.
- `ChessGames.ChessGame.MakeMove`: `makeMove` declares `InvalidMoveException` but never throws it. That is modelled as a method that always succeeds. The Java `setBoard(board)` call at its end is a copy of the board onto itself, and it is made here too.
- Board accesses outside the 9x9 array throw `ArrayIndexOutOfBoundsException` in Java. Here they are excluded by the `InArray` precondition rather than modelled as an error.
- `ChessBoard.hashCode` (ChessBoard.java:36-39) and `ChessPiece.toString`, `ChessMove` and `ChessPosition` accessors, and `AuthData.setId`, `UserData.setId` and `GameData.setId`: trivial accessors or copies that the model does not need. The positions and moves are plain datatypes.
- `MemoryGames.MemoryGameDAO.CreateGame`: the map-and-list invariant is only promised while `InStep` holds, that is while every id lies in `1234 <= id < gameID`. The Java int counter wraps from 2^31 - 1 to -2^31 after about 2^31 creates, and `InStep` (`1234 <= gameID`) is lost there, so the model promises nothing after the wrap. The negative ids that follow are all new; ids actually repeat only after a full cycle of about 2^32 creates, when `put` would overwrite a map entry while `add` lengthens the list.
- `MemoryGames.MemoryGameDAO.ListGames`: returns a snapshot of the list as a value. The Java returns the store's live `ArrayList`, through which a caller could change the store; that aliasing is not captured.
- `ChessGames.SafeMove`, `ChessGames.ChessGame.TryMove` and `ChessGames.ChessGame.FilterSafe`: a trial move is a plain relocation (`Moved`) and ignores `move.promotion`, whereas `MakeMove` places a new promoted piece. Every generated move has no promotion (`PieceMovesSound`), so the two agree on every move the filter is given by `CheckMoves`; on a promotion move passed in directly they would not.
- `Users.UserService.GetAuth` and `Users.UserService.LogoutUser`: Java passes the `AuthData` record to `MemoryAuthDAO.getAuth(String)`, which does not type-check. They are modelled as looking up `auth.authToken`.
- `Users.UserService.RegisterUser` and `Users.UserService.LoginUser`: the session token, a random UUID in Java (MemoryAuthDAO.java:15), is a parameter. Uniqueness of tokens is therefore not modelled: a repeated token replaces the earlier session.
- `null` usernames, game names, player records and auth records are not modelled (`HashMap` allows a `null` key). Passwords, emails, seats and the requested colour may be `null` (`None`).
- `joinGame`, `createGame` and `listGames` take an `AuthData` that they never inspect, except for the username in `joinGame`. It is a parameter here, unused in the same way.
- The SQL stores, `GameService`, `Service`, the HTTP server and facade, the WebSocket layer and the terminal client are not part of this model. They are I/O, JSON, JDBC and network code outside the engine and the in-memory stores.

## Findings

| source | as written | input that shows it | evidently intended | confidence | as-written member | corrected member |
|---|---|---|---|---|---|---|
| shared/src/main/java/chess/ChessBoard.java:56-82 | `resetBoard` fills array rows 0, 1, 6, 7 and columns 0..7, but every reader of the board (`getPiece` through positions, move generation, `kingPosition`, `setBoard`, `copyBoard`) uses rows and columns 1..8 | `resetBoard` on a new board, then `getPiece(new ChessPosition(1, 5))` gives a white pawn where the white king belongs; `getPiece(new ChessPosition(8, 1))` gives null where a black rook belongs; `copyBoard` of the result drops row 0 and column 0 entirely | back ranks on rows 1 and 8, pawns on rows 2 and 7, in columns 1..8 | high; not executed | `ChessBoards.ResetBoardMisplacesPieces` | `ChessBoards.ChessBoard.ResetBoardOneBased` |
