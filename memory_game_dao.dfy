/** MemoryGameDAO: the in-memory game store. It keeps every game twice, in a
    map keyed by id and in a list in insertion order, and draws ids from an
    int counter that starts at 1234. */
module MemoryGames {
  import opened Wrappers
  import opened ChessGames
  import opened Models

  const Int32Min: int := -0x8000_0000
  const Int32Max: int := 0x7fff_ffff
  const FirstGameID: int := 1234

  /** Java's `x++` on an int: one more, except that the largest int wraps
      round to the smallest. */
  function Increment(x: int): (r: int)
    requires Int32Min <= x <= Int32Max
    ensures Int32Min <= r <= Int32Max
    ensures x < Int32Max ==> r == x + 1
    ensures x == Int32Max ==> r == Int32Min
  {
    if x == Int32Max then Int32Min else x + 1
  }

  /** The index of the first game in gs with the given id, or -1 when none has it. */
  function FirstIndexWithId(gs: seq<GameData>, id: int): (k: int)
    ensures -1 <= k < |gs|
    ensures k == -1 <==> forall j :: 0 <= j < |gs| ==> gs[j].gameID != id
    ensures 0 <= k ==> gs[k].gameID == id && forall j :: 0 <= j < k ==> gs[j].gameID != id
  {
    if |gs| == 0 then -1
    else if gs[0].gameID == id then 0
    else
      var k := FirstIndexWithId(gs[1..], id);
      assert forall j :: 1 <= j < |gs| ==> gs[j] == gs[1..][j - 1];
      if k == -1 then -1 else k + 1
  }

  /** Java's List.remove(Object): drops the first element equal to x, if any. */
  function RemoveFirst(gs: seq<GameData>, x: GameData): (r: seq<GameData>)
    ensures x in gs ==> |r| == |gs| - 1
    ensures x !in gs ==> r == gs
  {
    if gs == [] then []
    else if gs[0] == x then
      assert gs == [gs[0]] + gs[1..];
      gs[1..]
    else
      assert gs == [gs[0]] + gs[1..];
      [gs[0]] + RemoveFirst(gs[1..], x)
  }

  lemma {:induction false} RemoveFirstAt(gs: seq<GameData>, k: int)
    requires 0 <= k < |gs| && forall j :: 0 <= j < k ==> gs[j] != gs[k]
    ensures RemoveFirst(gs, gs[k]) == gs[..k] + gs[k + 1..]
  {
    if k == 0 {
      assert gs[..0] + gs[1..] == gs[1..];
    } else {
      var x := gs[k];
      var tail := gs[1..];
      assert tail[k - 1] == x;
      forall j | 0 <= j < k - 1
        ensures tail[j] != tail[k - 1]
      {
        assert tail[j] == gs[j + 1];
      }
      RemoveFirstAt(tail, k - 1);
      assert gs[0] != x;
      calc {
        RemoveFirst(gs, x);
        [gs[0]] + RemoveFirst(tail, x);
        [gs[0]] + (tail[..k - 1] + tail[k..]);
        { assert tail[..k - 1] == gs[1..k]; assert tail[k..] == gs[k + 1..]; }
        [gs[0]] + (gs[1..k] + gs[k + 1..]);
        { assert gs[..k] == [gs[0]] + gs[1..k]; }
        gs[..k] + gs[k + 1..];
      }
    }
  }

  /** What updateGames leaves in the list: the first game with the new
      game's id is taken out and the new game is appended; with no such game
      the list is left alone. */
  function UpdatedList(gs: seq<GameData>, newGame: GameData): seq<GameData>
  {
    var k := FirstIndexWithId(gs, newGame.gameID);
    if k < 0 then gs else gs[..k] + gs[k + 1..] + [newGame]
  }

  /** updateGames keeps the list's length; when a game with the id is
      listed, the result holds the same games but that one, plus the new
      game at the end. */
  lemma UpdatedListReplaces(gs: seq<GameData>, newGame: GameData)
    ensures |UpdatedList(gs, newGame)| == |gs|
    ensures (forall g :: g in gs ==> g.gameID != newGame.gameID) ==> UpdatedList(gs, newGame) == gs
    ensures var k := FirstIndexWithId(gs, newGame.gameID);
      0 <= k ==>
        var r := UpdatedList(gs, newGame);
        r[|r| - 1] == newGame && multiset(r) + multiset{gs[k]} == multiset(gs) + multiset{newGame}
  {
    var k := FirstIndexWithId(gs, newGame.gameID);
    if 0 <= k {
      var a, b := gs[..k], gs[k + 1..];
      assert gs == a + [gs[k]] + b;
      assert multiset(gs) == multiset(a) + multiset{gs[k]} + multiset(b);
      assert multiset(a + b + [newGame]) == multiset(a) + multiset(b) + multiset{newGame};
    }
  }

  /** The map and the list hold the same games: ids in the list are
      distinct, each listed game is the one the map stores under its id, and
      every id in the map is listed. */
  ghost predicate Mirrors(allGames: map<int, GameData>, games: seq<GameData>)
  {
    (forall i, j :: 0 <= i < j < |games| ==> games[i].gameID != games[j].gameID) &&
    (forall i :: 0 <= i < |games| ==> games[i].gameID in allGames && allGames[games[i].gameID] == games[i]) &&
    (forall id :: id in allGames ==> exists i :: 0 <= i < |games| && games[i].gameID == id)
  }

  /** createGame with an id not yet in use keeps the map and the list in step. */
  lemma CreateKeepsMirror(allGames: map<int, GameData>, games: seq<GameData>, g: GameData)
    requires Mirrors(allGames, games) && g.gameID !in allGames
    ensures Mirrors(allGames[g.gameID := g], games + [g])
  {
    var gs := games + [g];
    var m := allGames[g.gameID := g];
    forall id | id in m
      ensures exists i :: 0 <= i < |gs| && gs[i].gameID == id
    {
      if id == g.gameID {
        assert gs[|games|].gameID == id;
      } else {
        var i :| 0 <= i < |games| && games[i].gameID == id;
        assert gs[i].gameID == id;
      }
    }
  }

  /** The shape of UpdatedList when a game with the id is listed at k. */
  lemma UpdatedListShape(gs: seq<GameData>, newGame: GameData, k: int)
    requires k == FirstIndexWithId(gs, newGame.gameID) && 0 <= k
    ensures |UpdatedList(gs, newGame)| == |gs|
    ensures UpdatedList(gs, newGame)[|gs| - 1] == newGame
    ensures forall i :: 0 <= i < k ==> UpdatedList(gs, newGame)[i] == gs[i]
    ensures forall i :: k <= i < |gs| - 1 ==> UpdatedList(gs, newGame)[i] == gs[i + 1]
  {
    var a, b := gs[..k], gs[k + 1..];
    var r := a + b + [newGame];
    assert UpdatedList(gs, newGame) == r;
    assert |r| == |gs|;
    forall i | 0 <= i < k ensures r[i] == gs[i] { assert r[i] == a[i]; }
    forall i | k <= i < |gs| - 1 ensures r[i] == gs[i + 1] { assert r[i] == b[i - k]; }
  }

  /** r is gs with index k taken out and newGame appended. */
  ghost predicate ShapedAt(r: seq<GameData>, gs: seq<GameData>, newGame: GameData, k: int)
  {
    0 <= k < |gs| && |r| == |gs| && r[|gs| - 1] == newGame &&
    (forall i :: 0 <= i < k ==> r[i] == gs[i]) &&
    (forall i :: k <= i < |gs| - 1 ==> r[i] == gs[i + 1])
  }

  lemma JoinKeepsDistinct(gs: seq<GameData>, r: seq<GameData>, newGame: GameData, k: int)
    requires ShapedAt(r, gs, newGame, k) && gs[k].gameID == newGame.gameID
    requires forall i, j :: 0 <= i < j < |gs| ==> gs[i].gameID != gs[j].gameID
    ensures forall i, j :: 0 <= i < j < |r| ==> r[i].gameID != r[j].gameID
  {
    var n := |gs|;
    forall i, j | 0 <= i < j < n
      ensures r[i].gameID != r[j].gameID
    {
      var a := if i < k then i else i + 1;
      assert r[i] == gs[a] && a != k;
      if j < n - 1 {
        var b := if j < k then j else j + 1;
        assert r[j] == gs[b] && a < b;
      }
    }
  }

  lemma JoinKeepsStored(allGames: map<int, GameData>, gs: seq<GameData>, r: seq<GameData>, newGame: GameData, k: int)
    requires ShapedAt(r, gs, newGame, k) && gs[k].gameID == newGame.gameID
    requires forall i, j :: 0 <= i < j < |gs| ==> gs[i].gameID != gs[j].gameID
    requires forall i :: 0 <= i < |gs| ==> gs[i].gameID in allGames && allGames[gs[i].gameID] == gs[i]
    ensures var m := allGames[newGame.gameID := newGame];
      forall i :: 0 <= i < |r| ==> r[i].gameID in m && m[r[i].gameID] == r[i]
  {
    var m := allGames[newGame.gameID := newGame];
    forall i | 0 <= i < |r|
      ensures r[i].gameID in m && m[r[i].gameID] == r[i]
    {
      if i < |r| - 1 {
        var a := if i < k then i else i + 1;
        assert r[i] == gs[a] && a != k;
      }
    }
  }

  lemma JoinKeepsListed(allGames: map<int, GameData>, gs: seq<GameData>, r: seq<GameData>, newGame: GameData, k: int)
    requires ShapedAt(r, gs, newGame, k) && gs[k].gameID == newGame.gameID
    requires forall i, j :: 0 <= i < j < |gs| ==> gs[i].gameID != gs[j].gameID
    requires forall id :: id in allGames ==> exists i :: 0 <= i < |gs| && gs[i].gameID == id
    ensures var m := allGames[newGame.gameID := newGame];
      forall id :: id in m ==> exists i :: 0 <= i < |r| && r[i].gameID == id
  {
    var m := allGames[newGame.gameID := newGame];
    forall key | key in m
      ensures exists i :: 0 <= i < |r| && r[i].gameID == key
    {
      if key == newGame.gameID {
        assert r[|r| - 1].gameID == key;
      } else {
        var a :| 0 <= a < |gs| && gs[a].gameID == key;
        assert a != k;
        var i := if a < k then a else a - 1;
        assert r[i] == gs[a];
      }
    }
  }

  /** joinGame on a stored id keeps the map and the list in step. */
  lemma JoinKeepsMirror(allGames: map<int, GameData>, games: seq<GameData>, newGame: GameData)
    requires Mirrors(allGames, games) && newGame.gameID in allGames
    ensures Mirrors(allGames[newGame.gameID := newGame], UpdatedList(games, newGame))
  {
    var id := newGame.gameID;
    var k := FirstIndexWithId(games, id);
    var i0 :| 0 <= i0 < |games| && games[i0].gameID == id;
    var r := UpdatedList(games, newGame);
    UpdatedListShape(games, newGame, k);
    assert ShapedAt(r, games, newGame, k);
    JoinKeepsDistinct(games, r, newGame, k);
    JoinKeepsStored(allGames, games, r, newGame, k);
    JoinKeepsListed(allGames, games, r, newGame, k);
  }

  /** The seat change of joinGame for a stored game: BLACK or WHITE puts the
      user in that seat when it is empty; anything else, including a taken
      seat or an unknown colour, is 403. */
  function TakeSeat(game: GameData, gameID: int, playerColor: Option<string>, username: string): (r: Result<GameData, Failure>)
    ensures r.Success? <==>
      (playerColor == Some("BLACK") && game.blackUsername.None?) ||
      (playerColor == Some("WHITE") && game.whiteUsername.None?)
    ensures r.Failure? ==> r.error == AlreadyTaken
    ensures r.Success? ==>
      r.value.gameID == gameID && r.value.gameName == game.gameName && r.value.game == game.game
    ensures r.Success? && playerColor == Some("BLACK") ==>
      r.value.blackUsername == Some(username) && r.value.whiteUsername == game.whiteUsername
    ensures r.Success? && playerColor == Some("WHITE") ==>
      r.value.whiteUsername == Some(username) && r.value.blackUsername == game.blackUsername
  {
    if playerColor == Some("BLACK") && game.blackUsername == None then
      Success(GameData(gameID, game.whiteUsername, Some(username), game.gameName, game.game))
    else if playerColor == Some("WHITE") && game.whiteUsername == None then
      Success(GameData(gameID, Some(username), game.blackUsername, game.gameName, game.game))
    else
      Failure(AlreadyTaken)
  }

  class MemoryGameDAO {
    /** The next id to hand out (a Java int). */
    var gameID: int
    var allGames: map<int, GameData>
    var games: seq<GameData>

    /** The counter is a Java int. */
    predicate Valid()
      reads this
    {
      Int32Min <= gameID <= Int32Max
    }

    /** Ids in use lie in [1234, gameID): true until the counter wraps. */
    predicate InStep()
      reads this
    {
      FirstGameID <= gameID && forall id :: id in allGames ==> FirstGameID <= id < gameID
    }

    ghost predicate Mirrored()
      reads this
    {
      Mirrors(allGames, games)
    }

    constructor ()
      ensures Valid() && InStep() && Mirrored()
      ensures gameID == FirstGameID && allGames == map[] && games == []
    {
      gameID := FirstGameID;
      allGames := map[];
      games := [];
    }

    /** createGame: a new game with both seats empty, a fresh ChessGame and
        the counter's current value as id, stored in the map and appended to
        the list; the counter then moves on (wrapping as a Java int). The
        map and list stay in step, and ids stay below the counter, as long
        as the counter has not wrapped. */
    method CreateGame(gameName: string, auth: AuthData) returns (game: GameData)
      requires Valid()
      modifies this
      ensures Valid()
      ensures game.gameID == old(gameID) && game.whiteUsername == None && game.blackUsername == None
      ensures game.gameName == gameName && fresh(game.game) && fresh(game.game.myBoard)
      ensures gameID == Increment(old(gameID))
      ensures allGames == old(allGames)[game.gameID := game] && games == old(games) + [game]
      ensures old(InStep()) && old(gameID) < Int32Max ==> InStep()
      ensures old(InStep()) && old(Mirrored()) ==> Mirrored()
    {
      var chess := new ChessGame();
      game := GameData(gameID, None, None, gameName, chess);
      gameID := Increment(gameID);
      if old(InStep()) && old(Mirrored()) {
        CreateKeepsMirror(allGames, games, game);
      }
      allGames := allGames[game.gameID := game];
      games := games + [game];
    }

    /** getGame: the stored game for a known id, `null` otherwise. */
    function GetGame(gameID: int): (r: Option<GameData>)
      reads this
      ensures r.None? <==> gameID !in allGames
      ensures r.Some? ==> r.value == allGames[gameID]
      ensures Mirrored() && r.Some? ==> r.value in games && r.value.gameID == gameID
    {
      if gameID in allGames then Some(allGames[gameID]) else None
    }

    /** listGames: the list itself; kept in step, it holds exactly the stored games. */
    function ListGames(auth: AuthData): (r: seq<GameData>)
      reads this
      ensures Mirrored() ==> forall g :: g in r ==> g.gameID in allGames && allGames[g.gameID] == g
      ensures Mirrored() ==> forall id :: id in allGames ==> allGames[id] in r
    {
      games
    }

    /** joinGame: 400 for an unknown id; otherwise the seat change of
        TakeSeat is written to the map and the list, or its 403 is thrown,
        leaving the store as it was. */
    method JoinGame(auth: AuthData, playerColor: Option<string>, gameID: int) returns (outcome: Outcome<Failure>)
      modifies this`allGames, this`games
      ensures gameID !in old(allGames) ==>
        outcome == Fail(BadRequest) && allGames == old(allGames) && games == old(games)
      ensures gameID in old(allGames) ==>
        match TakeSeat(old(allGames[gameID]), gameID, playerColor, auth.username)
        case Failure(e) => outcome == Fail(e) && allGames == old(allGames) && games == old(games)
        case Success(newGame) =>
          outcome == Pass && allGames == old(allGames)[gameID := newGame] && games == UpdatedList(old(games), newGame)
      ensures allGames.Keys == old(allGames.Keys)
      ensures old(Mirrored()) ==> Mirrored()
      ensures old(InStep()) ==> InStep()
    {
      var game := GetGame(gameID);
      if game.Some? {
        var seated := TakeSeat(game.value, gameID, playerColor, auth.username);
        if seated.Success? {
          var newGame := seated.value;
          if old(Mirrored()) {
            JoinKeepsMirror(allGames, games, newGame);
          }
          allGames := allGames[gameID := newGame];
          UpdateGames(newGame);
          outcome := Pass;
        } else {
          outcome := Fail(seated.error);
        }
      } else {
        outcome := Fail(BadRequest);
      }
    }

    /** updateGames: finds the first listed game with the new game's id,
        removes that record (List.remove, first equal element) and appends
        the new one. */
    method UpdateGames(newGame: GameData)
      modifies this`games
      ensures games == UpdatedList(old(games), newGame)
    {
      var oldGameData: Option<GameData> := None;
      ghost var at := -1;
      for i := 0 to |games|
        invariant forall j :: 0 <= j < i ==> games[j].gameID != newGame.gameID
        invariant oldGameData == None
      {
        if games[i].gameID == newGame.gameID {
          oldGameData := Some(games[i]);
          at := i;
          break;
        }
      }
      if oldGameData.Some? {
        assert at == FirstIndexWithId(games, newGame.gameID);
        RemoveFirstAt(games, at);
        games := RemoveFirst(games, oldGameData.value) + [newGame];
      }
    }

    /** clear: empties the map and the list; the id counter is not reset. */
    method Clear()
      modifies this`allGames, this`games
      ensures allGames == map[] && games == []
      ensures Mirrored()
      ensures old(InStep()) ==> InStep()
    {
      allGames := map[];
      games := [];
    }
  }
}
