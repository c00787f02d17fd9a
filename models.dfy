/** The records passed between the server's stores and services, and the
    exceptions they throw. A Java `null` string field is `None`. */
module Models {
  import opened Wrappers
  import opened ChessGames

  /** A registered account; password and email may be missing in a request. */
  datatype UserData = UserData(username: string, password: Option<string>, email: Option<string>)

  /** A session token and the user it was issued to. */
  datatype AuthData = AuthData(authToken: string, username: string)

  /** A stored game: its seats are empty (`None`) until a player joins. The
      game itself is an object shared by every copy of the record. */
  datatype GameData = GameData(gameID: int, whiteUsername: Option<string>, blackUsername: Option<string>,
                               gameName: string, game: ChessGame)

  /** What a store or service call can throw: ResponseException with an HTTP
      status and message, or the NullPointerException a missing field
      causes. */
  datatype Failure = ResponseException(statusCode: int, message: string) | NullPointer

  const BadRequest: Failure := ResponseException(400, "Error: bad request")
  const Unauthorized: Failure := ResponseException(401, "Error: unauthorized")
  const AlreadyTaken: Failure := ResponseException(403, "Error: already taken")
}
