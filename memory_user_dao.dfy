/** MemoryUserDAO: registered users in a map from username to UserData. */
module MemoryUsers {
  import opened Wrappers
  import opened Models

  class MemoryUserDAO {
    var users: map<string, UserData>

    /** Every user is stored under its own username. */
    ghost predicate Valid()
      reads this
    {
      forall u :: u in users ==> users[u].username == u
    }

    constructor ()
      ensures Valid() && users == map[]
    {
      users := map[];
    }

    /** createUser: stores the user under its username, replacing any
        earlier entry for that name. A user with a password can be read back
        with that password. */
    method CreateUser(user: UserData)
      modifies this
      ensures users == old(users)[user.username := user]
      ensures user.password.Some? ==> GetUser(user) == Success(Some(user))
      ensures old(Valid()) ==> Valid()
    {
      users := users[user.username := user];
    }

    /** getUser: looks the name up. An unknown name gives `null`; a stored
        user whose password is `null` makes the comparison throw a
        NullPointerException; a password that differs from the given one
        (a `null` given password included) is 401; otherwise the stored user
        is returned. Reading never changes the map. */
    function GetUser(user: UserData): (r: Result<Option<UserData>, Failure>)
      reads this
      ensures user.username !in users <==> r == Success(None)
      ensures r.Success? && r.value.Some? <==>
        user.username in users && users[user.username].password.Some? && users[user.username].password == user.password
      ensures r.Success? && r.value.Some? ==> r.value.value == users[user.username]
      ensures r.Failure? ==>
        user.username in users &&
        (if users[user.username].password.None? then r.error == NullPointer
         else r.error == Unauthorized && users[user.username].password != user.password)
    {
      if user.username !in users then Success(None)
      else
        var thisUser := users[user.username];
        if thisUser.password.None? then Failure(NullPointer)
        else if thisUser.password != user.password then Failure(Unauthorized)
        else Success(Some(thisUser))
    }

    method Clear()
      modifies this
      ensures users == map[] && Valid()
    {
      users := map[];
    }
  }
}
