/** UserService: registration, login, logout and session lookup over one
    user store and one auth store, both owned by the service. */
module Users {
  import opened Wrappers
  import opened Models
  import opened MemoryUsers
  import opened MemoryAuths

  class UserService {
    const userAccess: MemoryUserDAO
    const authAccess: MemoryAuthDAO

    /** Both stores keep their records under their keys, every stored user
        has a password and an email (registration insists on both), and
        every session belongs to a stored user. */
    ghost predicate Valid()
      reads this, userAccess, authAccess
    {
      userAccess.Valid() && authAccess.Valid() &&
      (forall u :: u in userAccess.users ==>
        userAccess.users[u].password.Some? && userAccess.users[u].email.Some?) &&
      (forall t :: t in authAccess.auths ==> authAccess.auths[t].username in userAccess.users)
    }

    constructor ()
      ensures Valid() && fresh(userAccess) && fresh(authAccess)
      ensures userAccess.users == map[] && authAccess.auths == map[]
    {
      userAccess := new MemoryUserDAO();
      authAccess := new MemoryAuthDAO();
    }

    /** registerUser: 400 when the password or email is missing, before
        either store is read; otherwise a failure of getUser (401 for a
        stored name with another password) is passed on, a stored name with
        this password is 403; a new name is stored and issued `token`. A
        failed call changes nothing, and the issued session can be looked up
        at once. */
    method RegisterUser(user: UserData, token: string) returns (r: Result<AuthData, Failure>)
      requires Valid()
      modifies userAccess, authAccess
      ensures Valid()
      ensures user.password.None? || user.email.None? ==> r == Failure(BadRequest)
      ensures user.password.Some? && user.email.Some? ==>
        match old(userAccess.GetUser(user))
        case Failure(e) => r == Failure(e) && e == Unauthorized
        case Success(Some(_)) => r == Failure(AlreadyTaken)
        case Success(None) =>
          r == Success(AuthData(token, user.username)) &&
          userAccess.users == old(userAccess.users)[user.username := user] &&
          authAccess.auths == old(authAccess.auths)[token := r.value]
      ensures r.Failure? ==> userAccess.users == old(userAccess.users) && authAccess.auths == old(authAccess.auths)
      ensures r.Success? ==> GetAuth(r.value) == Some(r.value)
    {
      if user.password.None? || user.email.None? {
        return Failure(BadRequest);
      }
      var existing := userAccess.GetUser(user);
      if existing.Failure? {
        return Failure(existing.error);
      }
      if existing.value.Some? {
        return Failure(AlreadyTaken);
      } else {
        userAccess.CreateUser(user);
        var auth := authAccess.CreateAuth(user, token);
        return Success(auth);
      }
    }

    /** loginUser: a failure of getUser (401 for a wrong password) is passed
        on, an unknown name is 401, and a known name with this password is
        issued `token`; the user store never changes. */
    method LoginUser(user: UserData, token: string) returns (r: Result<AuthData, Failure>)
      requires Valid()
      modifies authAccess
      ensures Valid()
      ensures match old(userAccess.GetUser(user))
        case Failure(e) => r == Failure(e) && e == Unauthorized && authAccess.auths == old(authAccess.auths)
        case Success(None) => r == Failure(Unauthorized) && authAccess.auths == old(authAccess.auths)
        case Success(Some(_)) =>
          r == Success(AuthData(token, user.username)) &&
          authAccess.auths == old(authAccess.auths)[token := r.value]
      ensures r.Success? ==> GetAuth(r.value) == Some(r.value)
    {
      var existing := userAccess.GetUser(user);
      if existing.Failure? {
        return Failure(existing.error);
      }
      if existing.value.None? {
        return Failure(Unauthorized);
      } else {
        var auth := authAccess.CreateAuth(user, token);
        return Success(auth);
      }
    }

    /** logoutUser: 401 for a token with no session; otherwise exactly that
        session is removed. */
    method LogoutUser(auth: AuthData) returns (outcome: Outcome<Failure>)
      requires Valid()
      modifies authAccess
      ensures Valid()
      ensures auth.authToken !in old(authAccess.auths) ==>
        outcome == Fail(Unauthorized) && authAccess.auths == old(authAccess.auths)
      ensures auth.authToken in old(authAccess.auths) ==>
        outcome == Pass && authAccess.auths == old(authAccess.auths) - {auth.authToken}
      ensures GetAuth(auth) == None
    {
      var found := authAccess.GetAuth(auth.authToken);
      if found.None? {
        return Fail(Unauthorized);
      } else {
        authAccess.DeleteAuth(auth);
        return Pass;
      }
    }

    /** getAuth: the session stored under the record's token, or `null`; a
        session found belongs to a stored user. */
    function GetAuth(auth: AuthData): (r: Option<AuthData>)
      reads this, userAccess, authAccess
      ensures r.None? <==> auth.authToken !in authAccess.auths
      ensures r.Some? ==> r.value == authAccess.auths[auth.authToken]
      ensures Valid() && r.Some? ==> r.value.authToken == auth.authToken && r.value.username in userAccess.users
    {
      authAccess.GetAuth(auth.authToken)
    }

    /** clear: empties both stores. */
    method Clear()
      requires Valid()
      modifies userAccess, authAccess
      ensures Valid() && userAccess.users == map[] && authAccess.auths == map[]
    {
      authAccess.Clear();
      userAccess.Clear();
    }
  }
}
