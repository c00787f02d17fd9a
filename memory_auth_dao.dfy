/** MemoryAuthDAO: session tokens in a map from token to AuthData. */
module MemoryAuths {
  import opened Wrappers
  import opened Models

  class MemoryAuthDAO {
    var auths: map<string, AuthData>

    /** Every record is stored under its own token. */
    ghost predicate Valid()
      reads this
    {
      forall t :: t in auths ==> auths[t].authToken == t
    }

    constructor ()
      ensures Valid() && auths == map[]
    {
      auths := map[];
    }

    /** createAuth: issues `token` (a random UUID in Java) to the user, storing
        and returning the record; any record already under that token is
        replaced, all others are kept. */
    method CreateAuth(user: UserData, token: string) returns (newAuth: AuthData)
      modifies this
      ensures newAuth == AuthData(token, user.username)
      ensures auths == old(auths)[token := newAuth]
      ensures GetAuth(token) == Some(newAuth)
      ensures forall t :: t in old(auths) && t != token ==> t in auths && auths[t] == old(auths)[t]
      ensures old(Valid()) ==> Valid()
    {
      newAuth := AuthData(token, user.username);
      auths := auths[newAuth.authToken := newAuth];
    }

    /** getAuth: the record stored under the token, or `null`. */
    function GetAuth(auth: string): (r: Option<AuthData>)
      reads this
      ensures r.None? <==> auth !in auths
      ensures r.Some? ==> r.value == auths[auth]
      ensures Valid() && r.Some? ==> r.value.authToken == auth
    {
      if auth in auths then Some(auths[auth]) else None
    }

    /** deleteAuth: removes the record's token, a no-op when it is absent. */
    method DeleteAuth(auth: AuthData)
      modifies this
      ensures auths == old(auths) - {auth.authToken}
      ensures GetAuth(auth.authToken) == None
      ensures forall t :: t in old(auths) && t != auth.authToken ==> t in auths && auths[t] == old(auths)[t]
      ensures old(Valid()) ==> Valid()
    {
      auths := auths - {auth.authToken};
    }

    method Clear()
      modifies this
      ensures auths == map[] && Valid()
    {
      auths := map[];
    }
  }
}
