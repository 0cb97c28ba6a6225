/** The account store's queries: looking a user up by exact username, and the login
    credential check. */
module Accounts {
  import opened Models
  import opened Security

  /** Position of the first user whose username is exactly `username` (the table is in
      id order), or None when there is none. */
  function FindUser(users: seq<User>, username: string): (r: Option<nat>)
    ensures r.Some? ==> r.value < |users| && users[r.value].username == username
    ensures r.Some? ==> forall j | 0 <= j < r.value :: users[j].username != username
    ensures r.None? <==> forall j | 0 <= j < |users| :: users[j].username != username
  {
    if users == [] then None
    else if users[0].username == username then Some(0)
    else
      match FindUser(users[1..], username)
      case None => None
      case Some(k) => Some(k + 1)
  }

  /** The login check: the user must exist and the stored hash must verify against the
      password. Both ways of failing give the same error. */
  function Authenticate(users: seq<User>, username: string, password: string): (r: Result<User>)
    ensures r.Ok? ==> r.value in users && r.value.username == username && Verify(r.value.passwordHash, password)
    ensures r.Err? ==> r.error == InvalidCredentials
    ensures (forall j | 0 <= j < |users| :: users[j].username != username) ==> r == Err(InvalidCredentials)
  {
    match FindUser(users, username)
    case None => Err(InvalidCredentials)
    case Some(i) =>
      if Verify(users[i].passwordHash, password) then Ok(users[i]) else Err(InvalidCredentials)
  }

  /** Under the unique constraint, login succeeds exactly when some user has that
      username and a credential that verifies against the password. */
  lemma AuthenticateExactly(users: seq<User>, username: string, password: string)
    requires UsernamesUnique(users)
    ensures Authenticate(users, username, password).Ok? <==>
      exists i | 0 <= i < |users| :: users[i].username == username && Verify(users[i].passwordHash, password)
  {
    match FindUser(users, username)
    case None =>
    case Some(k) =>
  }

  /** Looking a name up after appending a user that holds it finds the new row, provided
      no earlier row holds it. */
  lemma {:induction false} FindUserAfterAppend(users: seq<User>, u: User)
    requires forall j | 0 <= j < |users| :: users[j].username != u.username
    ensures FindUser(users + [u], u.username) == Some(|users|)
  {
    if users != [] {
      assert (users + [u])[1..] == users[1..] + [u];
      FindUserAfterAppend(users[1..], u);
    }
  }

  /** A user who has just registered can log in with the password they registered with. */
  lemma LoginAfterRegister(users: seq<User>, username: string, password: string, salt: nat, t: Timestamp)
    requires forall j | 0 <= j < |users| :: users[j].username != username
    ensures
      var u := User(|users| + 1, username, Hash(password, salt), Member, t);
      Authenticate(users + [u], username, password) == Ok(u)
  {
    var u := User(|users| + 1, username, Hash(password, salt), Member, t);
    FindUserAfterAppend(users, u);
  }
}
