/**
 * The account registry of the server: the in-memory `users` array and the
 * `/api/register` and `/api/login` handlers (server/index.js:19-46), as pure
 * functions of the array. The class in server.dfy owns the array and uses
 * these functions as its specification.
 */
module Accounts {
  import opened Wrappers
  import opened Crypto

  /** One element of `users`: `{ username, password: hashed }`. */
  datatype User = User(username: string, passwordHash: PasswordHash)

  /** The JSON body of a response. */
  datatype Body = Message(text: string) | TokenIssued(token: Token)

  /** An HTTP response: its status code and JSON body. */
  datatype Response = Response(status: int, body: Body)

  const StatusOk: int := 200
  const StatusBadRequest: int := 400
  const StatusUnauthorized: int := 401

  const UserExists: Response := Response(StatusBadRequest, Message("User already exists"))
  const Registered: Response := Response(StatusOk, Message("Registration successful"))
  const InvalidCredentials: Response := Response(StatusUnauthorized, Message("Invalid credentials"))

  /** A user list whose response to register and login is the new state and reply. */
  datatype Handled = Handled(users: seq<User>, response: Response)

  /** Some record in `users` carries `name`. */
  predicate IsRegistered(users: seq<User>, name: string) {
    exists i :: 0 <= i < |users| && users[i].username == name
  }

  /** The invariant of the registry: no two records share a username. */
  predicate UniqueUsernames(users: seq<User>) {
    forall i, j :: 0 <= i < j < |users| ==> users[i].username != users[j].username
  }

  /** The position `users.find(u => u.username === name)` stops at: the first match. */
  function IndexOf(users: seq<User>, name: string): (r: Option<nat>)
    ensures r.None? <==> !IsRegistered(users, name)
    ensures r.Some? ==> r.value < |users| && users[r.value].username == name
    ensures r.Some? ==> forall j :: 0 <= j < r.value ==> users[j].username != name
  {
    if |users| == 0 then None
    else if users[0].username == name then Some(0)
    else
      match IndexOf(users[1..], name)
      case None =>
        assert forall i :: 1 <= i < |users| ==> users[i] == users[1..][i - 1];
        None
      case Some(k) => Some(k + 1)
  }

  /** `users.find(u => u.username === name)`: the first record carrying `name`. */
  function FindUser(users: seq<User>, name: string): (r: Option<User>)
    ensures r.None? <==> !IsRegistered(users, name)
    ensures r.Some? ==> r.value.username == name && r.value in users
  {
    match IndexOf(users, name)
    case None => None
    case Some(i) => Some(users[i])
  }

  /** The `/api/register` handler (server/index.js:27-35). */
  function Register(users: seq<User>, username: string, password: string): (r: Handled)
    ensures r.response == UserExists <==> IsRegistered(users, username)
    ensures r.response == UserExists || r.response == Registered
    ensures |r.users| == |users| + (if r.response == Registered then 1 else 0)
  {
    if FindUser(users, username).Some? then Handled(users, UserExists)
    else Handled(users + [User(username, Hash(password))], Registered)
  }

  /** The `/api/login` handler (server/index.js:38-46). */
  function Login(users: seq<User>, username: string, password: string): (r: Response)
    ensures r == InvalidCredentials || r == Response(StatusOk, TokenIssued(Sign(username)))
  {
    match FindUser(users, username)
    case None => InvalidCredentials
    case Some(user) =>
      if !Verify(password, user.passwordHash) then InvalidCredentials
      else Response(StatusOk, TokenIssued(Sign(username)))
  }

  /** A username already present is refused with 400 and the list is left as it was. */
  lemma RegisterRefusesDuplicate(users: seq<User>, username: string, password: string)
    requires IsRegistered(users, username)
    ensures Register(users, username, password) == Handled(users, UserExists)
  {
  }

  /** A new username is appended as exactly one record with the hashed password; earlier records stay. */
  lemma RegisterAppendsNew(users: seq<User>, username: string, password: string)
    requires !IsRegistered(users, username)
    ensures var h := Register(users, username, password);
      h.response == Registered &&
      |h.users| == |users| + 1 &&
      h.users[..|users|] == users &&
      h.users[|users|] == User(username, Hash(password))
  {
  }

  /** Registering, whatever its outcome, keeps usernames pairwise distinct. */
  lemma RegisterKeepsUnique(users: seq<User>, username: string, password: string)
    requires UniqueUsernames(users)
    ensures UniqueUsernames(Register(users, username, password).users)
    ensures IsRegistered(Register(users, username, password).users, username)
  {
    if !IsRegistered(users, username) {
      var u' := users + [User(username, Hash(password))];
      assert u'[|users|].username == username;
    }
  }

  /** Login succeeds exactly for a registered user whose password verifies; otherwise it is a 401. */
  lemma LoginSucceedsIff(users: seq<User>, username: string, password: string)
    requires UniqueUsernames(users)
    ensures Login(users, username, password).status == StatusOk <==>
      exists i :: 0 <= i < |users| && users[i].username == username && Verify(password, users[i].passwordHash)
    ensures Login(users, username, password).status != StatusOk ==>
      Login(users, username, password) == InvalidCredentials
  {
    var r := IndexOf(users, username);
    if r.Some? {
      forall i | 0 <= i < |users| && users[i].username == username
        ensures i == r.value
      {
      }
    }
  }

  /** `users.find` with one more record at the end: the old answer if there was one, else the new record. */
  lemma {:induction false} IndexOfAppend(users: seq<User>, u: User, name: string)
    ensures IndexOf(users + [u], name) ==
      if IndexOf(users, name).Some? then IndexOf(users, name)
      else if u.username == name then Some(|users|)
      else None
  {
    if |users| > 0 {
      assert (users + [u])[1..] == users[1..] + [u];
      IndexOfAppend(users[1..], u, name);
    }
  }

  /** The register/login round trip: right after a new user registers, login with that
   *  password yields a token for them, any other password is refused, and every other
   *  username logs in exactly as before. */
  lemma RegisterThenLogin(users: seq<User>, username: string, password: string, guess: string, other: string, otherGuess: string)
    requires !IsRegistered(users, username)
    requires other != username
    ensures var after := Register(users, username, password).users;
      Login(after, username, guess) ==
        (if guess == password then Response(StatusOk, TokenIssued(Sign(username))) else InvalidCredentials) &&
      Login(after, other, otherGuess) == Login(users, other, otherGuess)
  {
    var after := users + [User(username, Hash(password))];
    IndexOfAppend(users, User(username, Hash(password)), username);
    IndexOfAppend(users, User(username, Hash(password)), other);
    assert after[|users|] == User(username, Hash(password));
    if IndexOf(users, other).Some? {
      assert after[IndexOf(users, other).value] == users[IndexOf(users, other).value];
    }
  }
}
