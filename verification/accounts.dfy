/** Signup, login, the token-protected route and the by-id handlers of the
    user table. */
module Accounts {
  import opened Keys
  import opened Schema
  import opened Replies

  /** Some registered user has this email. */
  predicate EmailTaken(users: map<Id, User>, email: string) {
    exists k :: k in users && users[k].email == email
  }

  /** Some registered user has this username. */
  predicate UsernameTaken(users: map<Id, User>, username: string) {
    exists k :: k in users && users[k].username == username
  }

  /** The ids of the users registered under this username. */
  function Holders(users: map<Id, User>, username: string): set<Id> {
    set k | k in users && users[k].username == username
  }

  /** No two users share an email. */
  ghost predicate UniqueEmails(users: map<Id, User>) {
    forall i, j :: i in users && j in users && i != j ==> users[i].email != users[j].email
  }

  /** No two users share a username. */
  ghost predicate UniqueUsernames(users: map<Id, User>) {
    forall i, j :: i in users && j in users && i != j ==> users[i].username != users[j].username
  }

  /** No two users share an email, and no two share a username. */
  ghost predicate UniqueAccounts(users: map<Id, User>) {
    UniqueEmails(users) && UniqueUsernames(users)
  }

  /** The access token login issues. Signing, expiry and verification belong
      to the token library; the model keeps only the identity it carries. */
  datatype Token = Token(identity: Id)

  /** The body of a successful login. */
  datatype Session = Session(accessToken: Token, user: User)

  /** POST /signup: refuses an email or a username that is already
      registered, otherwise inserts exactly one user with the given fields
      and touches no other table. */
  function Signup(s: Store, u: User): (r: Step<Id>)
    ensures r.result.Err? <==> EmailTaken(s.users, u.email) || UsernameTaken(s.users, u.username)
    ensures r.result.Err? ==> r.result.failure == UserExists && r.store == s
    ensures r.result.Ok? ==>
      && r.result.value !in s.users
      && r.store == s.(users := s.users[r.result.value := u])
  {
    if EmailTaken(s.users, u.email) then Step(Err(UserExists), s)
    else if UsernameTaken(s.users, u.username) then Step(Err(UserExists), s)
    else
      var id := FreshId(s.users);
      Step(Ok(id), s.(users := s.users[id := u]))
  }

  /** POST /login: 404 when no user has the username, 401 when the first such
      user's password differs, otherwise a token carrying that user's id. */
  function Login(s: Store, username: string, password: string): (r: Result<Session>)
    ensures Status(r) == 404 <==> !UsernameTaken(s.users, username)
    ensures r.Err? ==> r.failure in {UserDoesNotExist, BadUsernameOrPassword}
    ensures r.Ok? ==>
      var id := r.value.accessToken.identity;
      && id in s.users
      && r.value.user == s.users[id]
      && s.users[id].username == username
      && s.users[id].password == password
  {
    var holders := Holders(s.users, username);
    if holders == {} then
      assert forall k :: k in s.users && s.users[k].username == username ==> k in holders;
      Err(UserDoesNotExist)
    else
      var id := Least(holders);
      var user := s.users[id];
      if user.username != username || user.password != password then Err(BadUsernameOrPassword)
      else Ok(Session(Token(id), user))
  }

  /** GET /private: the user the token names, or 404 once that user is gone. */
  function Private(s: Store, t: Token): (r: Result<User>)
    ensures r.Ok? <==> t.identity in s.users
    ensures r.Ok? ==> r.value == s.users[t.identity]
    ensures r.Err? ==> r.failure == UserDoesNotExist && Status(r) == 404
  {
    if t.identity in s.users then Ok(s.users[t.identity]) else Err(UserDoesNotExist)
  }

  /** GET /users/<id>. */
  function GetUser(s: Store, id: Id): (r: Result<User>)
    ensures r.Ok? <==> id in s.users
    ensures r.Ok? ==> r.value == s.users[id]
    ensures r.Err? ==> r.failure == NoSuchUser
  {
    if id in s.users then Ok(s.users[id]) else Err(NoSuchUser)
  }

  /** DELETE /users/<id>: removes exactly that user, or fails with the store
      unchanged. */
  function DeleteUser(s: Store, id: Id): (r: Step<()>)
    ensures r.result.Ok? <==> id in s.users
    ensures r.result.Err? ==> r.result.failure == NoSuchUser && r.store == s
    ensures r.result.Ok? ==>
      && r.store.users.Keys == s.users.Keys - {id}
      && (forall k :: k in r.store.users ==> r.store.users[k] == s.users[k])
      && r.store == s.(users := r.store.users)
  {
    if id in s.users then Step(Ok(()), s.(users := s.users - {id}))
    else Step(Err(NoSuchUser), s)
  }

  /** PUT /users/<id>: replaces all five fields of that user and no other
      row, or fails with the store unchanged. It does not check the new email
      or username against the other users. */
  function PutUser(s: Store, id: Id, u: User): (r: Step<()>)
    ensures r.result.Ok? <==> id in s.users
    ensures r.result.Err? ==> r.result.failure == UserNotInSystem && r.store == s
    ensures r.result.Ok? ==>
      && r.store.users.Keys == s.users.Keys
      && r.store.users[id] == u
      && (forall k :: k in s.users && k != id ==> r.store.users[k] == s.users[k])
      && r.store == s.(users := r.store.users)
  {
    if id in s.users then Step(Ok(()), s.(users := s.users[id := u]))
    else Step(Err(UserNotInSystem), s)
  }
}
