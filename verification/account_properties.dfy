/** What the account routes promise across requests: signup keeps emails and
    usernames unique while update does not, a signed-up user can log in and
    reach the private route, and a deleted user is gone. */
module AccountProperties {
  import opened Keys
  import opened Schema
  import opened Replies
  import opened Accounts

  /** Signup never registers a second holder of an email or a username. */
  lemma SignupKeepsAccountsUnique(s: Store, u: User)
    requires UniqueAccounts(s.users)
    ensures UniqueAccounts(Signup(s, u).store.users)
  {
    var r := Signup(s, u);
    if r.result.Ok? {
      var users := r.store.users;
      var id := r.result.value;
      forall k | k in users && k != id
        ensures users[k].email != u.email && users[k].username != u.username
      {
        assert users[k] == s.users[k];
      }
    }
  }

  /** Signing up the same user twice: the second request fails and changes
      nothing. */
  lemma SignupTwiceFails(s: Store, u: User)
    requires Signup(s, u).result.Ok?
    ensures var s1 := Signup(s, u).store;
      Signup(s1, u) == Step(Err(UserExists), s1)
  {
    var r := Signup(s, u);
    assert r.store.users[r.result.value].email == u.email;
  }

  /** An update can give a user another user's email: the update route does
      not keep the uniqueness that signup keeps. */
  lemma PutUserCanDuplicateEmail()
    ensures
      var s := Store(
        map[1 := User("luke", "luke@rebels.org", "x", "Luke", "Skywalker"),
            2 := User("leia", "leia@rebels.org", "y", "Leia", "Organa")],
        map[], map[], map[], map[]);
      var r := PutUser(s, 2, User("leia", "luke@rebels.org", "y", "Leia", "Organa"));
      && UniqueAccounts(s.users)
      && r.result.Ok?
      && !UniqueAccounts(r.store.users)
  {
    var s := Store(
      map[1 := User("luke", "luke@rebels.org", "x", "Luke", "Skywalker"),
          2 := User("leia", "leia@rebels.org", "y", "Leia", "Organa")],
      map[], map[], map[], map[]);
    var r := PutUser(s, 2, User("leia", "luke@rebels.org", "y", "Leia", "Organa"));
    assert r.store.users[1].email == r.store.users[2].email;
  }

  /** Under unique usernames, login succeeds exactly when some user has both
      the username and the password, and the token carries that user's id. */
  lemma LoginMatchesCredentials(s: Store, username: string, password: string)
    requires UniqueUsernames(s.users)
    ensures Login(s, username, password).Ok? <==>
      exists k :: k in s.users && s.users[k].username == username && s.users[k].password == password
    ensures forall k :: k in s.users && s.users[k].username == username && s.users[k].password == password ==>
      Login(s, username, password) == Ok(Session(Token(k), s.users[k]))
    ensures UsernameTaken(s.users, username) && Login(s, username, password).Err? ==>
      Status(Login(s, username, password)) == 401
  {
    var holders := Holders(s.users, username);
    forall k | k in holders ensures holders == {k} {
      forall j | j in holders ensures j == k {
        assert s.users[j].username == s.users[k].username;
      }
    }
  }

  /** A user created by signup can log in with the same username and
      password, and the token it receives opens the private route as that
      user. */
  lemma SignupThenLogin(s: Store, u: User)
    requires Signup(s, u).result.Ok?
    ensures var r := Signup(s, u);
      var session := Login(r.store, u.username, u.password);
      && session == Ok(Session(Token(r.result.value), u))
      && Private(r.store, session.value.accessToken) == Ok(u)
  {
    var r := Signup(s, u);
    var id := r.result.value;
    var users := r.store.users;
    assert Holders(users, u.username) == {id} by {
      forall k | k in users && k != id ensures users[k].username != u.username {
        assert users[k] == s.users[k];
      }
    }
  }

  /** After a delete the user is gone: get fails, and a token issued earlier
      no longer opens the private route. */
  lemma DeleteThenGetUser(s: Store, id: Id)
    requires DeleteUser(s, id).result.Ok?
    ensures var s1 := DeleteUser(s, id).store;
      && GetUser(s1, id) == Err(NoSuchUser)
      && Private(s1, Token(id)) == Err(UserDoesNotExist)
      && |s1.users| == |s.users| - 1
  {
  }
}
