/** Signing in and out: the application's user and the session's `'user'` key change together. */
module EmailAndPasswordAuth {
  import opened Php
  import opened Authentication
  import opened Sessions
  import opened App

  const USER_KEY := "user"

  /** Signs `user` in and remembers its primary-key value in the session. */
  method Login(app: Application, user: UserModel) returns (ok: bool)
    modifies app`user, app.session`data
    ensures ok
    ensures app.user == Some(user)
    ensures !IsAuthenticated(app.user)
    ensures app.session.data == old(app.session.data)[USER_KEY := PrimaryKeyValue(user)]
  {
    app.user := Some(user);
    var value := PrimaryKeyValue(user);
    app.session.Set(USER_KEY, value);
    ok := true;
  }

  /** Signs the current user out and forgets the session's `'user'` key. */
  method Logout(app: Application)
    modifies app`user, app.session`data
    ensures app.user == None
    ensures IsAuthenticated(app.user)
    ensures app.session.data == old(app.session.data) - {USER_KEY}
  {
    app.user := None;
    app.session.Remove(USER_KEY);
  }

  /** Logging in and then out leaves no user and no `'user'` session key; other keys are as before. */
  method LoginThenLogout(app: Application, user: UserModel)
    modifies app`user, app.session`data
    ensures app.user == None
    ensures USER_KEY !in app.session.data
    ensures forall k :: k != USER_KEY ==> Lookup(app.session.data, k) == Lookup(old(app.session.data), k)
  {
    var _ := Login(app, user);
    Logout(app);
  }
}
