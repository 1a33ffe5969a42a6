/**
 * The signed-in user and the framework's notion of "authenticated".
 *
 * `isAuthenticated()` returns `!Application::$app->user`: it holds exactly
 * when NO user is signed in, the opposite of what its name says. The model
 * keeps that behaviour; the auth middleware is built on it.
 */
module Authentication {
  import opened Php

  /**
   * A user record: the name its class's `getId()` returns (`ActiveRecords.PRIMARY_KEY`
   * unless the class overrides it) and its attribute values.
   */
  datatype UserModel = UserModel(primaryKey: string, attributes: map<string, Value>)

  /** `$user->{$primaryKey}`; reading an attribute the user lacks gives null. */
  function PrimaryKeyValue(user: UserModel): Value {
    if user.primaryKey in user.attributes then user.attributes[user.primaryKey] else Null
  }

  /** A user object is always truthy, so `!$user` is true only for null. */
  predicate IsAuthenticated(user: Option<UserModel>) {
    user.None?
  }

  /** As written, "authenticated" means "nobody is signed in". */
  lemma IsAuthenticatedIsInverted(user: UserModel)
    ensures !IsAuthenticated(Some(user))
    ensures IsAuthenticated(None)
  {
  }
}
