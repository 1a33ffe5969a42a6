/**
 * The auth middleware: given the actions it guards (all actions when the list
 * is empty), it throws Forbidden for a guarded action whenever
 * `isAuthenticated()` holds, i.e. whenever no user is signed in.
 */
module Middlewares {
  import opened Php
  import opened Authentication

  /** `new AuthMiddleware($actions)`; the default list is empty. */
  datatype AuthMiddleware = AuthMiddleware(actions: seq<string>)

  const DEFAULT_AUTH_MIDDLEWARE := AuthMiddleware([])

  /** `execute()` throws exactly when this holds. */
  predicate Denies(m: AuthMiddleware, authenticated: bool, action: string) {
    authenticated && (|m.actions| == 0 || action in m.actions)
  }

  /** `execute()` for the application state it reads: the current user and the active action. */
  predicate DeniesUser(m: AuthMiddleware, user: Option<UserModel>, action: string) {
    Denies(m, IsAuthenticated(user), action)
  }

  /** With `isAuthenticated()` false the middleware never throws. */
  lemma NeverDeniesWhenNotAuthenticated(m: AuthMiddleware, action: string)
    ensures !Denies(m, false, action)
  {
  }

  /** The default middleware guards every action. */
  lemma EmptyListGuardsEverything(action: string)
    ensures Denies(DEFAULT_AUTH_MIDDLEWARE, true, action)
  {
  }

  /** With a non-empty list, only listed actions can be denied. */
  lemma UnlistedActionIsAllowed(m: AuthMiddleware, authenticated: bool, action: string)
    requires |m.actions| > 0 && action !in m.actions
    ensures !Denies(m, authenticated, action)
  {
  }

  /** Signing a user in lifts every denial; with nobody signed in, guarded actions are denied. */
  lemma SignedInUserIsNeverDenied(m: AuthMiddleware, user: UserModel, action: string)
    ensures !DeniesUser(m, Some(user), action)
    ensures (|m.actions| == 0 || action in m.actions) ==> DeniesUser(m, None, action)
  {
  }
}
