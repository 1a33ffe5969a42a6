# php-mvc-core in Dafny

A model of the core of the `fvucemilo/php-mvc-core` framework, with
proofs of what each part promises:

- **Router**:
  - per-method route tables, where re-registering a URL replaces its handler in place;
  - the two-pass resolution of a request: an exact lookup, then a pattern pass over trimmed routes with `{name}` / `{name:regex}` placeholders;
  - the dispatch decision: view, controller action guarded by ordered middlewares, a callable, or not found.
- **Request**: query-string stripping, method normalisation and the route-parameter map.
- **Migration manager**: a state machine over the `migrations` ledger table and the directory listing.
  - Each migration's `up()` / `down()` is recorded in a trace.
  - The migrations whose `up()` / `down()` throw are a parameter.
- **Session and flash session**:
  - a key/value store whose missing or null entries read as `false`;
  - the mark-and-sweep life cycle of flash messages.
- **Model**: mass assignment by `loadData`, labels, and the per-attribute error bag with its templated rule messages.
- **Active record**:
  - the WHERE clause and named parameters of `buildWhereClause`;
  - the INSERT statements of `save` and `saveAll` and the values their binding loops attach;
  - `getId`, the constant `PRIMARY_KEY`.
- **Controller, auth middleware and authentication**: the middleware list, the deny rule, and login/logout state on the application and the session.
- **Events**: per-event listener lists appended by `dispatch` and run in order by `triggerEvent`, which stops at the first listener that throws.

Modelling choices:

- **Mutable source, mutable model.** Where the source mutates objects (`Router`, `Request`, `Session`, `FlashSession`, `Controller`, `Model`, `MigrationManager`, `EventDispatcher`), the model is a Dafny class whose methods are proved against pure specification functions. The lemmas are stated about those functions.
- **PHP arrays** are ordered sequences of pairs with unique keys. An assignment to an existing key keeps its place; a new key goes last.
- **Custom route regexes** (`{name:regex}`) are an opaque predicate `rx`.
- **I/O, the clock and the directory listing** are parameters.

## Model

| member | source | states |
|---|---|---|
| Routers.PutReplaces | src/Http/Routers/Router.php:54 | after registration the URL maps to the new handler and every other URL keeps its handler |
| Routers.PutKeepsOrder | src/Http/Routers/Router.php:54 | a re-registered URL keeps its position; a new URL is appended after all others |
| Routers.PutKeepsUnique | src/Http/Routers/Router.php:54 | a route table never holds the same URL twice |
| Routers.RegisterKeepsUnique | src/Http/Routers/Router.php:52-68 | registering for any method keeps every method's table free of duplicate URLs |
| Routers.RoutesFor | src/Http/Routers/Router.php:147-150 | `getRouteMap` of a method with no registrations is empty |
| Routers.RegisterReplaces | src/Http/Routers/Router.php:52-68 | registering for one method and URL changes only that URL's handler in that method's table; other methods' tables are untouched |
| Routers.PatternMatch | src/Http/Routers/Router.php:125-131 | a successful match yields exactly one captured value per placeholder name |
| Routers.PatternPassFirstMatch | src/Http/Routers/Router.php:119-135 | the first route in registration order that matches wins, with its handler and its name-to-capture parameters, whatever matches later |
| Routers.PatternPassNone | src/Http/Routers/Router.php:119-137 | the pattern pass finds nothing if and only if no route matches |
| Routers.PatternPassIgnoresSlashes | src/Http/Routers/Router.php:115 | leading and trailing slashes on the path do not change what the pattern pass finds |
| Routers.PatternParams | src/Http/Routers/Router.php:125-133 | a route of `{name}` placeholders separated by non-word literals matches every path that fills them with word strings, and the request gets exactly those strings under the placeholder names |
| Routers.FirstRegisteredPatternWins | src/Http/Routers/Router.php:119-135 | `/users/{id}` registered before `/users/{id:\d+}` takes `/users/42`, with `id => "42"` |
| Routers.ParseUsersId | src/Http/Routers/Router.php:125-127 | the route `users/{id}` reads as the literal `users/` followed by one word placeholder `id` |
| Routers.FirstDenial | src/Http/Routers/Router.php:97-98 | the index found is that of the first middleware that throws for the action; none is found exactly when no middleware throws |
| Routers.ExactHitFirst | src/Http/Routers/Router.php:82-89 | an exact hit on the untrimmed path is served without the pattern pass; a view name is rendered and a callable is called |
| Routers.ControllerHitRunsMiddlewaresInOrder | src/Http/Routers/Router.php:90-100 | an exact controller hit is invoked if and only if no middleware denies the action; otherwise it is forbidden by the first middleware that denies, and no earlier one denies |
| Routers.MissGoesToPatternPass | src/Http/Routers/Router.php:82-102 | without a usable exact hit, the request is not found exactly when the pattern pass fails; otherwise the matched handler is called as it is, never as a view or a controller |
| Routers.NothingRegisteredIsNotFound | src/Http/Routers/Router.php:84-86 | a router with no routes answers every request with not found |
| Routers.ResolutionIgnoresSlashes | src/Http/Routers/Router.php:113-121 | with neither spelling registered verbatim, `/a/b/` and `a/b` resolve alike |
| Routers.Router.constructor | src/Http/Routers/Router.php:38-42 | a new router holds the request and no routes, so no table repeats a URL |
| Routers.Router.Get | src/Http/Routers/Router.php:52-55 | the GET table after registration is the old one with the URL's handler put in place; no table repeats a URL |
| Routers.Router.Post | src/Http/Routers/Router.php:65-68 | the POST table after registration is the old one with the URL's handler put in place; no table repeats a URL |
| Routers.Router.GetRouteMap | src/Http/Routers/Router.php:147-150 | the method's table, or an empty one for a method with no routes |
| Routers.Router.GetCallback | src/Http/Routers/Router.php:110-138 | returns the first matching route's handler and replaces the request's parameters with that match's parameters; when nothing matches it returns none and leaves the parameters alone |
| Routers.Router.Resolve | src/Http/Routers/Router.php:78-103 | the outcome is the resolution of the routes, method, path and user. An exact controller hit makes a fresh controller the application's active one, with the action and the class's middlewares. Only a pattern match changes the request's parameters |
| RoutePatterns.TokenAt | src/Http/Routers/Router.php:125 | a placeholder recognised at the start of a route spans a prefix of the text, and that prefix spells the placeholder exactly |
| RoutePatterns.ParseText | src/Http/Routers/Router.php:125-127 | parsing a route into literals and placeholders loses nothing: the segments spell the route back |
| RoutePatterns.ParseLiteralPrefix | src/Http/Routers/Router.php:127 | literal text without `{` before the rest of a route becomes one literal segment |
| RoutePatterns.Match | src/Http/Routers/Router.php:127-131 | an anchored match yields one value per placeholder |
| RoutePatterns.MatchSound | src/Http/Routers/Router.php:127-131 | putting the captured values back into the pattern gives the path, and each value is accepted by its placeholder's group |
| RoutePatterns.MatchFill | src/Http/Routers/Router.php:125-131 | for separated `{name}` patterns, any non-empty word strings put in for the placeholders give a path that matches, and the match yields those strings |
| RoutePatterns.Combine | src/Http/Routers/Router.php:132 | `array_combine` has exactly the placeholder names as keys |
| RoutePatterns.CombineAt | src/Http/Routers/Router.php:132 | the i-th name gets the i-th value unless a later placeholder reuses the name |
| Strings.TrimLeftSpec | src/Http/Routers/Router.php:115 | `ltrim` keeps a suffix, drops only the trimmed character, and stops at the first other character |
| Strings.TrimRightSpec | src/Http/Routers/Router.php:115 | `rtrim` keeps a prefix, drops only the trimmed character, and stops at the last other character |
| Strings.TrimIgnoresEnds | src/Http/Routers/Router.php:121 | one more slash at either end does not change the trimmed text |
| Strings.TrimIdempotent | src/Http/Routers/Router.php:121 | trimming twice is trimming once, and a trimmed text neither starts nor ends with the trimmed character |
| Strings.JoinSnoc | src/DB/ORM/ActiveRecord.php:53 | `implode` of one more piece puts one more separator before it |
| Strings.SplitJoin | src/DB/ORM/ActiveRecord.php:109-110 | splitting what was imploded on a character no piece contains gives the pieces back |
| Strings.ReplaceAbsent | src/MVC/Models/Model.php:131 | `str_replace` leaves a text in which the search string cannot begin unchanged |
| Strings.ReplaceFirst | src/MVC/Models/Model.php:131 | `str_replace` replaces the first occurrence and resumes scanning right after it |
| Strings.ToLowerIdempotent | src/Http/Requests/Request.php:58 | `strtolower` keeps the length and is idempotent |
| Requests.StripQuery | src/Http/Requests/Request.php:20-26 | the path is a prefix of the URI without `?`, ending just before the first `?` if there is one |
| Requests.StripQueryNoQuery | src/Http/Requests/Request.php:24 | a URI without `?` is returned unchanged |
| Requests.StripQueryIdempotent | src/Http/Requests/Request.php:22-25 | stripping a stripped path changes nothing |
| Requests.StripQueryIgnoresQuery | src/Http/Requests/Request.php:23-24 | whatever the query holds, it never reaches the path |
| Requests.Request.constructor | src/Http/Requests/Request.php:13 | route parameters start empty |
| Requests.Request.Url | src/Http/Requests/Request.php:20-26 | `getUrl` is the URI up to its first `?`, or all of it when there is none |
| Requests.Request.IsGet | src/Http/Requests/Request.php:46-49 | `isGet` holds exactly for `GET` in any mix of cases |
| Requests.Request.Method | src/Http/Requests/Request.php:56-59 | `getMethod` keeps the length, lowers every ASCII capital and changes no other character |
| Requests.Request.IsPost | src/Http/Requests/Request.php:66-69 | `isPost` holds exactly for `POST` in any mix of cases |
| Requests.Request.GetRouteParams | src/Http/Requests/Request.php:76-79 | returns the parameters the last pattern match stored |
| Requests.Request.SetRouteParams | src/Http/Requests/Request.php:88-92 | replaces the whole parameter map and returns the same request |
| Requests.Request.GetRouteParam | src/Http/Requests/Request.php:102-105 | the stored value for a present key, otherwise the supplied default |
| Requests.GetPostExclusive | src/Http/Requests/Request.php:46-69 | a request is never both GET and POST; it is GET exactly when its lower-cased method is `get` |
| Requests.UpperCaseGetIsGet | src/Http/Requests/Request.php:58 | `GET` and `Get` both normalise to `get`, and `POST` to `post` |
| Sessions.Lookup | src/Http/Sessions/Session.php:51-54 | the stored value for a present non-null key, `false` for a missing or null one; never null |
| Sessions.LookupAfterWrite | src/Http/Sessions/Session.php:39-66 | `get` after `set` of a non-null value sees the value and after `remove` sees `false`; other keys are unaffected by either |
| Sessions.LookupAfterWriteNull | src/Http/Sessions/Session.php:39-54 | `get` after `set` of null sees `false`, just as after `remove` |
| Sessions.MarkAll | src/Http/Sessions/FlashSession.php:29-33 | every existing flash message is marked for removal with its value kept, and no key is added or lost |
| Sessions.Sweep | src/Http/Sessions/FlashSession.php:88-97 | exactly the marked messages are dropped; the others stay unchanged |
| Sessions.FlashLivesOneMoreRequest | src/Http/Sessions/FlashSession.php:25-97 | a message set during a request survives that request's sweep unmarked and is gone after the next request's sweep |
| Sessions.SweepAfterMarkAllEmpties | src/Http/Sessions/FlashSession.php:29-33 | nothing present when a request starts survives its sweep unless set again |
| Sessions.ReadMessageIsSwept | src/Http/Sessions/FlashSession.php:43-55 | `get` returns the stored value and marks the message, so it does not outlive the current request |
| Sessions.Session.constructor | src/Http/Sessions/Session.php:24-29 | the new session's flash helper works on this same session, whose existing flash messages are now all marked |
| Sessions.Session.Get | src/Http/Sessions/Session.php:51-54 | the stored value for a present non-null key, `false` for a missing or null one |
| Sessions.Session.Set | src/Http/Sessions/Session.php:39-42 | the key maps to the value; nothing else changes |
| Sessions.Session.Remove | src/Http/Sessions/Session.php:63-66 | the key is gone; nothing else changes |
| Sessions.FlashSession.constructor | src/Http/Sessions/FlashSession.php:25-34 | every existing flash message is marked for removal |
| Sessions.FlashSession.Get | src/Http/Sessions/FlashSession.php:43-55 | returns the stored value or `false`; a present truthy message is marked, and otherwise the session is not written |
| Sessions.FlashSession.Set | src/Http/Sessions/FlashSession.php:65-73 | stores an unmarked message under the key, replacing any earlier one |
| Sessions.FlashSession.ClearRemovedFlashMessages | src/Http/Sessions/FlashSession.php:88-97 | the stored messages become their sweep |
| Sessions.FlashSession.Clear | src/Http/Sessions/FlashSession.php:104-107 | the flash entry is removed from the session, which then holds no messages |
| Authentication.IsAuthenticatedIsInverted | src/Security/Authentications/BaseAuthentication.php:18-21 | `isAuthenticated` holds exactly when nobody is signed in |
| Middlewares.NeverDeniesWhenNotAuthenticated | src/Middlewares/AuthMiddleware.php:37 | when `isAuthenticated()` is false, `execute` never throws |
| Middlewares.EmptyListGuardsEverything | src/Middlewares/AuthMiddleware.php:24-38 | the default middleware, with no actions listed, denies every action when `isAuthenticated()` holds |
| Middlewares.UnlistedActionIsAllowed | src/Middlewares/AuthMiddleware.php:37-39 | with a non-empty list, an unlisted action is never denied |
| Middlewares.SignedInUserIsNeverDenied | src/Middlewares/AuthMiddleware.php:37-39 | a signed-in user is never denied; with nobody signed in, every guarded action is denied |
| Controllers.Controller.constructor | src/MVC/Controllers/Controller.php:17-27 | a fresh controller has an empty layout, an empty action and no middlewares |
| Controllers.Controller.SetLayout | src/MVC/Controllers/Controller.php:36-39 | the layout becomes exactly the given string |
| Controllers.Controller.RegisterMiddleware | src/MVC/Controllers/Controller.php:61-64 | appends the middleware; earlier ones keep their places |
| Controllers.Controller.GetMiddlewares | src/MVC/Controllers/Controller.php:71-74 | the registered middlewares, in registration order |
| App.Application.constructor | src/Application.php:105-124 | a fresh application holds the session, no user and no active controller |
| EmailAndPasswordAuth.Login | src/Security/Authentications/EmailAndPasswordAuthentication.php:20-28 | returns true, signs the user in (so `isAuthenticated` is false), and stores the user's primary-key value under session key `user` |
| EmailAndPasswordAuth.Logout | src/Security/Authentications/EmailAndPasswordAuthentication.php:35-39 | signs the user out (so `isAuthenticated` is true) and removes the session key `user` |
| EmailAndPasswordAuth.LoginThenLogout | src/Security/Authentications/EmailAndPasswordAuthentication.php:20-39 | login then logout leaves no user and no `user` key; every other session key reads as before |
| Migrations.Created | src/DB/Migrations/MigrationManager.php:89-96 | after create-if-not-exists the table exists, and an existing table is untouched |
| Migrations.NewRows | src/DB/Migrations/MigrationManager.php:132-137 | the batch insert gives one row per new name, in order, with consecutive ids and one shared timestamp |
| Migrations.Saved | src/DB/Migrations/MigrationManager.php:132-137 | the ledger names after saving are the earlier names followed by the batch |
| Migrations.SavedKeepsValid | src/DB/Migrations/MigrationManager.php:132-137 | saving keeps the ids strictly increasing and below the next auto-increment value |
| Migrations.DiffSpec | src/DB/Migrations/MigrationManager.php:66 | `array_diff` keeps exactly the listed files that are not in the ledger |
| Migrations.IntersectSpec | src/DB/Migrations/MigrationManager.php:157 | `array_intersect` keeps exactly the ledger names that are on disk, each no more often than the ledger lists it |
| Migrations.SkipDotsSpec | src/DB/Migrations/MigrationManager.php:68 | skipping `.` and `..` keeps exactly the other entries, none more often than before |
| Migrations.PendingNone | src/DB/Migrations/MigrationManager.php:66-68 | when every non-dot file is in the ledger, nothing is pending |
| Migrations.PendingSpec | src/DB/Migrations/MigrationManager.php:66-68 | the pending migrations are exactly the listed non-dot files that are not in the ledger |
| Migrations.FirstInSpec | src/DB/Migrations/MigrationManager.php:67-76 | the run stops at the first migration that throws, and runs to the end exactly when none throws |
| Migrations.ApplyRecordsPending | src/DB/Migrations/MigrationManager.php:58-78 | a successful apply calls `up()` on exactly the pending migrations in listing order and appends exactly those names to the ledger |
| Migrations.ApplyFailureRecordsNothing | src/DB/Migrations/MigrationManager.php:67-77 | when an `up()` throws, nothing is recorded, the earlier `up()`s ran, and the throwing one was the last called |
| Migrations.ApplyKeepsValid | src/DB/Migrations/MigrationManager.php:58-78 | applying keeps the ledger's ids strictly increasing |
| Migrations.ApplyIdempotent | src/DB/Migrations/MigrationManager.php:66-77 | a second apply over the same listing calls nothing and writes nothing |
| Migrations.SortDesc | src/DB/Migrations/MigrationManager.php:162 | `rsort` returns a permutation of its input |
| Migrations.SortDescSorted | src/DB/Migrations/MigrationManager.php:162 | `rsort` returns its input in descending byte order |
| Migrations.UndoAllDownsThenDrops | src/DB/Migrations/MigrationManager.php:146-167 | without targets only the table creation happens; with targets and no throwing `down()` the undo completes; a completed undo calls `down()` on each target in the undo order and leaves the table dropped |
| Migrations.DownOrderDescending | src/DB/Migrations/MigrationManager.php:157-162 | the names are undone in descending byte order |
| Migrations.DownOrderMembers | src/DB/Migrations/MigrationManager.php:157-180 | exactly the non-dot ledger names found on disk are undone, each no more often than the ledger lists it |
| Migrations.UndoAllThenApply | src/DB/Migrations/MigrationManager.php:58-167 | after a successful undo-all, an apply in which no `up()` throws records every migration on disk again, in listing order |
| Migrations.LatestIndex | src/DB/Migrations/MigrationManager.php:255-260 | the row chosen has the greatest `created_at`; among equal timestamps it is the last inserted |
| Migrations.RemoveIdExactlyOne | src/DB/Migrations/MigrationManager.php:244-245 | deleting a row's unique id removes that row alone and keeps the rest in order |
| Migrations.UndoLastRemovesLatest | src/DB/Migrations/MigrationManager.php:228-246 | on an empty ledger nothing happens; when the latest row's `down()` does not throw the undo completes; a completed undo called `down()` on that migration and removed exactly that row |
| Migrations.RemoveAtKeepsValid | src/DB/Migrations/MigrationManager.php:244-245 | removing one row keeps the ids strictly increasing |
| Migrations.UndoLastAsWrittenRepeatsDown | src/DB/Migrations/MigrationManager.php:244 | as written, the row survives, so a second undo-last calls the same `down()` again |
| Migrations.RequiredPath | src/DB/Migrations/MigrationManager.php:64-69 | the loaded file is the default directory and the name with no `/` between them, so it is not the file inside the directory |
| Migrations.ApplyAsWrittenRunsNoUp | src/DB/Migrations/MigrationManager.php:58-69 | as written, an apply with something pending creates the table and then fails to load the first file, calling no `up()` and recording nothing; loading from the directory itself, the same apply runs and records every pending migration |
| Migrations.UndoAllAsWrittenIsInert | src/DB/Migrations/MigrationManager.php:146-148 | as written, undo-all calls no `down()` and changes nothing, even when the corrected version would undo a migration |
| Migrations.MigrationManager.constructor | src/DB/Migrations/MigrationManager.php:45-49 | the manager starts over the given ledger with an empty trace |
| Migrations.MigrationManager.CreateMigrationsTable | src/DB/Migrations/MigrationManager.php:89-96 | the ledger becomes its created form |
| Migrations.MigrationManager.GetAppliedMigrations | src/DB/Migrations/MigrationManager.php:105-110 | returns the ledger names in table order |
| Migrations.MigrationManager.SaveMigrations | src/DB/Migrations/MigrationManager.php:132-137 | the ledger gains the batch of rows |
| Migrations.MigrationManager.ApplyMigrations | src/DB/Migrations/MigrationManager.php:58-78 | the ledger, the trace and the outcome are those of the apply transition |
| Migrations.MigrationManager.GetDroppedMigrations | src/DB/Migrations/MigrationManager.php:177-191 | `down()` runs on the non-dot names in the given order up to the first that throws; the names returned are those that completed |
| Migrations.RemoveNamesSpec | src/DB/Migrations/MigrationManager.php:201-209 | a row survives the DELETE exactly when it was there and its name is not listed |
| Migrations.RemoveNamesKeepsValid | src/DB/Migrations/MigrationManager.php:201-209 | deleting rows by name keeps ids strictly increasing and below the next id |
| Migrations.MigrationManager.RemoveDroppedMigrations | src/DB/Migrations/MigrationManager.php:201-209 | an empty list changes nothing; otherwise the rows with those names are deleted and every other row stays |
| Migrations.MigrationManager.DropMigrationsTable | src/DB/Migrations/MigrationManager.php:218-221 | the table no longer exists |
| Migrations.MigrationManager.UndoMigrations | src/DB/Migrations/MigrationManager.php:146-167 | the ledger, the trace and the outcome are those of the undo-all transition |
| Migrations.MigrationManager.GetLastAppliedMigration | src/DB/Migrations/MigrationManager.php:255-260 | none on an empty table, otherwise the latest row |
| Migrations.MigrationManager.UndoLastMigration | src/DB/Migrations/MigrationManager.php:228-246 | the ledger, the trace and the outcome are those of the corrected undo-last transition |
| Migrations.ThreeMigrationsApplied | src/DB/Migrations/MigrationManager.php:58-78 | three migrations on disk and no table: all three `up()`s run in order and are saved with ids 1 to 3 |
| Migrations.ThreeMigrationsUndone | src/DB/Migrations/MigrationManager.php:228-246 | when all rows share one timestamp, undo-last undoes the last inserted row |
| Migrations.ThreeMigrationsScenario | src/DB/Migrations/MigrationManager.php:58-246 | applying three migrations then undoing the last calls `down()` on `003_seed` only and keeps the other two rows |
| Models.ErrorMessage | src/MVC/Models/Model.php:142-162 | exactly the six rule names have a template, e.g. `unique` maps to the record-exists message and `min` to the minimum-length message |
| Models.WithField | src/MVC/Models/Model.php:129 | a supplied `field` is kept; otherwise `field => attribute` is appended last |
| Models.Placeholder | src/MVC/Models/Model.php:131 | the placeholder is the key between braces |
| Models.FillWithoutPlaceholders | src/MVC/Models/Model.php:131 | a template without `{` is left as it is |
| Models.UniqueMessageNamesAttribute | src/MVC/Models/Model.php:127-133 | a unique-rule error reads `A record with this <attribute> already exists` |
| Models.MinMessageStatesBound | src/MVC/Models/Model.php:127-131 | a min-rule error states the bound it was given |
| Models.SuppliedFieldWins | src/MVC/Models/Model.php:129 | a caller-supplied `field` is named instead of the attribute |
| Models.LoadKeepsProperties | src/MVC/Models/Model.php:35-38 | loading never adds or removes a property |
| Models.LoadTakesLastValue | src/MVC/Models/Model.php:37 | after a complete load, each property holds the last value the data gives it; properties the data does not name keep their value |
| Models.LoadIdempotent | src/MVC/Models/Model.php:35-38 | loading the same data twice is loading it once |
| Models.LoadCompleteness | src/MVC/Models/Model.php:37 | whether a load completes depends only on the data |
| Models.AppendKeepsEarlier | src/MVC/Models/Model.php:172-175 | adding an error appends it to the attribute's list, keeps the earlier ones and leaves other attributes alone |
| Models.FirstErrorIsOldest | src/MVC/Models/Model.php:196-200 | later additions never change the first error |
| Models.AddedErrorIsReported | src/MVC/Models/Model.php:172-187 | after an error is added the error bag is non-empty and the attribute's list ends with that message |
| Models.Model.constructor | src/MVC/Models/Model.php:26 | a new model has the given properties and labels and no errors |
| Models.Model.LoadData | src/MVC/Models/Model.php:35-38 | the properties become the load of the data, and the load completes unless it reached an `errors` key |
| Models.Model.GetLabel | src/MVC/Models/Model.php:56-59 | the defined label, otherwise the attribute name itself |
| Models.Model.AddErrorByRule | src/MVC/Models/Model.php:127-133 | a known rule's filled message is appended to the attribute's errors; an unknown rule records nothing |
| Models.Model.AddError | src/MVC/Models/Model.php:172-175 | the message is appended to the attribute's list |
| Models.Model.HasError | src/MVC/Models/Model.php:184-187 | `false` exactly when the attribute has no entry, otherwise its messages |
| Models.Model.GetFirstError | src/MVC/Models/Model.php:196-200 | the first recorded message, or `''` |
| Models.ValidExactlyWithoutErrors | src/MVC/Models/Model.php:105 | `validate`'s result is true exactly when `hasError` is false for every attribute, and then every first error is `''` |
| ActiveRecords.Placeholder | src/DB/ORM/ActiveRecord.php:108 | the placeholder is `:` followed by the column name |
| ActiveRecords.WhereClause | src/DB/ORM/ActiveRecord.php:47-57 | the clause is empty exactly when there is no condition map; an empty map gives ` WHERE ` |
| ActiveRecords.BuildWhereClause | src/DB/ORM/ActiveRecord.php:47-57 | returns the clause and the parameters the specification functions give |
| ActiveRecords.ConditionsUseParams | src/DB/ORM/ActiveRecord.php:52-54 | the i-th condition compares the i-th key with the i-th parameter's name, which carries the i-th value; there are as many conditions as parameters as keys |
| ActiveRecords.ParamsLookup | src/DB/ORM/ActiveRecord.php:54 | `:key` looks up the key's value, and no other name is bound |
| ActiveRecords.AddedConditionComesLast | src/DB/ORM/ActiveRecord.php:53 | one more key appends ` AND key = :key` to the clause |
| ActiveRecords.SingleCondition | src/DB/ORM/ActiveRecord.php:53 | one key gives ` WHERE key = :key` |
| ActiveRecords.SaveListsEachAttributeTwice | src/DB/ORM/ActiveRecord.php:107-110 | `save`'s column list and placeholder list name the same attributes in the same order |
| ActiveRecords.BindRecordSpec | src/DB/ORM/ActiveRecord.php:111 | binding sets each attribute's placeholder to the record's value and leaves other names alone |
| ActiveRecords.SaveInsertsTheRecord | src/DB/ORM/ActiveRecord.php:104-113 | `save` binds exactly the placeholders its statement names, and the row read through them is the record's values |
| ActiveRecords.SaveAllStatement | src/DB/ORM/ActiveRecord.php:123-132 | no statement exactly when the list is empty |
| ActiveRecords.SaveAllRowsRepeatLast | src/DB/ORM/ActiveRecord.php:128-133 | as written, every inserted row carries the last record's values |
| ActiveRecords.SaveAllLosesFirstRecord | src/DB/ORM/ActiveRecord.php:128-133 | records named `a` then `b`: the first row is inserted with `b` |
| ActiveRecords.SaveAllPositional | src/DB/ORM/ActiveRecord.php:123-132 | the corrected statement is absent exactly when the list is empty |
| ActiveRecords.PositionalInsertsEachRecord | src/DB/ORM/ActiveRecord.php:128-133 | with positional values, every record becomes its own row, in order |
| ActiveRecords.SaveAllPositionalInsertsRecords | src/DB/ORM/ActiveRecord.php:128-133 | the corrected `saveAll` inserts exactly the given records |
| Events.DispatchAppends | src/App/EventDispatcher/EventDispatcher.php:18-21 | the callback joins the end of its event's list; the earlier callbacks and every other event's list are unchanged |
| Events.DispatchOrder | src/App/EventDispatcher/EventDispatcher.php:20 | callbacks dispatched one after another run in that order, after those already there |
| Events.DispatchTwiceRunsTwice | src/App/EventDispatcher/EventDispatcher.php:20 | dispatching a callback twice makes it occur two more times in its event's list |
| Events.Listener.constructor | src/App/EventDispatcher/Event.php:36 | the listener instance is of the callback's class |
| Events.EventDispatcher.constructor | src/App/EventDispatcher/Event.php:23 | no listeners are registered |
| Events.EventDispatcher.Dispatch | src/App/EventDispatcher/EventDispatcher.php:18-21 | the registry becomes the old one with the callback appended to its event |
| Events.FirstFailing | src/App/EventDispatcher/Event.php:35-40 | the first callback whose method throws, with none before it throwing; none exactly when no callback throws |
| Events.Handed | src/App/EventDispatcher/Event.php:35-40 | every listener runs when none throws; otherwise the loop ends right after the first that throws |
| Events.StopsAfter | src/App/EventDispatcher/Event.php:35-40 | when the `i`-th listener throws and none before it did, exactly `i` listeners run |
| Events.FailingFirstIsKept | src/App/EventDispatcher/Event.php:35-40 | callbacks after the first that throws never change where the loop stops |
| Events.DispatchAfterFailureNeverRuns | src/App/EventDispatcher/EventDispatcher.php:20 | callbacks dispatched after one that throws never run when the event is triggered |
| Events.EventDispatcher.RunListeners | src/App/EventDispatcher/Event.php:35-40 | fresh, distinct instances for the callbacks up to and including the first that throws, in order, each of its callback's class and with `action` set to its method; `thrown` is that callback |
| Events.EventDispatcher.TriggerEvent | src/App/EventDispatcher/Event.php:32-41 | `calls` gains exactly the instances handed over before the loop ends, in registration order, and the throwing callback is reported; the registry is unchanged |

## Left out

- I/O: PDO execution, `echo` logging, `scandir`, `require_once` and `session_start` are not modelled. The superglobals `$_SERVER`, `$_GET` and `$_POST` become constructor arguments, and `filter_input` in `Request::getBody` is not modelled.
- `Model::validate`: its rule loop is not modelled. Every case of its `switch` falls through to the `unique` case, which queries the database, and `filter_var` validates the email. Only the error bag that decides its result is modelled.
- Custom route regexes are an opaque predicate. Literal route text is matched exactly, although the source puts it into the regex without escaping. A placeholder's capture is the longest one that lets the rest match. That is PCRE's order for the default `(\w+)` and for greedy custom bodies, but not for a custom body with alternation or lazy quantifiers: for `{x:a|ab}{y:b?}` on `ab`, PCRE gives `x = a`, `y = b` where the model gives `x = ab`, `y = ''`. The model also assumes custom bodies hold no capturing group of their own; with one, the value count no longer matches the name count and `array_combine` throws. The route regex ends in `$` without the `D` modifier, so PCRE also accepts a path with one trailing newline (`users/42` followed by `\n` matches `users/{id}`); the model's anchored match does not, since an HTTP request line cannot carry that path.
- Route keys that PHP would turn into integers, and PHP's other type juggling on array keys, are not modelled: every key is a string.
- The views that handlers render and what a controller action or event listener does once called belong to application code. The model records the call and goes no further.
- `find`, `findOne`, `aggregate`, `delete` and `deleteAll` are not modelled beyond the WHERE clause they share. Each only prepares and runs a statement.
- The SQL text of `saveMigrations`, `removeDroppedMigrations` and `createMigrationsTable`, and its quoting of names, is modelled as its effect on the ledger. The table engine and the `dsn` lookups are not modelled. As written, `Database::getTableEngineName` (called at line 151) opens a connection with an empty DSN, which throws, and `getDatabaseName` returns the DSN's path part rather than the database name. UndoAll and the members built on it assume both lookups succeed.
- Migrations.SortDesc: `rsort`'s own ordering of numeric-looking names is not modelled. Names are compared character by character, which agrees with PHP's byte order only for ASCII names.
- Sessions.Messages: a session whose flash entry is missing or `false` is read as holding no messages. Both `?? []` and PHP's handling of `false` in `foreach` make it behave that way. Where the source would write `false` back, the model writes an empty bag.
- Migrations.LatestIndex: among rows with equal `created_at`, the database's order for `ORDER BY created_at DESC LIMIT 1` is unspecified. The model takes the last inserted row.
- ActiveRecords.SaveAllRows: the model assumes the driver binds a named placeholder that appears several times once, to the last value given (PDO's emulated prepares). A driver that rejects the repeated names would fail the whole statement instead.
- App.Application.constructor: restoring the signed-in user from the session's `user` key needs a `findOne` query, so the model starts with nobody signed in.
- Events.EventDispatcher.Dispatch: only `[class, method]` callbacks are modelled. `dispatch` accepts any value, and `triggerEvent` throws at `new $callback[0]` for one that is not such a pair or names no class, before any instance is made. The model covers only a throw from the listener's method, after its instance was handed over.
- Loading migration files: as written, `migrations_path` always falls back to `/migrations` and is joined to the file name without a `/` (lines 64-69, 181-182 and 237-238), so `require_once` fails on the first migration it needs. Only ApplyAsWritten models that. Every other migration member assumes each migration file loads, as it would with the path joined correctly.
- Controllers.Controller.RegisterMiddleware: the source accepts any `BaseMiddleware`, but only `AuthMiddleware` and its deny rule are modelled. Other middleware classes and their `execute()` belong to application code.
- Middlewares.Denies: `in_array` compares loosely, the model exactly. The two agree when the listed actions are strings, because the action is a method name and so never a numeric string. A listed `true`, for instance, would match every action in PHP.
- Assigning a value of the wrong type to a typed property is modelled only for the inherited `errors` property in `loadData`; other properties hold strings.

## Findings

| source | as written | input that shows it | evidently intended | confidence | as-written member | corrected member |
|---|---|---|---|---|---|---|
| src/DB/Migrations/MigrationManager.php:244 | `undoLastMigration` prepares `DELETE FROM  WHERE id = ?` with no table name, so the statement fails after `down()` has run and the row stays | a ledger holding one migration, once its file loads: undo-last twice calls its `down()` twice | delete the latest row from the `migrations` table | not executed | Migrations.UndoLastAsWrittenRepeatsDown | Migrations.UndoLastRemovesLatest |
| src/DB/Migrations/MigrationManager.php:69 | `migrations_path` always falls back to `/migrations`, because the configuration is never stored. It is joined to the file name without a `/`, so `require_once` loads `<root>/migrations001_init.php` instead of `<root>/migrations/001_init.php`. The same join is at lines 182 and 238 | a new database and the listing `001_init.php`: apply creates the table, then fails to load the file; no `up()` runs and nothing is recorded | put a `/` between the directory and the file name, so that every pending `up()` runs and is recorded | not executed | Migrations.ApplyAsWrittenRunsNoUp | Migrations.ApplyRecordsPending |
| src/DB/Migrations/MigrationManager.php:48 | the constructor assigns `$this->$dbConfig`, a variable property name. `$dbConfig` is the array parameter, so PHP converts it to the name `Array`, with an "Array to string conversion" warning. The typed `dbConfig` property declared at line 24 is never initialised. `undoMigrations` then fails at line 148 reading `dbConfig['dsn']`, before any `down()` runs | any ledger whose migrations are still on disk: undo-all calls no `down()` and deletes no row | store the configuration in `dbConfig`. Undo-all also needs the table-engine lookup at line 151 to succeed, and as written it throws too (see Left out). With both repaired, undo-all undoes every applied migration on disk | not executed | Migrations.UndoAllAsWrittenIsInert | Migrations.UndoAllDownsThenDrops |
| src/DB/ORM/ActiveRecord.php:128-133 | `saveAll` repeats the same `(:a,:b,...)` tuple for every record and binds each record's values to the same names, so only the last record's values remain bound | two records whose `name` is `a` and `b`: both inserted rows have `name` = `b` | one row per record with that record's values | not executed | ActiveRecords.SaveAllLosesFirstRecord | ActiveRecords.SaveAllPositionalInsertsRecords |
