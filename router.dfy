/**
 * The router: per-method route tables, the two-pass lookup of a request and
 * the dispatch decision.
 *
 * A method's routes are a PHP array from URL to handler, so they are ordered
 * by first registration and re-registering a URL replaces its handler in
 * place. `resolve` looks the untrimmed path up exactly; when that misses (or
 * finds a falsy handler) `getCallback` trims the path and every route of `/`
 * and tries the routes as patterns in registration order. Only a handler
 * found by the exact lookup goes through the view / controller-and-middleware
 * branches; one found by the pattern pass is handed to `call_user_func` as it
 * is.
 */
module Routers {
  import opened Php
  import opened Strings
  import opened RoutePatterns
  import opened Requests
  import opened Authentication
  import opened Middlewares
  import opened Controllers
  import opened App

  /** What can be registered for a URL: a view name, `[ControllerClass, 'action']` or a closure. */
  datatype Handler =
    | View(name: string)
    | ControllerAction(controllerClass: string, action: string)
    | Callable(id: string)

  /** `!$callback` is false for every handler except a view name "" or "0". */
  predicate HandlerTruthy(h: Handler) {
    h.View? ==> TruthyString(h.name)
  }

  datatype Route = Route(url: string, handler: Handler)

  /** One method's routes in registration order. */
  type RouteTable = seq<Route>

  function Urls(t: RouteTable): (us: seq<string>)
    ensures |us| == |t|
    ensures forall i :: 0 <= i < |t| ==> us[i] == t[i].url
  {
    if t == [] then [] else [t[0].url] + Urls(t[1..])
  }

  predicate UniqueUrls(t: RouteTable) {
    forall i, j :: 0 <= i < j < |t| ==> t[i].url != t[j].url
  }

  /** `$routes[$url] ?? null`. */
  function Lookup(t: RouteTable, url: string): Option<Handler> {
    if t == [] then None
    else if t[0].url == url then Some(t[0].handler)
    else Lookup(t[1..], url)
  }

  /** `$routes[$url] = $callback`: replaces in place, or appends a new URL at the end. */
  function Put(t: RouteTable, url: string, h: Handler): RouteTable {
    if t == [] then [Route(url, h)]
    else if t[0].url == url then [Route(url, h)] + t[1..]
    else [t[0]] + Put(t[1..], url, h)
  }

  /** Registering stores the handler under its URL and changes no other URL's handler. */
  lemma {:induction false} PutReplaces(t: RouteTable, url: string, h: Handler, other: string)
    requires other != url
    ensures Lookup(Put(t, url, h), url) == Some(h)
    ensures Lookup(Put(t, url, h), other) == Lookup(t, other)
  {
    if t != [] && t[0].url != url {
      PutReplaces(t[1..], url, h, other);
      assert Put(t, url, h)[1..] == Put(t[1..], url, h);
    }
  }

  /** A URL already registered keeps its place; a new one goes last. */
  lemma {:induction false} PutKeepsOrder(t: RouteTable, url: string, h: Handler)
    ensures Urls(Put(t, url, h)) == if Lookup(t, url).Some? then Urls(t) else Urls(t) + [url]
  {
    if t != [] && t[0].url != url {
      var rest := Put(t[1..], url, h);
      PutKeepsOrder(t[1..], url, h);
      assert Put(t, url, h) == [t[0]] + rest;
      assert Urls([t[0]] + rest) == [t[0].url] + Urls(rest) by {
        assert ([t[0]] + rest)[1..] == rest;
      }
      assert Urls(t) == [t[0].url] + Urls(t[1..]);
      assert Lookup(t, url) == Lookup(t[1..], url);
    } else if t != [] {
      assert Put(t, url, h) == [Route(url, h)] + t[1..];
      assert ([Route(url, h)] + t[1..])[1..] == t[1..];
    }
  }

  /** A table never holds the same URL twice. */
  lemma {:induction false} PutKeepsUnique(t: RouteTable, url: string, h: Handler)
    requires UniqueUrls(t)
    ensures UniqueUrls(Put(t, url, h))
  {
    PutKeepsOrder(t, url, h);
    var r := Put(t, url, h);
    assert Urls(r) == if Lookup(t, url).Some? then Urls(t) else Urls(t) + [url];
    if Lookup(t, url).None? {
      LookupMissing(t, url);
    }
    forall i, j | 0 <= i < j < |r|
      ensures r[i].url != r[j].url
    {
      assert Urls(r)[i] == r[i].url && Urls(r)[j] == r[j].url;
    }
  }

  lemma {:induction false} LookupMissing(t: RouteTable, url: string)
    requires Lookup(t, url).None?
    ensures forall i :: 0 <= i < |t| ==> t[i].url != url
  {
    if t != [] {
      LookupMissing(t[1..], url);
      assert forall i :: 1 <= i < |t| ==> t[1..][i - 1] == t[i];
    }
  }

  /** `getRouteMap($method)`: the method's routes, or none at all. */
  function RoutesFor(routes: map<string, RouteTable>, verb: string): (t: RouteTable)
    ensures verb !in routes ==> t == []
  {
    if verb in routes then routes[verb] else []
  }

  /** `$this->routeMap[$method][$url] = $callback`. */
  function Register(routes: map<string, RouteTable>, verb: string, url: string, h: Handler): map<string, RouteTable> {
    routes[verb := Put(RoutesFor(routes, verb), url, h)]
  }

  /** Registration touches one method's table and, in it, one URL's handler. */
  lemma RegisterReplaces(routes: map<string, RouteTable>, verb: string, url: string, h: Handler,
                         otherMethod: string, otherUrl: string)
    requires otherMethod != verb && otherUrl != url
    ensures Lookup(RoutesFor(Register(routes, verb, url, h), verb), url) == Some(h)
    ensures Lookup(RoutesFor(Register(routes, verb, url, h), verb), otherUrl) == Lookup(RoutesFor(routes, verb), otherUrl)
    ensures RoutesFor(Register(routes, verb, url, h), otherMethod) == RoutesFor(routes, otherMethod)
  {
    PutReplaces(RoutesFor(routes, verb), url, h, otherUrl);
  }

  /** Every method's table holds each URL at most once. */
  predicate TablesUnique(routes: map<string, RouteTable>) {
    forall verb :: verb in routes ==> UniqueUrls(routes[verb])
  }

  /** Registering over an existing URL replaces its entry, so no table gains a duplicate. */
  lemma RegisterKeepsUnique(routes: map<string, RouteTable>, verb: string, url: string, h: Handler)
    requires TablesUnique(routes)
    ensures TablesUnique(Register(routes, verb, url, h))
  {
    PutKeepsUnique(RoutesFor(routes, verb), url, h);
  }

  // ------------------------------------------------------------ pattern pass

  /** The placeholder names of a trimmed route, in order (`$routeNames`). */
  function PatternNames(pattern: string): seq<string> {
    ParamNames(Parse(pattern))
  }

  /** The compiled route `@^...$@` tried against the trimmed path: the captures when it matches. */
  function PatternMatch(pattern: string, url: string, rx: Regex): (r: Option<seq<string>>)
    ensures r.Some? ==> |r.value| == |PatternNames(pattern)|
  {
    Match(Parse(pattern), url, rx)
  }

  /**
   * Route `r` as the pattern pass reads it, against the trimmed path `url`:
   * a route that trims to a falsy string is skipped.
   */
  function RouteMatch(r: Route, url: string, rx: Regex): Option<seq<string>> {
    var pattern := Trim(r.url, '/');
    if !TruthyString(pattern) then None else PatternMatch(pattern, url, rx)
  }

  /** The route parameters of a match: placeholder names zipped with the captures. */
  function RouteParams(r: Route, url: string, rx: Regex): map<string, string>
    requires RouteMatch(r, url, rx).Some?
  {
    Combine(PatternNames(Trim(r.url, '/')), RouteMatch(r, url, rx).value)
  }

  /** `getCallback` on the trimmed path: the first matching route's handler and parameters. */
  function PatternPass(t: RouteTable, url: string, rx: Regex): Option<(Handler, map<string, string>)> {
    if t == [] then None
    else if RouteMatch(t[0], url, rx).Some? then Some((t[0].handler, RouteParams(t[0], url, rx)))
    else PatternPass(t[1..], url, rx)
  }

  /** The first route that matches wins, whatever matches after it. */
  lemma {:induction false} PatternPassFirstMatch(t: RouteTable, url: string, rx: Regex, i: nat)
    requires i < |t| && RouteMatch(t[i], url, rx).Some?
    requires forall j :: 0 <= j < i ==> RouteMatch(t[j], url, rx).None?
    ensures PatternPass(t, url, rx) == Some((t[i].handler, RouteParams(t[i], url, rx)))
  {
    if i > 0 {
      var rest := t[1..];
      assert RouteMatch(t[0], url, rx).None?;
      assert rest[i - 1] == t[i];
      forall j | 0 <= j < i - 1
        ensures RouteMatch(rest[j], url, rx).None?
      {
        assert rest[j] == t[j + 1];
      }
      PatternPassFirstMatch(rest, url, rx, i - 1);
    }
  }

  /** The pattern pass fails exactly when no route matches. */
  lemma {:induction false} PatternPassNone(t: RouteTable, url: string, rx: Regex)
    ensures PatternPass(t, url, rx).None? <==> forall j :: 0 <= j < |t| ==> RouteMatch(t[j], url, rx).None?
  {
    if t != [] {
      PatternPassNone(t[1..], url, rx);
      assert forall j :: 1 <= j < |t| ==> t[1..][j - 1] == t[j];
    }
  }

  /** Slashes around the path do not change what the pattern pass finds. */
  lemma PatternPassIgnoresSlashes(t: RouteTable, path: string, rx: Regex)
    ensures PatternPass(t, Trim("/" + path + "/", '/'), rx) == PatternPass(t, Trim(path, '/'), rx)
  {
    TrimIgnoresEnds(path, '/');
    TrimIgnoresEnds("/" + path, '/');
  }

  /**
   * A route whose trimmed text reads as an unambiguous `{name}` pattern matches
   * every path made by putting word strings in for its placeholders, and the
   * request gets exactly those strings under the placeholders' names.
   */
  lemma PatternParams(r: Route, rest: RouteTable, vs: seq<string>, rx: Regex)
    requires var p := Trim(r.url, '/'); TruthyString(p) && Separated(Parse(p))
    requires |vs| == |ParamNames(Parse(Trim(r.url, '/')))|
    requires forall i :: 0 <= i < |vs| ==> |vs[i]| >= 1 && AllWordChars(vs[i])
    ensures var segs := Parse(Trim(r.url, '/'));
      PatternPass([r] + rest, Fill(segs, vs), rx) == Some((r.handler, Combine(ParamNames(segs), vs)))
  {
    var segs := Parse(Trim(r.url, '/'));
    MatchFill(segs, vs, rx);
  }

  /**
   * `/users/{id}` registered before `/users/{id:\d+}`: the path `/users/42`
   * is taken by the generic pattern because it comes first, with `id => "42"`.
   */
  lemma FirstRegisteredPatternWins(generic: Handler, numeric: Handler, rx: Regex)
    ensures PatternPass([Route("/users/{id}", generic), Route("/users/{id:\\d+}", numeric)], Trim("/users/42", '/'), rx)
         == Some((generic, map["id" := "42"]))
  {
    var r := Route("/users/{id}", generic);
    assert Trim("/users/{id}", '/') == "users/{id}";
    assert Trim("/users/42", '/') == "users/42";
    ParseUsersId();
    UsersIdSegments();
    PatternParams(r, [Route("/users/{id:\\d+}", numeric)], ["42"], rx);
  }

  lemma UsersIdSegments()
    ensures var segs := [Literal("users/"), Param("id", Word)];
      Separated(segs) && ParamNames(segs) == ["id"] && Fill(segs, ["42"]) == "users/42" &&
      AllWordChars("42") && Combine(["id"], ["42"]) == map["id" := "42"]
  {
    var segs := [Literal("users/"), Param("id", Word)];
    var tail := segs[1..];
    assert tail == [Param("id", Word)] && tail[1..] == [];
    assert ParamNames(tail) == ["id"];
    assert Fill(tail, ["42"]) == "42" + Fill([], []);
    assert Fill(segs, ["42"]) == "users/" + Fill(tail, ["42"]);
    assert "users/" + "42" == "users/42";
    assert Separated(tail);
    assert IsWordChar('4') && IsWordChar('2');
  }

  lemma ParseUsersId()
    ensures Parse("users/{id}") == [Literal("users/"), Param("id", Word)]
  {
    ParseIdToken();
    UsersLiteral();
    ParseLiteralPrefix("users/", "{id}");
  }

  lemma UsersLiteral()
    ensures '{' !in "users/" && "users/" + "{id}" == "users/{id}"
  {
  }

  lemma ParseIdToken()
    ensures Parse("{id}") == [Param("id", Word)]
  {
    IdWordRun();
    assert "{id}"[1..3] == "id";
    assert TokenAt("{id}") == Some((Param("id", Word), 4));
    assert "{id}"[4..] == [];
  }

  lemma IdWordRun()
    ensures "{id}"[1..] == "id}" && WordRun("id}") == 2
  {
    assert WordRun("}") == 0;
    assert "id}"[1..] == "d}" && "d}"[1..] == "}";
    assert WordRun("d}") == 1;
  }

  // ---------------------------------------------------------------- dispatch

  /** How `resolve` ends. */
  datatype Dispatch =
    | RenderView(view: string)
    | Invoke(controllerClass: string, action: string)
    | Forbidden(controllerClass: string, action: string, middleware: nat)
    | Call(handler: Handler)
    | CallMatched(handler: Handler, params: map<string, string>)
    | NotFound

  /** The first middleware whose `execute()` throws for `action`. */
  function FirstDenial(ms: seq<AuthMiddleware>, authenticated: bool, action: string): (r: Option<nat>)
    ensures r.Some? ==> r.value < |ms| && Denies(ms[r.value], authenticated, action)
    ensures r.Some? ==> forall j :: 0 <= j < r.value ==> !Denies(ms[j], authenticated, action)
    ensures r.None? <==> forall j :: 0 <= j < |ms| ==> !Denies(ms[j], authenticated, action)
  {
    if ms == [] then None
    else if Denies(ms[0], authenticated, action) then Some(0)
    else
      var rest := FirstDenial(ms[1..], authenticated, action);
      assert forall j :: 1 <= j < |ms| ==> ms[1..][j - 1] == ms[j];
      if rest.Some? then Some(rest.value + 1) else None
  }

  /** What an exact hit on a truthy handler leads to. */
  function ExactDispatch(h: Handler, user: Option<UserModel>, middlewaresOf: string -> seq<AuthMiddleware>): Dispatch {
    match h
    case View(v) => RenderView(v)
    case ControllerAction(c, a) =>
      var denial := FirstDenial(middlewaresOf(c), IsAuthenticated(user), a);
      if denial.Some? then Forbidden(c, a, denial.value) else Invoke(c, a)
    case Callable(_) => Call(h)
  }

  /**
   * `resolve()` for the registered routes, the request's method and path, the
   * signed-in user, the middlewares each controller class registers in its
   * constructor and the custom-regex oracle.
   */
  function Resolution(routes: map<string, RouteTable>, verb: string, url: string, user: Option<UserModel>,
                      middlewaresOf: string -> seq<AuthMiddleware>, rx: Regex): Dispatch {
    var t := RoutesFor(routes, verb);
    var exact := Lookup(t, url);
    if exact.Some? && HandlerTruthy(exact.value) then ExactDispatch(exact.value, user, middlewaresOf)
    else
      match PatternPass(t, Trim(url, '/'), rx)
      case Some((h, params)) => CallMatched(h, params)
      case None => NotFound
  }

  /** An exact hit on the untrimmed path is served without consulting any pattern. */
  lemma ExactHitFirst(routes: map<string, RouteTable>, verb: string, url: string, user: Option<UserModel>,
                      middlewaresOf: string -> seq<AuthMiddleware>, rx: Regex, h: Handler)
    requires Lookup(RoutesFor(routes, verb), url) == Some(h) && HandlerTruthy(h)
    ensures Resolution(routes, verb, url, user, middlewaresOf, rx) == ExactDispatch(h, user, middlewaresOf)
    ensures h.View? ==> Resolution(routes, verb, url, user, middlewaresOf, rx) == RenderView(h.name)
    ensures h.Callable? ==> Resolution(routes, verb, url, user, middlewaresOf, rx) == Call(h)
  {
  }

  /**
   * An exact controller hit is forbidden by the first middleware that denies
   * its action, and invoked only when none does.
   */
  lemma ControllerHitRunsMiddlewaresInOrder(routes: map<string, RouteTable>, verb: string, url: string,
                                            user: Option<UserModel>, middlewaresOf: string -> seq<AuthMiddleware>,
                                            rx: Regex, c: string, a: string)
    requires Lookup(RoutesFor(routes, verb), url) == Some(ControllerAction(c, a))
    ensures var d := Resolution(routes, verb, url, user, middlewaresOf, rx);
      var ms := middlewaresOf(c);
      (d == Invoke(c, a) <==> forall j :: 0 <= j < |ms| ==> !DeniesUser(ms[j], user, a)) &&
      (d.Forbidden? ==> d.controllerClass == c && d.action == a && d.middleware < |ms| &&
                        DeniesUser(ms[d.middleware], user, a) &&
                        forall j :: 0 <= j < d.middleware ==> !DeniesUser(ms[j], user, a)) &&
      (d.Invoke? || d.Forbidden?)
  {
  }

  /**
   * Without a usable exact hit the pattern pass decides alone, and what it
   * finds is called as it is, even a view name or a controller pair.
   */
  lemma MissGoesToPatternPass(routes: map<string, RouteTable>, verb: string, url: string, user: Option<UserModel>,
                              middlewaresOf: string -> seq<AuthMiddleware>, rx: Regex)
    requires var exact := Lookup(RoutesFor(routes, verb), url); exact.None? || !HandlerTruthy(exact.value)
    ensures var d := Resolution(routes, verb, url, user, middlewaresOf, rx);
      var p := PatternPass(RoutesFor(routes, verb), Trim(url, '/'), rx);
      (d == NotFound <==> p.None?) &&
      (p.Some? ==> d == CallMatched(p.value.0, p.value.1)) &&
      !d.RenderView? && !d.Invoke? && !d.Forbidden?
  {
  }

  /** A router nothing was registered on answers every request with NotFound. */
  lemma NothingRegisteredIsNotFound(verb: string, url: string, user: Option<UserModel>,
                                    middlewaresOf: string -> seq<AuthMiddleware>, rx: Regex)
    ensures RoutesFor(map[], verb) == []
    ensures Resolution(map[], verb, url, user, middlewaresOf, rx) == NotFound
  {
  }

  /** `/a/b/` and `a/b` resolve alike when neither is registered verbatim. */
  lemma ResolutionIgnoresSlashes(routes: map<string, RouteTable>, verb: string, path: string, user: Option<UserModel>,
                                 middlewaresOf: string -> seq<AuthMiddleware>, rx: Regex)
    requires Lookup(RoutesFor(routes, verb), path).None?
    requires Lookup(RoutesFor(routes, verb), "/" + path + "/").None?
    ensures Resolution(routes, verb, "/" + path + "/", user, middlewaresOf, rx)
         == Resolution(routes, verb, path, user, middlewaresOf, rx)
  {
    PatternPassIgnoresSlashes(RoutesFor(routes, verb), path, rx);
  }

  // ------------------------------------------------------------------ router

  class Router {
    const request: Request
    var routeMap: map<string, RouteTable>

    /** The route map as `get` and `post` leave it: no URL twice in one method's table. */
    predicate Valid()
      reads this
    {
      TablesUnique(routeMap)
    }

    constructor (request: Request)
      ensures this.request == request && routeMap == map[] && Valid()
    {
      this.request := request;
      routeMap := map[];
    }

    method Get(url: string, callback: Handler)
      requires Valid()
      modifies this`routeMap
      ensures routeMap == Register(old(routeMap), "get", url, callback) && Valid()
    {
      RegisterKeepsUnique(routeMap, "get", url, callback);
      var routes := RoutesFor(routeMap, "get");
      routeMap := routeMap["get" := Put(routes, url, callback)];
    }

    method Post(url: string, callback: Handler)
      requires Valid()
      modifies this`routeMap
      ensures routeMap == Register(old(routeMap), "post", url, callback) && Valid()
    {
      RegisterKeepsUnique(routeMap, "post", url, callback);
      var routes := RoutesFor(routeMap, "post");
      routeMap := routeMap["post" := Put(routes, url, callback)];
    }

    /** `getRouteMap`: the method's table, or an empty one for a method with no routes. */
    function GetRouteMap(verb: string): (t: RouteTable)
      reads this
      ensures verb in routeMap ==> t == routeMap[verb]
      ensures verb !in routeMap ==> t == []
    {
      RoutesFor(routeMap, verb)
    }

    /**
     * Tries the request's method's routes as patterns, in order, against the
     * trimmed path; on the first match the request's route parameters are
     * replaced and the handler returned.
     */
    method GetCallback(rx: Regex) returns (callback: Option<Handler>)
      modifies request`routeParams
      ensures var p := PatternPass(GetRouteMap(request.Method()), Trim(request.Url(), '/'), rx);
        (p.None? ==> callback.None? && request.routeParams == old(request.routeParams)) &&
        (p.Some? ==> callback == Some(p.value.0) && request.routeParams == p.value.1)
    {
      var url := Trim(request.Url(), '/');
      var routes := GetRouteMap(request.Method());
      var i := 0;
      while i < |routes|
        invariant i <= |routes|
        invariant PatternPass(routes[i..], url, rx) == PatternPass(routes, url, rx)
        invariant request.routeParams == old(request.routeParams)
      {
        ghost var rest := routes[i..];
        assert rest[0] == routes[i] && rest[1..] == routes[i + 1..];
        var route := Trim(routes[i].url, '/');
        if TruthyString(route) {
          var values := PatternMatch(route, url, rx);
          if values.Some? {
            var params := Combine(PatternNames(route), values.value);
            ghost var found := Some((routes[i].handler, params));
            assert PatternPass(rest, url, rx) == found;
            assert PatternPass(routes, url, rx) == found;
            var _ := request.SetRouteParams(params);
            assert PatternPass(GetRouteMap(request.Method()), Trim(request.Url(), '/'), rx) == found;
            return Some(routes[i].handler);
          }
        }
        assert RouteMatch(routes[i], url, rx).None?;
        i := i + 1;
      }
      assert routes[i..] == [];
      return None;
    }

    /**
     * `resolve()`: the exact lookup, else the pattern pass; an exact
     * controller hit creates the controller (whose constructor registers
     * `middlewaresOf(class)`), makes it the application's active controller
     * and runs its middlewares in order, stopping at the first that denies.
     */
    method Resolve(app: Application, middlewaresOf: string -> seq<AuthMiddleware>, rx: Regex) returns (d: Dispatch)
      modifies request`routeParams, app`controller
      ensures d == Resolution(routeMap, request.Method(), request.Url(), app.user, middlewaresOf, rx)
      ensures d.CallMatched? ==> request.routeParams == d.params
      ensures !d.CallMatched? ==> request.routeParams == old(request.routeParams)
      ensures (d.Invoke? || d.Forbidden?) ==>
        app.controller != null && fresh(app.controller) &&
        app.controller.action == d.action && app.controller.middlewares == middlewaresOf(d.controllerClass)
      ensures !(d.Invoke? || d.Forbidden?) ==> app.controller == old(app.controller)
    {
      var routes := GetRouteMap(request.Method());
      var callback := Lookup(routes, request.Url());
      if callback.None? || !HandlerTruthy(callback.value) {
        var found := GetCallback(rx);
        if found.None? {
          return NotFound;
        }
        return CallMatched(found.value, request.routeParams);
      }
      match callback.value
      case View(v) =>
        return RenderView(v);
      case Callable(_) =>
        return Call(callback.value);
      case ControllerAction(cls, action) =>
        var controller := new Controller();
        var ms := middlewaresOf(cls);
        var k := 0;
        while k < |ms|
          invariant k <= |ms|
          invariant controller.middlewares == ms[..k]
          invariant request.routeParams == old(request.routeParams) && app.controller == old(app.controller)
        {
          controller.RegisterMiddleware(ms[k]);
          assert ms[..k + 1] == ms[..k] + [ms[k]];
          k := k + 1;
        }
        controller.action := action;
        app.controller := controller;
        var middlewares := controller.GetMiddlewares();
        var authenticated := IsAuthenticated(app.user);
        var i := 0;
        while i < |middlewares|
          invariant i <= |middlewares|
          invariant forall j :: 0 <= j < i ==> !Denies(middlewares[j], authenticated, action)
        {
          if Denies(middlewares[i], authenticated, action) {
            return Forbidden(cls, action, i);
          }
          i := i + 1;
        }
        assert middlewares == ms;
        assert FirstDenial(ms, authenticated, action).None?;
        return Invoke(cls, action);
    }
  }
}
