/**
 * The HTTP request as the router sees it: the path without its query string,
 * the lower-cased method and the route parameters a pattern match extracted.
 * `REQUEST_URI` and `REQUEST_METHOD` are fixed for the request's lifetime and
 * become constant fields; `$_GET`/`$_POST` and `getBody` are not part of this model.
 */
module Requests {
  import opened Php
  import opened Strings

  /** `getUrl`: the request URI up to, and not including, the first `?`. */
  function StripQuery(uri: string): (path: string)
    ensures |path| <= |uri| && path == uri[..|path|]
    ensures '?' !in path
    ensures |path| < |uri| ==> uri[|path|] == '?'
  {
    if uri == [] || uri[0] == '?' then [] else [uri[0]] + StripQuery(uri[1..])
  }

  /** A URI without `?` is its own path. */
  lemma {:induction false} StripQueryNoQuery(uri: string)
    requires '?' !in uri
    ensures StripQuery(uri) == uri
  {
    if uri != [] {
      StripQueryNoQuery(uri[1..]);
    }
  }

  /** Stripping an already stripped URI changes nothing. */
  lemma StripQueryIdempotent(uri: string)
    ensures StripQuery(StripQuery(uri)) == StripQuery(uri)
  {
    StripQueryNoQuery(StripQuery(uri));
  }

  /** The query string, whatever it holds, never reaches the path. */
  lemma {:induction false} StripQueryIgnoresQuery(path: string, query: string)
    requires '?' !in path
    ensures StripQuery(path + "?" + query) == path
  {
    if path != [] {
      assert (path + "?" + query)[1..] == path[1..] + "?" + query;
      StripQueryIgnoresQuery(path[1..], query);
    }
  }

  class Request {
    /** `$_SERVER['REQUEST_URI']` */
    const uri: string
    /** `$_SERVER['REQUEST_METHOD']` */
    const serverMethod: string
    var routeParams: map<string, string>

    constructor (uri: string, serverMethod: string)
      ensures this.uri == uri && this.serverMethod == serverMethod
      ensures routeParams == map[]
    {
      this.uri := uri;
      this.serverMethod := serverMethod;
      routeParams := map[];
    }

    /** `getUrl`: the URI cut at its first `?`. */
    function Url(): (path: string)
      ensures |path| <= |uri| && path == uri[..|path|]
      ensures '?' !in path
      ensures |path| < |uri| ==> uri[|path|] == '?'
    {
      StripQuery(uri)
    }

    /** `getMethod`: the request method with every ASCII capital lowered and nothing else changed. */
    function Method(): (m: string)
      ensures |m| == |serverMethod|
      ensures forall i :: 0 <= i < |m| ==> !('A' <= m[i] <= 'Z')
      ensures forall i :: 0 <= i < |m| ==>
        m[i] == serverMethod[i] || ('A' <= serverMethod[i] <= 'Z' && m[i] as int == serverMethod[i] as int + 32)
    {
      ToLower(serverMethod)
    }

    /** `isGet`: the method is `GET` in any mix of cases. */
    predicate IsGet()
      ensures IsGet() <==> (|serverMethod| == 3 &&
        serverMethod[0] in "gG" && serverMethod[1] in "eE" && serverMethod[2] in "tT")
    {
      Method() == "get"
    }

    /** `isPost`: the method is `POST` in any mix of cases. */
    predicate IsPost()
      ensures IsPost() <==> (|serverMethod| == 4 &&
        serverMethod[0] in "pP" && serverMethod[1] in "oO" && serverMethod[2] in "sS" && serverMethod[3] in "tT")
    {
      Method() == "post"
    }

    /** `getRouteParams`: the parameters the last pattern match stored. */
    function GetRouteParams(): (params: map<string, string>)
      reads this
      ensures params == routeParams
    {
      routeParams
    }

    /** Replaces the whole parameter map and returns the same request. */
    method SetRouteParams(params: map<string, string>) returns (r: Request)
      modifies this`routeParams
      ensures r == this
      ensures routeParams == params
    {
      routeParams := params;
      r := this;
    }

    /** `getRouteParam($param, $default)`. */
    function GetRouteParam(param: string, default: Option<string>): (r: Option<string>)
      reads this
      ensures param in routeParams ==> r == Some(routeParams[param])
      ensures param !in routeParams ==> r == default
    {
      if param in routeParams then Some(routeParams[param]) else default
    }
  }

  /** GET and POST are told apart by the lower-cased method, so a request is never both. */
  lemma GetPostExclusive(r: Request)
    ensures !(r.IsGet() && r.IsPost())
    ensures r.IsGet() <==> ToLower(r.serverMethod) == "get"
  {
  }

  /** Any spelling of GET selects the GET routes. */
  lemma {:induction false} UpperCaseGetIsGet()
    ensures ToLower("GET") == "get" && ToLower("Get") == "get" && ToLower("POST") == "post"
  {
  }
}
