/** The base controller: a layout name, the active action and an ordered middleware list. */
module Controllers {
  import opened Middlewares

  class Controller {
    var layout: string
    var action: string
    var middlewares: seq<AuthMiddleware>

    constructor ()
      ensures layout == "" && action == "" && middlewares == []
    {
      layout := "";
      action := "";
      middlewares := [];
    }

    method SetLayout(layout: string)
      modifies this`layout
      ensures this.layout == layout
    {
      this.layout := layout;
    }

    /** Appends; earlier middlewares keep their places. */
    method RegisterMiddleware(middleware: AuthMiddleware)
      modifies this`middlewares
      ensures middlewares == old(middlewares) + [middleware]
      ensures middlewares[..|old(middlewares)|] == old(middlewares)
    {
      middlewares := middlewares + [middleware];
    }

    /** `getMiddlewares`: the registered middlewares, in registration order. */
    function GetMiddlewares(): (ms: seq<AuthMiddleware>)
      reads this
      ensures ms == middlewares
    {
      middlewares
    }
  }
}
