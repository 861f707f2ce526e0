/**
 * The minimal request router on node B (`Engine`): a table from path
 * pattern to handler. Handlers are opaque identifiers; the panics of
 * `Api` and `ServeHTTP` are returned as explicit outcomes.
 */
module Router {

  /** Stands for a handler function; only its identity matters here. */
  type HandlerId = nat

  /** What `Api` does: register, or panic with "must pattern" / "duplicate pattern". */
  datatype Registration = Registered | EmptyPattern | DuplicatePattern

  /** What `ServeHTTP` does: run a handler, or panic with "not found". */
  datatype Dispatch = Run(handler: HandlerId) | NotFound

  class Engine {
    /** The route table, keyed by exact path. */
    var handle: map<string, HandlerId>

    /** `NewEngine`: an engine with no routes. */
    constructor ()
      ensures handle == map[]
      ensures forall path :: ServeHTTP(path) == NotFound
    {
      handle := map[];
    }

    /**
     * `Api`: adds `pattern -> h` when the pattern is non-empty and not yet
     * registered; otherwise fails and leaves the table as it was.
     */
    method Api(pattern: string, h: HandlerId) returns (r: Registration)
      modifies this
      ensures pattern == [] ==> r == EmptyPattern
      ensures pattern != [] && pattern in old(handle) ==> r == DuplicatePattern
      ensures pattern != [] && pattern !in old(handle) ==> r == Registered
      ensures r == Registered ==> handle == old(handle)[pattern := h]
      ensures r != Registered ==> handle == old(handle)
      ensures r == Registered ==> ServeHTTP(pattern) == Run(h)
      ensures forall path | path != pattern :: ServeHTTP(path) == old(ServeHTTP(path))
    {
      if pattern == [] {
        return EmptyPattern;
      }
      if pattern !in handle {
        handle := handle[pattern := h];
        r := Registered;
      } else {
        r := DuplicatePattern;
      }
    }

    /** `ServeHTTP`: looks the request path up and runs what is registered there. */
    function ServeHTTP(path: string): (d: Dispatch)
      reads this
      ensures d == NotFound <==> path !in handle
      ensures d.Run? ==> d.handler == handle[path]
    {
      if path in handle then Run(handle[path]) else NotFound
    }
  }

  /**
   * The set-up each backend server on node B performs: a fresh engine with
   * one handler on "/". Every other path is unrouted.
   */
  method RootEngine(h: HandlerId) returns (e: Engine)
    ensures fresh(e)
    ensures e.ServeHTTP("/") == Run(h)
    ensures forall path | path != "/" :: e.ServeHTTP(path) == NotFound
  {
    e := new Engine();
    var r := e.Api("/", h);
    assert r == Registered;
  }
}
