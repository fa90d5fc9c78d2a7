/**
 * The registry a Mob instance is: the request handlers keyed by the
 * (request type, response type) pair, the event handlers keyed by event
 * type, and the interceptor list, with AddInterceptorTo, the one operation
 * on the interceptor list.
 */
module Registry {
  import opened Wrappers
  import opened Values
  import opened Errors
  import Options
  import opened Chain

  /** What a request handler returns: its response and its error. */
  datatype Reply = Reply(res: Payload, err: Option<Error>)

  /** RequestHandler.Handle for one request/response type pair. */
  type RequestFn = (Context, Payload) -> Reply

  /** An event handler: its Name() and its Handle method. */
  datatype EventHandler = EventHandler(name: string, handle: (Context, Payload) -> Option<Error>)

  /** reqHnKey: the request type and the response type, in that order. */
  datatype ReqKey = ReqKey(reqt: TypeId, rest: TypeId)

  /** A Mob instance. */
  class Mob {
    var rhandlers: map<ReqKey, Options.Handler<HandlerRef<RequestFn>>>
    var ehandlers: map<TypeId, seq<EventHandler>>
    var interceptors: seq<Interceptor>

    /**
     * What registration keeps: every registered request handler passed
     * isValid, and every event type with an entry has at least one handler.
     */
    ghost predicate Valid()
      reads this
    {
      && (forall k :: k in rhandlers ==> IsValid(rhandlers[k].embedded))
      && (forall t :: t in ehandlers ==> |ehandlers[t]| > 0)
    }

    /** An empty registry. */
    constructor ()
      ensures Valid()
      ensures rhandlers == map[] && ehandlers == map[] && interceptors == []
    {
      rhandlers := map[];
      ehandlers := map[];
      interceptors := [];
    }
  }

  /**
   * AddInterceptorTo: the interceptor goes at the end of the list; the
   * interceptors already there keep their positions, and the handler maps
   * are untouched.
   */
  method AddInterceptorTo(m: Mob, ic: Interceptor)
    requires m.Valid()
    modifies m
    ensures m.Valid()
    ensures m.interceptors == old(m.interceptors) + [ic]
    ensures m.rhandlers == old(m.rhandlers) && m.ehandlers == old(m.ehandlers)
  {
    m.interceptors := m.interceptors + [ic];
  }
}
