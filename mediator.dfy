/**
 * The request side of a Mob: registering one handler per (request type,
 * response type) pair, and Send, which finds that handler and calls it either
 * directly or through the interceptor chain.
 */
module Mediator {
  import opened Wrappers
  import opened Values
  import opened Errors
  import Options
  import opened Chain
  import opened Registry

  /**
   * RegisterRequestHandlerTo. An invalid handler is refused with
   * ErrInvalidHandler and a taken (request, response) pair with
   * ErrDuplicateHandler, both without touching the registry. Otherwise a new
   * record for the handler, named by the options applied in order, is stored
   * under that pair and nothing else changes.
   */
  method RegisterRequestHandlerTo(m: Mob, reqT: TypeId, resT: TypeId, rhn: HandlerRef<RequestFn>, opts: seq<Options.Option>)
    returns (err: Option<Error>)
    requires m.Valid()
    modifies m
    ensures m.Valid()
    ensures m.ehandlers == old(m.ehandlers) && m.interceptors == old(m.interceptors)
    ensures forall k :: k in old(m.rhandlers) ==> k in m.rhandlers && m.rhandlers[k] == old(m.rhandlers[k]) && m.rhandlers[k].name == old(m.rhandlers[k].name)
    ensures !IsValid(rhn) ==> err == Some(ErrInvalidHandler) && m.rhandlers == old(m.rhandlers)
    ensures IsValid(rhn) && ReqKey(reqT, resT) in old(m.rhandlers) ==> err == Some(ErrDuplicateHandler) && m.rhandlers == old(m.rhandlers)
    ensures IsValid(rhn) && ReqKey(reqT, resT) !in old(m.rhandlers) ==>
              && err == None
              && ReqKey(reqT, resT) in m.rhandlers
              && fresh(m.rhandlers[ReqKey(reqT, resT)])
              && m.rhandlers[ReqKey(reqT, resT)].embedded == rhn
              && m.rhandlers[ReqKey(reqT, resT)].name == Options.NameAfter("", opts)
              && m.rhandlers == old(m.rhandlers)[ReqKey(reqT, resT) := m.rhandlers[ReqKey(reqT, resT)]]
  {
    if !IsValid(rhn) {
      return Some(ErrInvalidHandler);
    }
    var k := ReqKey(reqT, resT);
    if k in m.rhandlers {
      return Some(ErrDuplicateHandler);
    }
    var hn := new Options.Handler(rhn);
    for i := 0 to |opts|
      modifies hn
      invariant hn.name == Options.NameAfter("", opts[..i])
    {
      Options.Apply(opts[i], hn);
      Options.NameAfterAppend("", opts[..i], opts[i]);
      assert opts[..i + 1] == opts[..i] + [opts[i]];
    }
    assert opts[..|opts|] == opts;
    m.rhandlers := m.rhandlers[k := hn];
    return None;
  }

  /**
   * The error Send returns for a handler record named name when the call
   * produced err: nothing for nothing, err itself when the record has no name,
   * and otherwise err wrapped with the name in front ("name: " and err's text),
   * so that it still matches whatever err matches.
   */
  function NameError(name: string, err: Option<Error>): (r: Option<Error>)
    ensures r.None? <==> err.None?
    ensures name == "" ==> r == err
    ensures err.Some? ==> forall target :: Is(err.value, target) ==> Is(r.value, target)
    ensures err.Some? && name != "" && WellFormed(err.value) ==>
              WellFormed(r.value) && ErrorString(r.value) == name + ": " + ErrorString(err.value)
  {
    if err.None? || name == "" then err else Some(Prefixed(name, err.value))
  }

  /**
   * The invoker Send hands to the chain. It narrows the request it is given
   * back to the registered request type: a request of that type goes to the
   * handler, whose response returns up the chain as a value of the response
   * type; any other request, the untyped nil included, is refused with an
   * error matching ErrUnmarshal and the handler is not called.
   */
  function Terminal(h: RequestFn, reqT: TypeId, resT: TypeId): (r: SendInvoker)
    ensures forall c, q :: HasType(q, reqT) ==>
              r(c, q) == Run(ChainReply(Of(resT, h(c, q.data).res), h(c, q.data).err), [Handled(c, q.data)])
    ensures forall c, q :: !HasType(q, reqT) ==>
              r(c, q).trace == [] && r(c, q).reply.res == Untyped &&
              r(c, q).reply.err.Some? && Is(r(c, q).reply.err.value, ErrUnmarshal)
  {
    (c: Context, q: Value) =>
      if HasType(q, reqT) then
        var out := h(c, q.data);
        Run(ChainReply(Of(resT, out.res), out.err), [Handled(c, q.data)])
      else
        Run(ChainReply(Untyped, Some(Unmarshal(RequestSide, TypeName(q), reqT))), [])
  }

  /**
   * sender.Send for the pair (reqT, resT). Without a handler for the pair it
   * returns the zero response and ErrHandlerNotFound and runs nothing. With no
   * interceptors it returns exactly what the handler returns. Otherwise the
   * chain runs around the Terminal invoker: a chain error leaves the zero
   * response, and a response that is not of type resT fails with an error
   * matching ErrUnmarshal. Any error is then named after the handler record.
   * The ghost trace lists the interceptor entries and exits and the handler
   * call, in the order they happen.
   */
  method Send(m: Mob, ctx: Context, reqT: TypeId, resT: TypeId, req: Payload)
    returns (res: Payload, err: Option<Error>, ghost trace: seq<Step>)
    requires m.Valid()
    ensures ReqKey(reqT, resT) !in m.rhandlers ==> res == Zero && err == Some(ErrHandlerNotFound)
    ensures ReqKey(reqT, resT) in m.rhandlers && m.interceptors == [] ==>
              var hn := m.rhandlers[ReqKey(reqT, resT)];
              var out := hn.embedded.handler(ctx, req);
              res == out.res && err == NameError(hn.name, out.err)
    ensures ReqKey(reqT, resT) in m.rhandlers && m.interceptors != [] ==>
              var hn := m.rhandlers[ReqKey(reqT, resT)];
              var run := RunChain(m.interceptors, 0, Terminal(hn.embedded.handler, reqT, resT), ctx, Of(reqT, req));
              && (run.reply.err.Some? ==> res == Zero && err == NameError(hn.name, run.reply.err))
              && (run.reply.err.None? && HasType(run.reply.res, resT) ==> res == run.reply.res.data && err == None)
              && (run.reply.err.None? && !HasType(run.reply.res, resT) ==>
                    && res == Zero
                    && err == NameError(hn.name, Some(Unmarshal(ResponseSide, TypeName(run.reply.res), resT)))
                    && Is(err.value, ErrUnmarshal))
    ensures ReqKey(reqT, resT) !in m.rhandlers ==> trace == []
    ensures ReqKey(reqT, resT) in m.rhandlers && m.interceptors == [] ==> trace == [Handled(ctx, req)]
    ensures ReqKey(reqT, resT) in m.rhandlers && m.interceptors != [] ==>
              var hn := m.rhandlers[ReqKey(reqT, resT)];
              trace == RunChain(m.interceptors, 0, Terminal(hn.embedded.handler, reqT, resT), ctx, Of(reqT, req)).trace
  {
    var k := ReqKey(reqT, resT);
    if k !in m.rhandlers {
      return Zero, Some(ErrHandlerNotFound), [];
    }
    var hn := m.rhandlers[k];
    var dhn := hn.embedded.handler;
    if |m.interceptors| != 0 {
      var chained := ChainInterceptors(m.interceptors);
      var run := chained.value(ctx, Of(reqT, req), Terminal(dhn, reqT, resT));
      trace := run.trace;
      if run.reply.err.None? {
        if HasType(run.reply.res, resT) {
          res, err := run.reply.res.data, None;
        } else {
          res, err := Zero, Some(Unmarshal(ResponseSide, TypeName(run.reply.res), resT));
        }
      } else {
        res, err := Zero, run.reply.err;
      }
    } else {
      var out := dhn(ctx, req);
      res, err := out.res, out.err;
      trace := [Handled(ctx, req)];
    }
    err := NameError(hn.name, err);
  }

  /**
   * When the request that comes out of the interceptors is not of the
   * registered request type, the handler is never called, and unless some
   * interceptor drops the error on its way back, the error Send returns
   * matches ErrUnmarshal whatever the handler's name.
   */
  lemma RequestMismatchNotHandled(ics: seq<Interceptor>, h: RequestFn, reqT: TypeId, resT: TypeId,
                                  name: string, ctx: Context, req: Value)
    requires Reached(ics, 0, ctx, req).Some? && !HasType(Reached(ics, 0, ctx, req).value.1, reqT)
    ensures forall e :: e in RunChain(ics, 0, Terminal(h, reqT, resT), ctx, req).trace ==> !e.Handled?
    ensures (forall j :: 0 <= j < |ics| ==> !ics[j].DropError?) ==>
              var r := RunChain(ics, 0, Terminal(h, reqT, resT), ctx, req).reply;
              r.err.Some? && Is(NameError(name, r.err).value, ErrUnmarshal)
  {
    var inner := Terminal(h, reqT, resT);
    ChainRunsInOrder(ics, 0, inner, ctx, req);
    EntriesInOrder(ics, 0, ctx, req);
    ExitsInReverse(ics, 0);
    ReplyPropagates(ics, 0, inner, ctx, req);
  }

  /**
   * When the request that comes out of the interceptors is of the registered
   * type, the handler is called exactly once, between the last interceptor's
   * entry and its exit, with the context and request that interceptor passed on.
   */
  lemma HandlerSeesChainRequest(ics: seq<Interceptor>, h: RequestFn, reqT: TypeId, resT: TypeId, ctx: Context, req: Value)
    requires Reached(ics, 0, ctx, req).Some? && HasType(Reached(ics, 0, ctx, req).value.1, reqT)
    ensures var p := Reached(ics, 0, ctx, req).value;
            var t := RunChain(ics, 0, Terminal(h, reqT, resT), ctx, req).trace;
            && |t| == 2 * |ics| + 1
            && t[|ics|] == Handled(p.0, p.1.data)
            && forall i :: 0 <= i < |t| && i != |ics| ==> !t[i].Handled?
  {
    var inner := Terminal(h, reqT, resT);
    var p := Reached(ics, 0, ctx, req).value;
    ChainRunsInOrder(ics, 0, inner, ctx, req);
    EntriesInOrder(ics, 0, ctx, req);
    ExitsInReverse(ics, 0);
    var en := Entries(ics, 0, ctx, req);
    var ex := Exits(ics, 0);
    var t := RunChain(ics, 0, inner, ctx, req).trace;
    assert t == en + [Handled(p.0, p.1.data)] + ex;
    forall i | 0 <= i < |t| && i != |ics|
      ensures !t[i].Handled?
    {
      if i < |ics| {
        assert t[i] == en[i];
      } else {
        assert t[i] == ex[i - |ics| - 1];
      }
    }
  }

  /**
   * If no interceptor replaces the response or drops the error, a request of
   * the registered type comes back from the chain as the handler's response,
   * typed as the response type, together with the handler's error.
   */
  lemma HandlerReplyReturns(ics: seq<Interceptor>, h: RequestFn, reqT: TypeId, resT: TypeId, ctx: Context, req: Value)
    requires Reached(ics, 0, ctx, req).Some? && HasType(Reached(ics, 0, ctx, req).value.1, reqT)
    requires forall j :: 0 <= j < |ics| ==> !ics[j].DropError? && !ics[j].ReplaceResponse?
    ensures var p := Reached(ics, 0, ctx, req).value;
            var out := h(p.0, p.1.data);
            RunChain(ics, 0, Terminal(h, reqT, resT), ctx, req).reply == ChainReply(Of(resT, out.res), out.err)
  {
    ReplyPropagates(ics, 0, Terminal(h, reqT, resT), ctx, req);
  }

  /**
   * Registering a second handler for a pair that already has one is refused,
   * and Send still reaches the first handler.
   */
  method DuplicateKeepsFirst(m: Mob, reqT: TypeId, resT: TypeId, first: HandlerRef<RequestFn>, second: HandlerRef<RequestFn>,
                             ctx: Context, req: Payload)
    returns (err1: Option<Error>, err2: Option<Error>, res: Payload, err: Option<Error>)
    requires m.Valid() && ReqKey(reqT, resT) !in m.rhandlers && m.interceptors == []
    requires IsValid(first) && IsValid(second)
    modifies m
    ensures err1 == None && err2 == Some(ErrDuplicateHandler)
    ensures res == first.handler(ctx, req).res && err == first.handler(ctx, req).err
  {
    err1 := RegisterRequestHandlerTo(m, reqT, resT, first, []);
    err2 := RegisterRequestHandlerTo(m, reqT, resT, second, []);
    ghost var trace;
    res, err, trace := Send(m, ctx, reqT, resT, req);
  }

  /**
   * The key is the ordered pair, so one request type registers independently
   * for two different response types, and each Send reaches its own handler.
   */
  method DistinctResponseTypes(m: Mob, reqT: TypeId, resA: TypeId, resB: TypeId, ha: HandlerRef<RequestFn>, hb: HandlerRef<RequestFn>,
                               ctx: Context, req: Payload)
    returns (errA: Option<Error>, errB: Option<Error>, resFromA: Payload, resFromB: Payload)
    requires m.Valid() && resA != resB && m.interceptors == []
    requires ReqKey(reqT, resA) !in m.rhandlers && ReqKey(reqT, resB) !in m.rhandlers
    requires IsValid(ha) && IsValid(hb)
    modifies m
    ensures errA == None && errB == None
    ensures resFromA == ha.handler(ctx, req).res && resFromB == hb.handler(ctx, req).res
  {
    errA := RegisterRequestHandlerTo(m, reqT, resA, ha, []);
    errB := RegisterRequestHandlerTo(m, reqT, resB, hb, []);
    var e;
    ghost var trace;
    resFromA, e, trace := Send(m, ctx, reqT, resA, req);
    resFromB, e, trace := Send(m, ctx, reqT, resB, req);
  }
}
