/**
 * The interceptor chain around Send: the Interceptor behaviours, the closures
 * chainInterceptors and buildInvoker compose, and a direct recursive reference
 * for one run of the chain, with what a run does in terms of that reference.
 */
module Chain {
  import opened Wrappers
  import opened Values
  import opened Errors

  /** The (interface{}, error) pair an interceptor or invoker returns. */
  datatype ChainReply = ChainReply(res: Value, err: Option<Error>)

  /** One observable step of a Send, in the order it happens. */
  datatype Step =
    | Enter(stage: nat, ctx: Context, req: Value)  // interceptor `stage` is called with ctx and req
    | Exit(stage: nat)                             // interceptor `stage` returns
    | Handled(hctx: Context, hreq: Payload)        // the registered handler is called

  /** What a call returns together with the steps it took. */
  datatype Run = Run(reply: ChainReply, trace: seq<Step>)

  /** SendInvoker: the continuation an interceptor is given. */
  type SendInvoker = (Context, Value) -> Run

  /** The Interceptor function type: ctx, req and the continuation to call. */
  type ChainedInterceptor = (Context, Value, SendInvoker) -> Run

  /**
   * What an interceptor does. All but ShortCircuit call their continuation
   * exactly once; ShortCircuit returns its own reply without calling it.
   */
  datatype Interceptor =
    | PassThrough                           // return invoker(ctx, req)
    | WithValue(key: string, val: string)   // return invoker(context.WithValue(ctx, key, val), req)
    | ReplaceRequest(req: Value)            // return invoker(ctx, req')
    | ShortCircuit(reply: ChainReply)       // return res, err without calling invoker
    | ReplaceResponse(res: Value)           // call invoker, keep its error, return res
    | DropError                             // call invoker, return its response and a nil error

  /** The ctx and req an interceptor that continues passes to its continuation. */
  function Forward(ic: Interceptor, ctx: Context, req: Value): (Context, Value)
  {
    match ic
    case WithValue(k, v) => (ctx[k := v], req)
    case ReplaceRequest(r) => (ctx, r)
    case _ => (ctx, req)
  }

  /** What an interceptor that continued returns, given its continuation's reply. */
  function Back(ic: Interceptor, down: ChainReply): ChainReply
  {
    match ic
    case ReplaceResponse(res) => ChainReply(res, down.err)
    case DropError => ChainReply(down.res, None)
    case _ => down
  }

  /** Calling interceptor ic, which sits at position stage, with ctx, req and the continuation next. */
  function Intercept(ic: Interceptor, stage: nat, ctx: Context, req: Value, next: SendInvoker): Run
  {
    if ic.ShortCircuit? then Run(ic.reply, [Enter(stage, ctx, req), Exit(stage)])
    else
      var (c, q) := Forward(ic, ctx, req);
      var down := next(c, q);
      Run(Back(ic, down.reply), [Enter(stage, ctx, req)] + down.trace + [Exit(stage)])
  }

  /**
   * Reference semantics of the chain from stage d on, with inner as the
   * terminal invoker: stage d runs, and its continuation is the chain from
   * stage d + 1; past the last stage, inner runs.
   */
  function RunChain(ics: seq<Interceptor>, d: nat, inner: SendInvoker, ctx: Context, req: Value): Run
    requires d <= |ics|
    decreases |ics| - d
  {
    if d == |ics| then inner(ctx, req)
    else Intercept(ics[d], d, ctx, req, (c, q) => RunChain(ics, d + 1, inner, c, q))
  }

  /**
   * buildInvoker: the continuation handed to the interceptor at position
   * depth. At the last position it is inner itself; before that it calls the
   * interceptor at depth + 1 with the continuation built for depth + 1. The
   * depth rises strictly towards |ics| - 1, where the recursion stops.
   */
  function BuildInvoker(inner: SendInvoker, ics: seq<Interceptor>, depth: nat): (r: SendInvoker)
    requires depth < |ics|
    ensures forall c, q :: r(c, q) == RunChain(ics, depth + 1, inner, c, q)
    decreases |ics| - depth
  {
    if |ics| - 1 == depth then inner
    else (c, q) => Intercept(ics[depth + 1], depth + 1, c, q, BuildInvoker(inner, ics, depth + 1))
  }

  /**
   * chainInterceptors: no chain for no interceptors, the one interceptor
   * itself for one, and otherwise the first interceptor called with the
   * continuation buildInvoker makes for position 0.
   */
  function ChainInterceptors(ics: seq<Interceptor>): (r: Option<ChainedInterceptor>)
    ensures r.None? <==> |ics| == 0
    ensures |ics| == 1 ==> forall c, q, inv :: r.value(c, q, inv) == Intercept(ics[0], 0, c, q, inv)
    ensures r.Some? ==> forall c, q, inv :: r.value(c, q, inv) == RunChain(ics, 0, inv, c, q)
  {
    if |ics| == 0 then None
    else if |ics| == 1 then Some((c: Context, q: Value, inv: SendInvoker) => Intercept(ics[0], 0, c, q, inv))
    else Some((c: Context, q: Value, inv: SendInvoker) => Intercept(ics[0], 0, c, q, BuildInvoker(inv, ics, 0)))
  }

  /**
   * The ctx and req the terminal invoker receives when the chain is entered
   * at stage d with ctx and req, or None when some stage stops the chain.
   */
  function Reached(ics: seq<Interceptor>, d: nat, ctx: Context, req: Value): Option<(Context, Value)>
    requires d <= |ics|
    decreases |ics| - d
  {
    if d == |ics| then Some((ctx, req))
    else if ics[d].ShortCircuit? then None
    else
      var (c, q) := Forward(ics[d], ctx, req);
      Reached(ics, d + 1, c, q)
  }

  /** The terminal invoker that stands for a stage which stops the chain with reply. */
  function Returning(reply: ChainReply, stage: nat): SendInvoker
  {
    (c, q) => Run(reply, [Enter(stage, c, q), Exit(stage)])
  }

  /**
   * When stage k returns without calling its continuation, the chain behaves
   * as the stages before k with k's reply in place of the handler: earlier
   * stages receive k's reply exactly as if the handler had produced it, and no
   * later stage and not the handler appear in the run.
   */
  lemma {:induction false} ShortCircuitStopsChain(ics: seq<Interceptor>, d: nat, k: nat, inner: SendInvoker, ctx: Context, req: Value)
    requires d <= k < |ics| && ics[k].ShortCircuit?
    ensures RunChain(ics, d, inner, ctx, req) == RunChain(ics[..k], d, Returning(ics[k].reply, k), ctx, req)
    ensures forall e :: e in RunChain(ics, d, inner, ctx, req).trace ==> !e.Handled? && e.stage <= k
    decreases k - d
  {
    if d < k && !ics[d].ShortCircuit? {
      var (c, q) := Forward(ics[d], ctx, req);
      ShortCircuitStopsChain(ics, d + 1, k, inner, c, q);
    }
  }

  /** A short-circuited run does not depend on the terminal invoker at all. */
  lemma ShortCircuitIgnoresHandler(ics: seq<Interceptor>, k: nat, inner: SendInvoker, other: SendInvoker, ctx: Context, req: Value)
    requires k < |ics| && ics[k].ShortCircuit?
    ensures RunChain(ics, 0, inner, ctx, req) == RunChain(ics, 0, other, ctx, req)
  {
    ShortCircuitStopsChain(ics, 0, k, inner, ctx, req);
    ShortCircuitStopsChain(ics, 0, k, other, ctx, req);
  }

  /**
   * The Enter events of stages d, d + 1, ... when each of them continues:
   * every stage is entered with what the stage before it passed on.
   */
  function Entries(ics: seq<Interceptor>, d: nat, ctx: Context, req: Value): seq<Step>
    requires d <= |ics|
    decreases |ics| - d
  {
    if d == |ics| then []
    else
      var (c, q) := Forward(ics[d], ctx, req);
      [Enter(d, ctx, req)] + Entries(ics, d + 1, c, q)
  }

  /** The Exit events of stages |ics| - 1 down to d. */
  function Exits(ics: seq<Interceptor>, d: nat): seq<Step>
    requires d <= |ics|
    decreases |ics| - d
  {
    if d == |ics| then [] else Exits(ics, d + 1) + [Exit(d)]
  }

  /**
   * When every stage from d on continues, the run enters the stages in
   * insertion order, then runs the terminal invoker on what the last stage
   * passed on, then leaves the stages in reverse order.
   */
  lemma {:induction false} ChainRunsInOrder(ics: seq<Interceptor>, d: nat, inner: SendInvoker, ctx: Context, req: Value)
    requires d <= |ics| && Reached(ics, d, ctx, req).Some?
    ensures var p := Reached(ics, d, ctx, req).value;
            RunChain(ics, d, inner, ctx, req).trace == Entries(ics, d, ctx, req) + inner(p.0, p.1).trace + Exits(ics, d)
    decreases |ics| - d
  {
    if d < |ics| {
      var (c, q) := Forward(ics[d], ctx, req);
      ChainRunsInOrder(ics, d + 1, inner, c, q);
    }
  }

  /**
   * Stage d + i is the i-th stage entered; the first is entered with the
   * chain's own ctx and req, each later one with exactly what the stage
   * before it passed to its continuation, and the terminal invoker receives
   * what the last stage passed.
   */
  lemma {:induction false} EntriesInOrder(ics: seq<Interceptor>, d: nat, ctx: Context, req: Value)
    requires d <= |ics| && Reached(ics, d, ctx, req).Some?
    ensures var e := Entries(ics, d, ctx, req);
            && |e| == |ics| - d
            && (forall i :: 0 <= i < |e| ==> e[i].Enter? && e[i].stage == d + i)
            && (|e| > 0 ==> e[0] == Enter(d, ctx, req))
            && (forall i :: 1 <= i < |e| ==> (e[i].ctx, e[i].req) == Forward(ics[d + i - 1], e[i - 1].ctx, e[i - 1].req))
            && (|e| > 0 ==> Reached(ics, d, ctx, req).value == Forward(ics[|ics| - 1], e[|e| - 1].ctx, e[|e| - 1].req))
    decreases |ics| - d
  {
    if d < |ics| {
      var (c, q) := Forward(ics[d], ctx, req);
      EntriesInOrder(ics, d + 1, c, q);
      var e' := Entries(ics, d + 1, c, q);
      var e := Entries(ics, d, ctx, req);
      assert e == [Enter(d, ctx, req)] + e';
      assert forall i :: 1 <= i < |e| ==> e[i] == e'[i - 1];
    }
  }

  /** The stages are left in reverse order of entry, the last stage first. */
  lemma {:induction false} ExitsInReverse(ics: seq<Interceptor>, d: nat)
    requires d <= |ics|
    ensures var x := Exits(ics, d);
            |x| == |ics| - d && forall i :: 0 <= i < |x| ==> x[i] == Exit(|ics| - 1 - i)
    decreases |ics| - d
  {
    if d < |ics| {
      ExitsInReverse(ics, d + 1);
    }
  }

  /**
   * When every stage from d on continues, the chain's error is the terminal
   * invoker's error unless some stage drops it, and the whole reply is the
   * terminal invoker's unless some stage replaces the response or drops the error.
   */
  lemma {:induction false} ReplyPropagates(ics: seq<Interceptor>, d: nat, inner: SendInvoker, ctx: Context, req: Value)
    requires d <= |ics| && Reached(ics, d, ctx, req).Some?
    ensures var p := Reached(ics, d, ctx, req).value;
            var r := RunChain(ics, d, inner, ctx, req).reply;
            && ((forall j :: d <= j < |ics| ==> !ics[j].DropError?) ==> r.err == inner(p.0, p.1).reply.err)
            && ((forall j :: d <= j < |ics| ==> !ics[j].DropError? && !ics[j].ReplaceResponse?) ==> r == inner(p.0, p.1).reply)
    decreases |ics| - d
  {
    if d < |ics| {
      var (c, q) := Forward(ics[d], ctx, req);
      ReplyPropagates(ics, d + 1, inner, c, q);
    }
  }

  /**
   * A value that stage i (and no other stage) puts into the context under key
   * is absent from the context of every stage up to and including i, and
   * present, with that value, in the context of every later stage.
   */
  lemma {:induction false} ContextValueAt(ics: seq<Interceptor>, d: nat, i: nat, key: string, val: string,
                                          ctx: Context, req: Value, j: nat)
    requires d <= |ics| && Reached(ics, d, ctx, req).Some?
    requires i < |ics| && ics[i] == WithValue(key, val)
    requires forall k :: 0 <= k < |ics| && k != i ==> !(ics[k].WithValue? && ics[k].key == key)
    requires d <= i ==> key !in ctx
    requires d > i ==> key in ctx && ctx[key] == val
    requires d + j < |ics|
    ensures |Entries(ics, d, ctx, req)| == |ics| - d
    ensures Entries(ics, d, ctx, req)[j].Enter? && Entries(ics, d, ctx, req)[j].stage == d + j
    ensures d + j <= i ==> key !in Entries(ics, d, ctx, req)[j].ctx
    ensures d + j > i ==> key in Entries(ics, d, ctx, req)[j].ctx && Entries(ics, d, ctx, req)[j].ctx[key] == val
    decreases j
  {
    EntriesInOrder(ics, d, ctx, req);
    if j > 0 {
      var f := Forward(ics[d], ctx, req);
      ContextValueAt(ics, d + 1, i, key, val, f.0, f.1, j - 1);
      assert Entries(ics, d, ctx, req) == [Enter(d, ctx, req)] + Entries(ics, d + 1, f.0, f.1);
    }
  }

  /** The same value reaches the terminal invoker's context. */
  lemma {:induction false} ContextValueReachesHandler(ics: seq<Interceptor>, d: nat, i: nat, key: string, val: string,
                                                      ctx: Context, req: Value)
    requires d <= |ics| && Reached(ics, d, ctx, req).Some?
    requires i < |ics| && ics[i] == WithValue(key, val)
    requires forall k :: 0 <= k < |ics| && k != i ==> !(ics[k].WithValue? && ics[k].key == key)
    requires d <= i ==> key !in ctx
    requires d > i ==> key in ctx && ctx[key] == val
    ensures key in Reached(ics, d, ctx, req).value.0 && Reached(ics, d, ctx, req).value.0[key] == val
    decreases |ics| - d
  {
    if d < |ics| {
      var f := Forward(ics[d], ctx, req);
      ContextValueReachesHandler(ics, d + 1, i, key, val, f.0, f.1);
    }
  }
}
