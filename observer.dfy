/**
 * The event side of a Mob: registering any number of handlers per event
 * type, and Dispatch, which runs every handler for the event's type and
 * gathers the failures into an AggregateHandlerError.
 */
module Observer {
  import opened Wrappers
  import opened Values
  import opened Errors
  import opened Registry

  /**
   * RegisterEventHandler. Only the absent (nil interface) handler is refused,
   * with ErrInvalidHandler and no change. Any other handler goes at the end
   * of its event type's list, which starts as that one handler when the type
   * had no list; no other type's list changes.
   */
  method RegisterEventHandler(m: Mob, evT: TypeId, hn: Option<EventHandler>) returns (err: Option<Error>)
    requires m.Valid()
    modifies m
    ensures m.Valid()
    ensures m.rhandlers == old(m.rhandlers) && m.interceptors == old(m.interceptors)
    ensures hn.None? ==> err == Some(ErrInvalidHandler) && m.ehandlers == old(m.ehandlers)
    ensures hn.Some? ==>
              && err == None
              && m.ehandlers == old(m.ehandlers)[evT := (if evT in old(m.ehandlers) then old(m.ehandlers[evT]) else []) + [hn.value]]
    ensures forall t :: t != evT ==> (t in m.ehandlers <==> t in old(m.ehandlers))
    ensures forall t :: t != evT && t in old(m.ehandlers) ==> m.ehandlers[t] == old(m.ehandlers[t])
  {
    if hn.None? {
      return Some(ErrInvalidHandler);
    }
    if evT !in m.ehandlers {
      assert [] + [hn.value] == [hn.value];
      m.ehandlers := m.ehandlers[evT := [hn.value]];
      return None;
    }
    var hns := m.ehandlers[evT];
    hns := hns + [hn.value];
    m.ehandlers := m.ehandlers[evT := hns];
    return None;
  }

  /** What handler h reports for ev: nothing, or a HandlerError with its name and its error. */
  function Outcome(h: EventHandler, ctx: Context, ev: Payload): (r: seq<HandlerError>)
    ensures |r| <= 1
    ensures r == [] <==> h.handle(ctx, ev).None?
    ensures r != [] ==> r[0].handler == h.name && Some(r[0].err) == h.handle(ctx, ev)
  {
    match h.handle(ctx, ev)
    case None => []
    case Some(e) => [HandlerError(h.name, e)]
  }

  /** Handler h fails on ev and reports he. */
  predicate Reports(h: EventHandler, ctx: Context, ev: Payload, he: HandlerError)
  {
    h.handle(ctx, ev) == Some(he.err) && h.name == he.handler
  }

  /** Every entry of order is a position in a list of n handlers. */
  predicate InRange(order: seq<nat>, n: nat)
  {
    forall k :: 0 <= k < |order| ==> order[k] < n
  }

  /** What the handler at position i reports for ev; a position past the list reports nothing. */
  function OutcomeAt(hns: seq<EventHandler>, ctx: Context, ev: Payload, i: nat): seq<HandlerError>
  {
    if i < |hns| then Outcome(hns[i], ctx, ev) else []
  }

  /** The failures gathered when the handlers at the positions in order finish in that order. */
  function Collected(hns: seq<EventHandler>, ctx: Context, ev: Payload, order: seq<nat>): seq<HandlerError>
    decreases |order|
  {
    if order == [] then []
    else Collected(hns, ctx, ev, order[..|order| - 1]) + OutcomeAt(hns, ctx, ev, order[|order| - 1])
  }

  /** The positions 0, 1, ..., n - 1 of a handler list, in registration order. */
  function Positions(n: nat): seq<nat>
  {
    seq(n, k => k)
  }

  /** A completion order for n handlers: each position exactly once. */
  predicate IsSchedule(order: seq<nat>, n: nat)
  {
    multiset(order) == multiset(Positions(n))
  }

  /** The failures of the handlers in registration order: one HandlerError per failing handler. */
  function Failures(hns: seq<EventHandler>, ctx: Context, ev: Payload): seq<HandlerError>
  {
    Collected(hns, ctx, ev, Positions(|hns|))
  }

  /** A completion order has one entry per handler and names only handler positions. */
  lemma ScheduleInRange(order: seq<nat>, n: nat)
    requires IsSchedule(order, n)
    ensures |order| == n && InRange(order, n)
  {
    assert |multiset(order)| == |multiset(Positions(n))|;
    forall k | 0 <= k < |order|
      ensures order[k] < n
    {
      assert order[k] in multiset(order);
      assert order[k] in Positions(n);
    }
  }

  /** Gathering over two consecutive runs of completions concatenates their failures. */
  lemma {:induction false} CollectedAppend(hns: seq<EventHandler>, ctx: Context, ev: Payload, a: seq<nat>, b: seq<nat>)
    ensures Collected(hns, ctx, ev, a + b) == Collected(hns, ctx, ev, a) + Collected(hns, ctx, ev, b)
    decreases |b|
  {
    if b == [] {
      assert a + b == a;
    } else {
      var b' := b[..|b| - 1];
      CollectedAppend(hns, ctx, ev, a, b');
      assert (a + b)[..|a + b| - 1] == a + b';
    }
  }

  /**
   * The last position of a also occurs in b, at some p, when the two name the
   * same positions; taking it out of both leaves two orders that still do.
   */
  lemma RemoveMatching(a: seq<nat>, b: seq<nat>) returns (p: nat)
    requires |a| > 0 && multiset(a) == multiset(b)
    ensures p < |b| && b[p] == a[|a| - 1]
    ensures multiset(a[..|a| - 1]) == multiset(b[..p] + b[p + 1..])
    ensures a == a[..|a| - 1] + [a[|a| - 1]] && b == b[..p] + [b[p]] + b[p + 1..]
  {
    var x := a[|a| - 1];
    assert a == a[..|a| - 1] + [x];
    assert x in multiset(b);
    p :| 0 <= p < |b| && b[p] == x;
    assert b == b[..p] + [x] + b[p + 1..];
    assert multiset(a[..|a| - 1]) == multiset(a) - multiset{x};
    assert multiset(b[..p] + b[p + 1..]) == multiset(b) - multiset{x};
  }

  /** Putting x last in one order and between b1 and b2 in the other adds the same failures to both. */
  lemma InsertSame(hns: seq<EventHandler>, ctx: Context, ev: Payload, a: seq<nat>, x: nat, b1: seq<nat>, b2: seq<nat>)
    requires multiset(Collected(hns, ctx, ev, a)) == multiset(Collected(hns, ctx, ev, b1 + b2))
    ensures multiset(Collected(hns, ctx, ev, a + [x])) == multiset(Collected(hns, ctx, ev, b1 + [x] + b2))
  {
    var o := OutcomeAt(hns, ctx, ev, x);
    CollectedAppend(hns, ctx, ev, b1, b2);
    CollectedAppend(hns, ctx, ev, b1, [x]);
    CollectedAppend(hns, ctx, ev, b1 + [x], b2);
    CollectedAppend(hns, ctx, ev, a, [x]);
    assert Collected(hns, ctx, ev, [x]) == o by {
      assert [x][..0] == [];
    }
    var c1, c2 := Collected(hns, ctx, ev, b1), Collected(hns, ctx, ev, b2);
    assert Collected(hns, ctx, ev, b1 + [x] + b2) == c1 + o + c2;
    assert multiset(c1 + o + c2) == multiset(c1 + c2) + multiset(o);
  }

  /**
   * The failures gathered do not depend on the completion order: any two
   * orders that name the same positions gather the same failures, as a
   * multiset.
   */
  lemma {:induction false} CollectedPermutation(hns: seq<EventHandler>, ctx: Context, ev: Payload, a: seq<nat>, b: seq<nat>)
    requires multiset(a) == multiset(b)
    ensures multiset(Collected(hns, ctx, ev, a)) == multiset(Collected(hns, ctx, ev, b))
    decreases |a|
  {
    if a == [] {
      assert |multiset(b)| == 0;
    } else {
      var x := a[|a| - 1];
      var p := RemoveMatching(a, b);
      var a', b1, b2 := a[..|a| - 1], b[..p], b[p + 1..];
      CollectedPermutation(hns, ctx, ev, a', b1 + b2);
      InsertSame(hns, ctx, ev, a', x, b1, b2);
    }
  }

  /** A HandlerError is gathered exactly when some handler named in the order reports it. */
  lemma {:induction false} CollectedMembers(hns: seq<EventHandler>, ctx: Context, ev: Payload, order: seq<nat>, he: HandlerError)
    requires InRange(order, |hns|)
    ensures he in Collected(hns, ctx, ev, order) <==> exists k :: 0 <= k < |order| && Reports(hns[order[k]], ctx, ev, he)
    decreases |order|
  {
    if order != [] {
      var o' := order[..|order| - 1];
      CollectedMembers(hns, ctx, ev, o', he);
      var last := hns[order[|order| - 1]];
      assert he in Outcome(last, ctx, ev) <==> Reports(last, ctx, ev, he);
      if exists k :: 0 <= k < |order| && Reports(hns[order[k]], ctx, ev, he) {
        var k :| 0 <= k < |order| && Reports(hns[order[k]], ctx, ev, he);
        if k < |order| - 1 {
          assert o'[k] == order[k];
        }
      }
      if exists k :: 0 <= k < |o'| && Reports(hns[o'[k]], ctx, ev, he) {
        var k :| 0 <= k < |o'| && Reports(hns[o'[k]], ctx, ev, he);
        assert order[k] == o'[k];
      }
    }
  }

  /** The failures in registration order hold exactly what the failing handlers report. */
  lemma FailuresExactly(hns: seq<EventHandler>, ctx: Context, ev: Payload, he: HandlerError)
    ensures he in Failures(hns, ctx, ev) <==> exists i :: 0 <= i < |hns| && Reports(hns[i], ctx, ev, he)
  {
    var ps := Positions(|hns|);
    CollectedMembers(hns, ctx, ev, ps, he);
    if exists i :: 0 <= i < |hns| && Reports(hns[i], ctx, ev, he) {
      var i :| 0 <= i < |hns| && Reports(hns[i], ctx, ev, he);
      assert ps[i] == i;
    }
  }

  /** There are no failures exactly when every handler succeeds. */
  lemma NoFailures(hns: seq<EventHandler>, ctx: Context, ev: Payload)
    ensures Failures(hns, ctx, ev) == [] <==> forall i :: 0 <= i < |hns| ==> hns[i].handle(ctx, ev).None?
  {
    if Failures(hns, ctx, ev) != [] {
      var he := Failures(hns, ctx, ev)[0];
      FailuresExactly(hns, ctx, ev, he);
    }
    if exists i :: 0 <= i < |hns| && hns[i].handle(ctx, ev).Some? {
      var i :| 0 <= i < |hns| && hns[i].handle(ctx, ev).Some?;
      FailuresExactly(hns, ctx, ev, HandlerError(hns[i].name, hns[i].handle(ctx, ev).value));
    }
  }

  /**
   * An aggregate holding the failures, in any order, matches the error of
   * each failing handler (unless that error is itself an aggregate, which
   * errors.Is never matches).
   */
  lemma FailuresMatchCauses(hns: seq<EventHandler>, ctx: Context, ev: Payload, errors: seq<HandlerError>)
    requires multiset(errors) == multiset(Failures(hns, ctx, ev))
    ensures forall i :: 0 <= i < |hns| && hns[i].handle(ctx, ev).Some? && !hns[i].handle(ctx, ev).value.Aggregate? ==>
              Is(Aggregate(errors), hns[i].handle(ctx, ev).value)
  {
    forall i | 0 <= i < |hns| && hns[i].handle(ctx, ev).Some? && !hns[i].handle(ctx, ev).value.Aggregate?
      ensures Is(Aggregate(errors), hns[i].handle(ctx, ev).value)
    {
      var cause := hns[i].handle(ctx, ev).value;
      var he := HandlerError(hns[i].name, cause);
      FailuresExactly(hns, ctx, ev, he);
      assert Reports(hns[i], ctx, ev, he);
      assert he in multiset(Failures(hns, ctx, ev));
      assert he in multiset(errors);
      var j :| 0 <= j < |errors| && errors[j] == he;
      AggregateMatchesMemberCause(errors, j, cause);
    }
  }

  /**
   * Whatever the completion order, the failures gathered are those of the
   * registration order rearranged, and there are none exactly when every
   * handler succeeds.
   */
  lemma ScheduledFailures(hns: seq<EventHandler>, ctx: Context, ev: Payload, schedule: seq<nat>)
    requires IsSchedule(schedule, |hns|)
    ensures InRange(schedule, |hns|)
    ensures multiset(Collected(hns, ctx, ev, schedule)) == multiset(Failures(hns, ctx, ev))
    ensures Collected(hns, ctx, ev, schedule) == [] <==> forall i :: 0 <= i < |hns| ==> hns[i].handle(ctx, ev).None?
  {
    ScheduleInRange(schedule, |hns|);
    var errors := Collected(hns, ctx, ev, schedule);
    CollectedPermutation(hns, ctx, ev, schedule, Positions(|hns|));
    NoFailures(hns, ctx, ev);
    assert errors == [] <==> Failures(hns, ctx, ev) == [] by {
      assert |multiset(errors)| == |errors|;
      assert |multiset(Failures(hns, ctx, ev))| == |Failures(hns, ctx, ev)|;
    }
  }

  /**
   * Dispatch for an event ev of type evT. With no list for evT it fails with
   * ErrHandlerNotFound. Otherwise every handler of the list is called exactly
   * once; schedule is the order in which they finish, which the Go
   * implementation leaves to the scheduler. The result is nil exactly when no
   * handler failed; otherwise it is an AggregateHandlerError holding, in
   * some order, exactly one HandlerError per failing handler, and it matches
   * each failing handler's error. Since registration never leaves an empty
   * list, a type that is found always has at least one handler called.
   */
  method Dispatch(m: Mob, ctx: Context, evT: TypeId, ev: Payload, schedule: seq<nat>)
    returns (err: Option<Error>, ghost invoked: seq<nat>)
    requires m.Valid()
    requires evT in m.ehandlers ==> IsSchedule(schedule, |m.ehandlers[evT]|)
    ensures evT !in m.ehandlers ==> err == Some(ErrHandlerNotFound) && invoked == []
    ensures evT in m.ehandlers ==> |invoked| > 0 && err != Some(ErrHandlerNotFound)
    ensures evT in m.ehandlers ==>
              var hns := m.ehandlers[evT];
              && multiset(invoked) == multiset(Positions(|hns|))
              && (err.None? <==> forall i :: 0 <= i < |hns| ==> hns[i].handle(ctx, ev).None?)
              && (err.Some? ==> && err.value.Aggregate?
                                && |err.value.members| > 0
                                && multiset(err.value.members) == multiset(Failures(hns, ctx, ev)))
    ensures evT in m.ehandlers ==>
              var hns := m.ehandlers[evT];
              forall i :: 0 <= i < |hns| && hns[i].handle(ctx, ev).Some? && !hns[i].handle(ctx, ev).value.Aggregate? ==>
                err.Some? && Is(err.value, hns[i].handle(ctx, ev).value)
  {
    if evT !in m.ehandlers {
      return Some(ErrHandlerNotFound), [];
    }
    var hns := m.ehandlers[evT];
    ScheduledFailures(hns, ctx, ev, schedule);
    var errors;
    errors, invoked := RunHandlers(hns, ctx, ev, schedule);
    FailuresMatchCauses(hns, ctx, ev, errors);
    if |errors| > 0 {
      err := Some(Aggregate(errors));
    } else {
      err := None;
    }
  }

  /**
   * The fan-out of Dispatch: each handler at a position in schedule is called
   * once, in that order, and every failure is appended as it arrives.
   */
  method RunHandlers(hns: seq<EventHandler>, ctx: Context, ev: Payload, schedule: seq<nat>)
    returns (errors: seq<HandlerError>, ghost invoked: seq<nat>)
    requires InRange(schedule, |hns|)
    ensures errors == Collected(hns, ctx, ev, schedule)
    ensures invoked == schedule
  {
    errors := [];
    invoked := [];
    for k := 0 to |schedule|
      invariant errors == Collected(hns, ctx, ev, schedule[..k])
      invariant invoked == schedule[..k]
    {
      var i := schedule[k];
      var e := hns[i].handle(ctx, ev);
      if e.Some? {
        errors := errors + [HandlerError(hns[i].name, e.value)];
      }
      invoked := invoked + [i];
      assert schedule[..k + 1][..k] == schedule[..k];
    }
    assert schedule[..|schedule|] == schedule;
  }
}
