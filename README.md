# mob: a verified model of the mediator/observer core

mob is an in-process mediator/observer library for Go. A `Mob` instance is a
registry. It holds three things:

- one request handler per ordered pair (request type, response type);
- a list of event handlers per event type;
- an append-only list of interceptors that wrap every request.

`Send` looks up the request handler for its pair and calls it, either
directly or through the interceptor chain. `Dispatch` calls every handler
registered for an event's type and gathers their failures into an
`AggregateHandlerError`.

The model has these modules:

- `Values` (values.dfy): a Go type is a `TypeId`. An `interface{}` value is
  either the untyped nil or a payload tagged with its dynamic type. A
  `context.Context` is the map of values attached with `WithValue`.
- `Errors` (mob.dfy): the error model.
  - the sentinels;
  - `HandlerError` and `AggregateHandlerError`, with their `Error` text
    (`ErrorString`, and the loop `AggregateHandlerErrorString`) and `Is`
    (`errors.Is` as the predicate `Is`, and the scan `AggregateHandlerErrorIs`);
  - the `fmt.Errorf("%w")` wrappings Send creates;
  - `isValid` and the set of nilable kinds.
- `Options` (option.dfy): the handler record, a class whose `name` field
  options write, and `WithName`.
- `Chain` (chain.dfy): the interceptor chain.
  - Interceptors are a datatype of behaviours.
  - `chainInterceptors` and `buildInvoker` build closures, as in the source.
  - `RunChain` is a direct recursive reference semantics for a run. Each run
    records a trace of interceptor entries and exits and handler calls.
  - The lemmas state what a run does in terms of that reference.
- `Registry` (registry.dfy): the `Mob` class with its three fields, and
  `AddInterceptorTo`.
- `Mediator` (mediator.dfy): `RegisterRequestHandlerTo` and `Send`.
- `Observer` (observer.dfy): `RegisterEventHandler` and `Dispatch`.
  - `Dispatch` runs its handlers concurrently in the source. Here their
    completion order is an explicit parameter, `schedule`.
  - The failures gathered are proved the same, as a multiset, for every
    order. Their order, and so the aggregate's text, follow the completion
    order.

Handlers and interceptors are application code. A request handler is a total
function from context and request to a response and an optional error. An
event handler is a name plus a total function to an optional error.

observer.go rejects only the nil interface as an event handler
(observer.go:49). It does not apply the nil-value check that request handlers
get, and neither does the model.

## Model

| member | source | states |
|---|---|---|
| Errors.SentinelsDistinct | mob.go:15-23 | ErrHandlerNotFound, ErrInvalidHandler, ErrDuplicateHandler and ErrUnmarshal are pairwise different, and none matches another under errors.Is, in either direction |
| Errors.ErrorString | mob.go:17-44 | the text Error() returns: the sentinels and the unmarshal errors start with "mob: ", and the text of a wrapper (a named error or a HandlerError) ends with the text of the error it wraps |
| Errors.HandlerErrorString | mob.go:31-33 | a HandlerError's text is the handler's name, then ": ", then the wrapped error's text, and its length is the sum of those |
| Errors.HandlerErrorNamesSource | mob.go:25-33 | the text identifies the source: for names without a colon, two HandlerErrors with the same text have the same handler name and wrapped errors with the same text |
| Errors.ErrorTextMentionsTree | mob.go:31-44 | the text of an error contains, at the returned position, the text of every error errors.Is can reach from it, the members and causes of an aggregate included |
| Errors.JoinTerminated | mob.go:38-44 | the message accumulated by appending each member's text and ";" is exactly the ";"-joined texts plus one trailing ";", so dropping the last byte leaves the joined texts with no trailing separator |
| Errors.JoinContains | mob.go:38-44 | every part occurs in the ";"-joined text, at the returned offset |
| Errors.AggregateHandlerErrorString | mob.go:38-44 | the Error loop over a non-empty aggregate returns the members' HandlerError texts (handler name, ": ", cause text) joined by ";" |
| Errors.AggregateStringContainsMembers | mob.go:38-44 | each member's text is a substring of the aggregate's text |
| Errors.AggregateHandlerErrorIs | mob.go:46-53 | the scan with early return reports true exactly when some member matches the target through HandlerError.Is, and false for an empty aggregate |
| Errors.Is | mob.go:46-57 | errors.Is(err, target) holds exactly when target is among the errors reachable from err: err itself unless it is an aggregate, the causes of named errors and HandlerErrors, ErrUnmarshal for an unmarshal failure, and whatever the members of an aggregate reach |
| Errors.HandlerErrorIs | mob.go:55-57 | HandlerError.Is matches exactly the errors reachable from the wrapped error |
| Errors.AggregateMatchesMemberCause | mob.go:46-57 | a cause matched by a member's wrapped error is matched by that HandlerError and by every aggregate containing it |
| Errors.IsValid | mob.go:61-77 | the nil interface is invalid; a handler of a nilable kind (pointer, map, array, chan, slice) is valid exactly when its value is not nil; a handler of any other kind is valid |
| Options.Handler.constructor | mediator.go:101 | a new handler record holds the given handler and the empty name |
| Options.Apply | option.go:10-20 | applying WithName(n) sets the record's name to n; the embedded handler is a constant and only that record may change |
| Options.LastOptionWins | mediator.go:102-104 | options applied in argument order leave the name of the last WithName, or the original name when there are none |
| Options.NameAfterAppend | option.go:15-20 | one more WithName applied after any options decides the name alone |
| Chain.BuildInvoker | interceptor.go:38-45 | the continuation built for position depth behaves as the chain from depth + 1 on, ending in the inner invoker; the recursion on depth terminates at the last position |
| Chain.ChainInterceptors | interceptor.go:26-36 | no chain for no interceptors; for one interceptor, that interceptor itself; for any non-empty list, a chain that behaves as the reference run from position 0, so interceptor 0 is outermost and execution order is insertion order |
| Chain.ShortCircuitStopsChain | interceptor.go:38-45 | when interceptor k returns without calling its continuation, the run equals the run of interceptors 0..k-1 around an invoker returning k's reply; no later interceptor and not the handler appear in the trace |
| Chain.ShortCircuitIgnoresHandler | interceptor.go:26-36 | a run that some interceptor short-circuits is the same whatever the terminal invoker is |
| Chain.ChainRunsInOrder | interceptor.go:38-45 | when every interceptor continues, the trace is the entries of stages 0, 1, ..., then the terminal invoker's trace, then the exits |
| Chain.EntriesInOrder | interceptor.go:38-45 | stage i is entered i-th; the first stage receives the caller's ctx and req, each later stage exactly the ctx and req the previous stage passed on, and the terminal invoker what the last stage passed on |
| Chain.ExitsInReverse | interceptor.go:38-45 | the stages return in reverse order of entry, the last stage first |
| Chain.ReplyPropagates | interceptor.go:38-45 | with no interceptor dropping the error, the chain's error is the terminal invoker's; if also none replaces the response, the whole reply is the terminal invoker's |
| Chain.ContextValueAt | interceptor.go:38-45 | a value that only stage i attaches under a key is absent from the context of stages 0..i and present, with that value, in the context of every later stage |
| Chain.ContextValueReachesHandler | interceptor.go:38-45 | that value is present in the context the terminal invoker receives |
| Registry.Mob.constructor | observer.go:41 | a new registry has no request handlers, no event handlers and no interceptors, and satisfies the registry invariant |
| Registry.AddInterceptorTo | interceptor.go:16-18 | the interceptor is appended at the end; earlier interceptors keep their order and both handler maps are unchanged |
| Mediator.RegisterRequestHandlerTo | mediator.go:91-107 | an invalid handler gives ErrInvalidHandler and a taken (request, response) pair ErrDuplicateHandler, both leaving the registry unchanged; otherwise exactly one new record, holding the handler and the name the options set, is added under the pair, and nothing else changes |
| Mediator.NameError | mediator.go:76-81 | no error stays no error; with an empty name the error is returned unchanged; with a name, the error text is "name: " followed by the cause's text and the result still matches everything the cause matches |
| Mediator.Terminal | mediator.go:56-62 | a request of the registered type goes to the handler, whose response returns as a value of the response type; any other request, the untyped nil included, fails with an error matching ErrUnmarshal and no handler call |
| Mediator.Send | mediator.go:45-83 | a missing pair gives the zero response and ErrHandlerNotFound and runs nothing; with no interceptors the handler's response and named error are returned as they are; with interceptors, a chain error gives the zero response and the named chain error, and a response of the wrong type gives the zero response and an error matching ErrUnmarshal; the registry is not modified |
| Mediator.RequestMismatchNotHandled | mediator.go:56-60 | when the request leaving the interceptors has the wrong type, the handler is never called, and unless an interceptor drops the error, the error Send returns matches ErrUnmarshal whatever the handler's name |
| Mediator.HandlerSeesChainRequest | mediator.go:56-64 | when the request leaving the interceptors has the registered type, the handler is called exactly once, between the entries and the exits, with the ctx and request the last interceptor passed on |
| Mediator.HandlerReplyReturns | mediator.go:61-67 | if no interceptor replaces the response or drops the error, the chain returns the handler's response, typed as the response type, and the handler's error |
| Mediator.DuplicateKeepsFirst | mediator.go:98-100 | registering a second handler for a taken pair fails with ErrDuplicateHandler and Send still returns the first handler's result |
| Mediator.DistinctResponseTypes | mediator.go:95-105 | one request type registers independently with two different response types, and each Send reaches its own handler |
| Observer.RegisterEventHandler | observer.go:48-62 | the nil interface gives ErrInvalidHandler and no change; any other handler is appended to its event type's list, which starts as that single handler when absent; no other type's list and no other field changes |
| Observer.Outcome | observer.go:80-84 | a handler contributes nothing when it succeeds, and exactly one HandlerError with its Name() and its error when it fails |
| Observer.CollectedPermutation | observer.go:74-96 | two completion orders that call the same handlers gather the same failures, as a multiset |
| Observer.CollectedMembers | observer.go:80-96 | a HandlerError is gathered exactly when a handler called in the order reports it |
| Observer.FailuresExactly | observer.go:80-84 | the failures hold exactly what the failing handlers report |
| Observer.NoFailures | observer.go:97-101 | there are no failures exactly when every handler succeeds |
| Observer.ScheduledFailures | observer.go:93-101 | for any completion order, the failures gathered are those of the registration order rearranged, and there are none exactly when all handlers succeed |
| Observer.FailuresMatchCauses | observer.go:93-100 | an aggregate holding the failures in any order matches every failing handler's error, unless that error is itself an aggregate |
| Observer.RunHandlers | observer.go:75-96 | the fan-out calls each handler once in the completion order and appends each failure as it arrives |
| Observer.Dispatch | observer.go:66-102 | a missing event type gives ErrHandlerNotFound; a registered type has at least one handler, so some handler is called and ErrHandlerNotFound is not returned; every handler is called exactly once, the result is nil exactly when no handler failed, and otherwise it is a non-empty aggregate holding exactly one HandlerError per failing handler, in some order, that matches each failing handler's error unless that error is itself an aggregate |

## Left out

- Goroutines, the `wc` semaphore, the `ec` channel and the closing goroutine in `Dispatch` are concurrency. The model calls the handlers in a completion order given as a parameter. The failures gathered are the same as a multiset for every order; their order, and so the aggregate's text, follow the completion order.
- `reflect` is replaced by a type name (`TypeId`) and an explicit kind and nil flag. The panic `reflect.Value.IsNil` raises for the Array kind is not modelled: an array handler counts as valid exactly when its flag says it is not nil.
- Errors.AggregateHandlerErrorString: `Error()` on an empty aggregate panics in the source, because it slices `msg[:len(msg)-1]` of an empty message (mob.go:43). The model requires a non-empty aggregate (`WellFormed`) and says nothing about the panic. Dispatch never builds an empty one.
- Errors.IsValid: `Func` is not a nilable kind (mob.go:71-77), so a nil `RequestHandlerFunc` passes `isValid` and `Send` panics when it calls it (mediator.go:23-24). The model has no nil function: a valid `Ref(Func, true, h)` answers with `h`'s reply.
- Interface-typed request and response parameters are not modelled. With such a parameter, `reflect.TypeOf` of a zero value and `v.(U)` behave differently. Every type parameter is taken to be a concrete type.
- `%T` formatting is not modelled beyond `<nil>` for the untyped nil. A `TypeId` stands for a `reflect.Type` identity, which is what `reqHnKey` compares (mediator.go:10-13). Its printed form is the same string, so two distinct Go types that print the same name (same-named packages, types declared inside functions) have distinct identities here but would show the same `%T` text in an error. The declaration of `ErrUnmarshal` is not part of this model, so its text ("mob: unmarshal") is a stand-in. Only its identity matters to `Is`.
- Errors built with `fmt.Errorf` are pointers in Go, so two separately built ones are never `==`. The model compares wrapped errors structurally. This only matters when a target is itself such a wrapper. Go's `==` also panics at run time when both sides hold an uncomparable value, for example a target `HandlerError` whose `Err` is an `AggregateHandlerError` compared with an equal member; the model's `Errors.Is` returns true there instead.
- `errors.Is` on a cause that is itself an `AggregateHandlerError` never matches that cause, because a slice is not comparable. The model does the same, so `Observer.Dispatch` promises the match only for non-aggregate causes.
- The process-wide default instance and its wrappers are not modelled: `RegisterRequestHandler` (mediator.go:115-117), `Send` (mediator.go:122-124) and `AddInterceptor` (interceptor.go:22-24). They only pass that instance to the modelled operations. `New`, the `Mob` struct and the `handler` struct are used but not shown in the source, so the registry's fields come from their uses.
- observer.go keeps the event handlers in a package-level map (observer.go:41). The model keeps them in the registry's `ehandlers` field, as the later `RegisterEventHandlerTo` does.
- mob.go and observer.go both declare `HandlerError`, `AggregateHandlerError` and `token`. They are modelled once.
- Handler implementations are application code. They are total functions here: a handler that panics or blocks is not modelled.
- The `Named` requirement that `isValid` puts on request handlers (mediator.go:92, mob.go:61) is not modelled.
- Observer.RegisterEventHandler: a non-nil interface that holds a nil pointer is accepted by the source like any other handler. The model only has present or absent event handlers, so it does not represent what calling such a handler would do.
- Interceptors are application code. The model has six behaviours, each calling its continuation at most once:
  - pass through;
  - attach a context value;
  - replace the request;
  - short-circuit with its own reply;
  - replace the response;
  - drop the error.

  An interceptor that calls its continuation several times, or that inspects the reply to decide what to do, is not modelled.
- `context.Context` is reduced to its `WithValue` map. Cancellation and deadlines are not modelled.
- Examples, benchmarks and tests are not modelled.
