/**
 * The package's error model and handler validity check: the sentinel errors,
 * HandlerError and AggregateHandlerError with their Error/Is methods, Go's
 * errors.Is as it applies to them, and isValid with its set of nilable kinds.
 */
module Errors {

  /** The package-level sentinel errors, each created once by errors.New. */
  datatype SentinelId = HandlerNotFound | InvalidHandler | DuplicateHandler | Unmarshalling

  /** Which boundary of the interceptor chain failed to narrow a value. */
  datatype Side = RequestSide | ResponseSide

  /**
   * An error value. errors.New values are compared by identity, which `id`
   * stands for; fmt.Errorf with %w gives the wrapping forms.
   */
  datatype Error =
    | Sentinel(sentinel: SentinelId)
    | Plain(id: nat, text: string)
    | Prefixed(name: string, cause: Error)
    | Unmarshal(side: Side, got: string, want: string)
    | Handler(he: HandlerError)
    | Aggregate(members: seq<HandlerError>)

  /** The error of one named handler. */
  datatype HandlerError = HandlerError(handler: string, err: Error)

  const ErrHandlerNotFound: Error := Sentinel(HandlerNotFound)
  const ErrInvalidHandler: Error := Sentinel(InvalidHandler)
  const ErrDuplicateHandler: Error := Sentinel(DuplicateHandler)
  const ErrUnmarshal: Error := Sentinel(Unmarshalling)

  function SentinelText(id: SentinelId): string
  {
    match id
    case HandlerNotFound => "mob: handler not found"
    case InvalidHandler => "mob: invalid handler"
    case DuplicateHandler => "mob: duplicate handler"
    case Unmarshalling => "mob: unmarshal"
  }

  function SideName(side: Side): string
  {
    match side
    case RequestSide => "request"
    case ResponseSide => "response"
  }

  /** The four sentinels, in declaration order (ErrUnmarshal last). */
  const Sentinels: seq<Error> := [ErrHandlerNotFound, ErrInvalidHandler, ErrDuplicateHandler, ErrUnmarshal]

  /** The sentinels are pairwise different errors, and none matches another under errors.Is, in either direction. */
  lemma SentinelsDistinct()
    ensures forall i, j :: 0 <= i < |Sentinels| && 0 <= j < |Sentinels| && i != j ==>
              Sentinels[i] != Sentinels[j] && !Is(Sentinels[i], Sentinels[j])
  {
  }

  /**
   * An error whose Error() does not panic: AggregateHandlerError.Error slices
   * off the last byte of the accumulated message, so no aggregate reached
   * while printing may be empty.
   */
  predicate WellFormed(e: Error)
    decreases e
  {
    match e
    case Prefixed(_, cause) => WellFormed(cause)
    case Handler(he) => WellFormed(he.err)
    case Aggregate(ms) => |ms| > 0 && forall i :: 0 <= i < |ms| ==> WellFormed(ms[i].err)
    case _ => true
  }

  /**
   * The text err.Error() returns. The sentinels and the unmarshal errors
   * start with "mob: ", and a wrapper's text ends with its cause's text.
   */
  function ErrorString(e: Error): (s: string)
    requires WellFormed(e)
    ensures e.Sentinel? || e.Unmarshal? ==> |s| >= 5 && s[..5] == "mob: "
    ensures e.Prefixed? ==> |s| >= |ErrorString(e.cause)| && s[|s| - |ErrorString(e.cause)|..] == ErrorString(e.cause)
    ensures e.Handler? ==> |s| >= |ErrorString(e.he.err)| && s[|s| - |ErrorString(e.he.err)|..] == ErrorString(e.he.err)
    decreases e, 1
  {
    match e
    case Sentinel(id) => SentinelText(id)
    case Plain(_, text) => text
    case Prefixed(name, cause) => name + ": " + ErrorString(cause)
    case Unmarshal(side, got, want) =>
      SentinelText(Unmarshalling) + ": " + SideName(side) + " is " + got + ", want " + want
    case Handler(he) => HandlerErrorString(he)
    case Aggregate(ms) => Join(seq(|ms|, i requires 0 <= i < |ms| => HandlerErrorString(ms[i])))
  }

  /**
   * HandlerError.Error: the text opens with the handler's name and ": ", and
   * the rest of it is the wrapped error's text.
   */
  function HandlerErrorString(he: HandlerError): (s: string)
    requires WellFormed(he.err)
    ensures |s| == |he.handler| + 2 + |ErrorString(he.err)|
    ensures s[..|he.handler|] == he.handler && s[|he.handler|..|he.handler| + 2] == ": "
    ensures s[|he.handler| + 2..] == ErrorString(he.err)
    decreases he, 0
  {
    he.handler + ": " + ErrorString(he.err)
  }

  /** The parts separated by ";", with no separator after the last one. */
  function Join(parts: seq<string>): string
    requires |parts| > 0
  {
    if |parts| == 1 then parts[0]
    else Join(parts[..|parts| - 1]) + ";" + parts[|parts| - 1]
  }

  /** Every part followed by ";": what the loop of AggregateHandlerError.Error accumulates. */
  function Terminated(parts: seq<string>): string
  {
    if parts == [] then ""
    else Terminated(parts[..|parts| - 1]) + parts[|parts| - 1] + ";"
  }

  /** Dropping the last byte of the accumulated message leaves exactly the joined parts. */
  lemma {:induction false} JoinTerminated(parts: seq<string>)
    requires |parts| > 0
    ensures Terminated(parts) == Join(parts) + ";"
    ensures |Join(parts)| == |Terminated(parts)| - 1
  {
    if |parts| > 1 {
      var init := parts[..|parts| - 1];
      JoinTerminated(init);
      assert init[..|init| - 1] == parts[..|parts| - 2];
    } else {
      assert parts[..0] == [];
    }
  }

  /** Every part occurs in the joined text, at the position returned. */
  lemma {:induction false} JoinContains(parts: seq<string>, i: nat) returns (p: nat)
    requires i < |parts|
    ensures p + |parts[i]| <= |Join(parts)| && Join(parts)[p..p + |parts[i]|] == parts[i]
  {
    var j := Join(parts);
    if |parts| == 1 {
      p := 0;
    } else {
      var init := parts[..|parts| - 1];
      var ji := Join(init);
      assert j == ji + ";" + parts[|parts| - 1];
      if i == |parts| - 1 {
        p := |ji| + 1;
      } else {
        p := JoinContains(init, i);
        assert j[p..p + |parts[i]|] == ji[p..p + |init[i]|];
      }
    }
  }

  /**
   * The text of a HandlerError names its source: for handler names without a
   * colon, two HandlerErrors with the same text come from the same handler
   * and wrap errors with the same text.
   */
  lemma HandlerErrorNamesSource(a: HandlerError, b: HandlerError)
    requires WellFormed(a.err) && WellFormed(b.err)
    requires ':' !in a.handler && ':' !in b.handler
    requires HandlerErrorString(a) == HandlerErrorString(b)
    ensures a.handler == b.handler && ErrorString(a.err) == ErrorString(b.err)
  {
    var s := HandlerErrorString(a);
    assert s[|a.handler|] == ':' && s[|b.handler|] == ':';
  }

  /**
   * AggregateHandlerError.Error: concatenates every member's text followed by
   * ";" and drops the final byte.
   */
  method AggregateHandlerErrorString(ms: seq<HandlerError>) returns (msg: string)
    requires WellFormed(Aggregate(ms))
    ensures msg == ErrorString(Aggregate(ms))
  {
    ghost var parts := seq(|ms|, i requires 0 <= i < |ms| => HandlerErrorString(ms[i]));
    msg := "";
    for i := 0 to |ms|
      invariant msg == Terminated(parts[..i])
    {
      assert parts[..i + 1][..i] == parts[..i];
      msg := msg + HandlerErrorString(ms[i]) + ";";
    }
    assert parts[..|ms|] == parts;
    JoinTerminated(parts);
    msg := msg[..|msg| - 1];
  }

  /** Each member's own text appears inside the aggregate's text, at the position returned. */
  lemma AggregateStringContainsMembers(ms: seq<HandlerError>, i: nat) returns (p: nat)
    requires WellFormed(Aggregate(ms)) && i < |ms|
    ensures p + |HandlerErrorString(ms[i])| <= |ErrorString(Aggregate(ms))|
    ensures ErrorString(Aggregate(ms))[p..p + |HandlerErrorString(ms[i])|] == HandlerErrorString(ms[i])
  {
    var parts := seq(|ms|, k requires 0 <= k < |ms| => HandlerErrorString(ms[k]));
    p := JoinContains(parts, i);
  }

  /**
   * The errors errors.Is can reach from e: e itself and, through Unwrap and
   * the Is methods, every error it wraps. Unmarshal failures also reach
   * ErrUnmarshal. An aggregate is a slice, never equal to anything, so it
   * reaches only what its members reach.
   */
  ghost function Tree(e: Error): set<Error>
    decreases e, 1
  {
    match e
    case Prefixed(_, cause) => {e} + Tree(cause)
    case Unmarshal(_, _, _) => {e, ErrUnmarshal}
    case Handler(he) => MemberTree(he)
    case Aggregate(ms) => set i, x | 0 <= i < |ms| && x in MemberTree(ms[i]) :: x
    case _ => {e}
  }

  /** What errors.Is reaches from the HandlerError he: he itself and everything its error reaches. */
  ghost function MemberTree(he: HandlerError): set<Error>
    decreases he, 0
  {
    {Handler(he)} + Tree(he.err)
  }

  /**
   * errors.Is(err, target): err equals target, or err's Is method reports a
   * match, or the error err wraps (Unwrap) matches. An aggregate is a slice and
   * never compares equal; it only matches through its Is method. So err
   * matches exactly the errors it reaches.
   */
  predicate Is(err: Error, target: Error)
    ensures Is(err, target) <==> target in Tree(err)
    decreases err, 1
  {
    match err
    case Aggregate(ms) =>
      assert target in Tree(err) <==> exists i :: 0 <= i < |ms| && target in MemberTree(ms[i]);
      exists i :: 0 <= i < |ms| && (Handler(ms[i]) == target || HandlerErrorIs(ms[i], target))
    case Handler(he) => err == target || HandlerErrorIs(he, target)
    case Prefixed(_, cause) => err == target || Is(cause, target)
    case Unmarshal(_, _, _) => err == target || ErrUnmarshal == target
    case _ => err == target
  }

  /** HandlerError.Is: delegates to the wrapped error, so it matches exactly what that error reaches. */
  predicate HandlerErrorIs(he: HandlerError, target: Error)
    ensures HandlerErrorIs(he, target) <==> target in Tree(he.err)
    decreases he, 0
  {
    Is(he.err, target)
  }

  /** t occurs in s, starting at position p. */
  predicate OccursAt(t: string, s: string, p: nat)
  {
    p + |t| <= |s| && s[p..p + |t|] == t
  }

  /** An occurrence of t in an occurrence of u in s is an occurrence of t in s. */
  lemma OccursWithin(t: string, u: string, s: string, p: nat, q: nat)
    requires OccursAt(t, u, p) && OccursAt(u, s, q)
    ensures OccursAt(t, s, q + p)
  {
    forall k | 0 <= k < |t|
      ensures s[q + p + k] == t[k]
    {
      assert s[q..q + |u|][p + k] == u[p + k];
      assert u[p..p + |t|][k] == t[k];
    }
  }

  /** A text ending with c has c occurring at its end. */
  lemma SuffixOccurs(c: string, s: string)
    requires |s| >= |c| && s[|s| - |c|..] == c
    ensures OccursAt(c, s, |s| - |c|)
  {
  }

  /** A wrapper's text mentions everything its text's suffix mentions. */
  lemma MentionsThroughSuffix(x: string, c: string, s: string, q: nat) returns (p: nat)
    requires OccursAt(x, c, q) && |s| >= |c| && s[|s| - |c|..] == c
    ensures OccursAt(x, s, p)
  {
    SuffixOccurs(c, s);
    OccursWithin(x, c, s, q, |s| - |c|);
    p := |s| - |c| + q;
  }

  /**
   * Error() mentions everything errors.Is can reach: the text of every error
   * in the tree of a printable error is printable and occurs in its text.
   */
  lemma {:induction false} ErrorTextMentionsTree(e: Error, x: Error) returns (p: nat)
    requires WellFormed(e) && x in Tree(e)
    ensures WellFormed(x) && OccursAt(ErrorString(x), ErrorString(e), p)
    decreases e, 2
  {
    if x == e {
      p := 0;
      assert ErrorString(e)[0..|ErrorString(e)|] == ErrorString(e);
    } else if e.Prefixed? {
      var q := ErrorTextMentionsTree(e.cause, x);
      p := MentionsThroughSuffix(ErrorString(x), ErrorString(e.cause), ErrorString(e), q);
    } else if e.Handler? {
      p := HandlerMentionsTree(e.he, x);
    } else if e.Aggregate? {
      p := MemberMentionsTree(e.members, x);
    } else {
      assert e.Unmarshal? && x == ErrUnmarshal;
      p := 0;
    }
  }

  /** What an aggregate reaches, one of its members reaches. */
  lemma MemberHolding(ms: seq<HandlerError>, x: Error) returns (i: nat)
    requires x in Tree(Aggregate(ms))
    ensures i < |ms| && x in MemberTree(ms[i])
  {
    i :| 0 <= i < |ms| && x in MemberTree(ms[i]);
  }

  /** The aggregate case of ErrorTextMentionsTree: through the member whose tree holds x. */
  lemma {:induction false} MemberMentionsTree(ms: seq<HandlerError>, x: Error) returns (p: nat)
    requires WellFormed(Aggregate(ms)) && x in Tree(Aggregate(ms))
    ensures WellFormed(x) && OccursAt(ErrorString(x), ErrorString(Aggregate(ms)), p)
    decreases Aggregate(ms), 1
  {
    var i := MemberHolding(ms, x);
    var r := AggregateStringContainsMembers(ms, i);
    var q := HandlerMentionsTree(ms[i], x);
    OccursWithin(ErrorString(x), HandlerErrorString(ms[i]), ErrorString(Aggregate(ms)), q, r);
    p := r + q;
  }

  /** A HandlerError's text mentions itself and everything its error reaches. */
  lemma {:induction false} HandlerMentionsTree(he: HandlerError, x: Error) returns (p: nat)
    requires WellFormed(he.err) && x in MemberTree(he)
    ensures WellFormed(x) && OccursAt(ErrorString(x), HandlerErrorString(he), p)
    decreases he, 0
  {
    var h := HandlerErrorString(he);
    if x == Handler(he) {
      p := 0;
      assert h[0..|h|] == h;
    } else {
      var q := ErrorTextMentionsTree(he.err, x);
      p := MentionsThroughSuffix(ErrorString(x), ErrorString(he.err), h, q);
    }
  }

  /**
   * AggregateHandlerError.Is: scans the members and stops at the first one
   * that matches the target.
   */
  method AggregateHandlerErrorIs(ms: seq<HandlerError>, target: Error) returns (found: bool)
    ensures found <==> exists i :: 0 <= i < |ms| && Is(Handler(ms[i]), target)
    ensures found == Is(Aggregate(ms), target)
    ensures ms == [] ==> !found
  {
    for i := 0 to |ms|
      invariant forall j :: 0 <= j < i ==> !Is(Handler(ms[j]), target)
    {
      if Is(Handler(ms[i]), target) {
        return true;
      }
    }
    return false;
  }

  /** A cause wrapped in a HandlerError, or in an aggregate holding one, still matches. */
  lemma AggregateMatchesMemberCause(ms: seq<HandlerError>, i: nat, cause: Error)
    requires i < |ms| && Is(ms[i].err, cause)
    ensures Is(Handler(ms[i]), cause)
    ensures Is(Aggregate(ms), cause)
  {
  }

  /** The reflect kinds a handler value can have, grouped as isValid sees them. */
  datatype Kind = Ptr | Map | Array | Chan | Slice | Func | Struct | Other

  /** The kinds whose values isValid asks reflect whether they are nil. */
  const Nilable: set<Kind> := {Ptr, Map, Array, Chan, Slice}

  /**
   * A handler passed as an interface: the nil interface, or a value of some
   * kind which, for kinds that have one, may itself be nil.
   */
  datatype HandlerRef<H> = NilHandler | Ref(kind: Kind, isNil: bool, handler: H)

  /** isValid: the nil interface is invalid; a nil value of a nilable kind is invalid; anything else is valid. */
  predicate IsValid<H>(hn: HandlerRef<H>)
    ensures IsValid(hn) ==> hn.Ref?
    ensures hn.Ref? && hn.kind in Nilable ==> (IsValid(hn) <==> !hn.isNil)
    ensures hn.Ref? && hn.kind !in Nilable ==> IsValid(hn)
  {
    if hn.NilHandler? then false
    else if hn.kind in Nilable then !hn.isNil
    else true
  }
}
