/**
 * Registration options and the handler record they configure.
 */
module Options {

  /** The registry's record of a handler: the handler value and its display name. */
  class Handler<H> {
    const embedded: H
    var name: string

    constructor (embedded: H)
      ensures this.embedded == embedded && name == ""
    {
      this.embedded := embedded;
      name := "";
    }
  }

  /** An option configures a handler during registration; WithName is the only one. */
  datatype Option = WithName(name: string)

  /**
   * optionFunc.apply for the closure WithName returns: writes the handler's
   * name field. The embedded handler is a constant and the frame is the one
   * record, so nothing else changes.
   */
  method Apply<H>(opt: Option, h: Handler<H>)
    modifies h
    ensures h.name == opt.name
  {
    match opt
    case WithName(name) => h.name := name;
  }

  /** The name a record has after opts are applied to it, in argument order, starting from name. */
  function NameAfter(name: string, opts: seq<Option>): string
    decreases opts
  {
    if opts == [] then name else NameAfter(opts[0].name, opts[1..])
  }

  /** Applying options in order leaves the name of the last WithName, or the original name when there are none. */
  lemma {:induction false} LastOptionWins(name: string, opts: seq<Option>)
    ensures opts == [] ==> NameAfter(name, opts) == name
    ensures opts != [] ==> NameAfter(name, opts) == opts[|opts| - 1].name
    decreases opts
  {
    if opts != [] {
      LastOptionWins(opts[0].name, opts[1..]);
    }
  }

  /** One more option applied after opts decides the name on its own. */
  lemma NameAfterAppend(name: string, opts: seq<Option>, opt: Option)
    ensures NameAfter(name, opts + [opt]) == opt.name
  {
    LastOptionWins(name, opts + [opt]);
  }
}
