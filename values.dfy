/**
 * The values that travel through the mediator. A Go type is an abstract type
 * identity, the reflect.Type a key compares; a value is either the untyped nil
 * interface or a payload tagged with its dynamic type.
 */
module Values {
  /** The identity of a Go type: what reflect.TypeOf yields, compared by identity, not by its printed name. */
  type TypeId = string

  /** The opaque contents of a request, response or event value. */
  type Payload = int

  /** The zero value of a response type (`var res U`). */
  const Zero: Payload := 0

  /** An `interface{}` as seen inside the interceptor chain. */
  datatype Value = Untyped | Of(t: TypeId, data: Payload)

  /** What %T prints for an interface value: `<nil>` for the untyped nil. */
  function TypeName(v: Value): string
  {
    match v
    case Untyped => "<nil>"
    case Of(t, _) => t
  }

  /** Whether an interface value holds a value of type t (the `v.(T)` assertion). */
  predicate HasType(v: Value, t: TypeId)
  {
    v.Of? && v.t == t
  }

  /** A context.Context reduced to the values attached with context.WithValue. */
  type Context = map<string, string>
}
