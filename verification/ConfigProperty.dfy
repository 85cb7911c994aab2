/** What the list and multimap properties share: the closed set of canonical
    element parsers, the container shapes they resolve to, the element
    parser itself, the errors, and the two read wrappers over the value the
    shared base property exposes. */
module ConfigProperty {
  import opened Wrappers

  /** Which element parser a property was built with. The registry offers
      five canonical parser instances; every other parser is `Other`. */
  datatype ElementKind = Str | Dbl | Lng | Int | Dur | Other

  predicate IsCanonical(k: ElementKind) {
    !k.Other?
  }

  /** The marker type a container property declares itself as: the list
      classes StringList .. DurationList and the multimap classes
      StringMultimap .. DurationMultimap. */
  datatype Shape = ListOf(elem: ElementKind) | MultimapOf(elem: ElementKind)

  /** The error an element parser reports for a token it cannot convert. */
  datatype ConversionError = ConversionError(token: string)

  /** Which container kind a shape was requested for. */
  datatype Container = ListContainer | MultimapContainer

  /** Construction-time error: the element parser is not one of the five
      canonical ones (IllegalArgumentException). */
  datatype ConfigError = UnsupportedValueParser(container: Container, parser: ElementKind)

  /** Read-time error: no value is registered under the property's name
      (NoSuchElementException). */
  datatype ReadError = NoSuchElement(name: string)

  /** An element parser: the identity the shape resolver dispatches on, and
      the partial conversion from one token to an element. */
  datatype ValueParser<T> = ValueParser(kind: ElementKind, apply: string -> Result<T, ConversionError>)

  /** `value(default)`: the present value, or the default when the property
      has no value. It never fails. */
  function ValueOr<C>(current: Option<C>, default: C): (r: C)
    ensures current.Some? ==> r == current.value
    ensures current.None? ==> r == default
  {
    match current
    case Some(v) => v
    case None => default
  }

  /** `valueOrThrow()`: the present value, or a no-such-element error naming
      the property when it has no value. */
  function ValueOrThrow<C>(name: string, current: Option<C>): (r: Result<C, ReadError>)
    ensures r.Success? <==> current.Some?
    ensures r.Success? ==> r.value == current.value
    ensures r.Failure? ==> r.error == NoSuchElement(name)
  {
    match current
    case Some(v) => Success(v)
    case None => Failure(NoSuchElement(name))
  }

  /** The two read wrappers agree: `valueOrThrow()` fails exactly when
      `value(default)` falls back to its default, whatever the default, and
      otherwise both return the same value. */
  lemma ReadWrappersAgree<C>(name: string, current: Option<C>, d1: C, d2: C)
    ensures ValueOrThrow(name, current).Failure? <==> current.None?
    ensures ValueOrThrow(name, current).Success? ==> ValueOr(current, d1) == ValueOrThrow(name, current).value
    ensures ValueOrThrow(name, current).Success? ==> ValueOr(current, d1) == ValueOr(current, d2)
    ensures ValueOrThrow(name, current).Failure? ==> ValueOr(current, d1) == d1
  {
  }
}
