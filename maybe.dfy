/** The optional-presence result that `find` and `lookup` return (`just(v)` or
    `nothing`), with the two operations on it that the derivation uses. */
module Maybe {

  datatype Option<T> = None | Some(value: T)

  /** `fmap(f, m)`: applies `f` under `just`, leaves `nothing` alone. */
  function Fmap<A, B>(f: A -> B, o: Option<A>): (r: Option<B>)
    ensures r.None? <==> o.None?
    ensures o.Some? ==> r.value == f(o.value)
  {
    match o
    case None => None
    case Some(a) => Some(f(a))
  }

  /** `from_just(m)`: the value inside `just`; applying it to `nothing` is
      rejected, so callers must show the option is present. */
  function FromJust<A>(o: Option<A>): (a: A)
    requires o.Some?
    ensures Some(a) == o
  {
    o.value
  }
}
