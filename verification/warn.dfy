/**
 * The result wrappers every fallible call passes through (src/shared/warn.rs):
 * `Warnings` and `Errors` containers, `OkWarning` (data plus the warnings
 * gathered on the way) and `UnifiedResult`, with `unwrap` and `resolve`.
 *
 * The daemon and the client use the same shapes from the collection-utils
 * crate (`ErrorArray`, `WarningArray`, `uf_unwrap`); the model uses these
 * definitions for both. The items are the error and warning kinds the core
 * actually raises.
 */
module Warn {
  import opened Wrappers

  datatype IoErrorKind = UnexpectedEof | BrokenPipe | NotFound | PermissionDenied | OtherIo

  datatype ErrorKind =
    | GeneralError
    | InvalidFile
    | Unauthorized
    | InvalidAuthRequest
    | Io(io: IoErrorKind)   // `ErrorArrayItem::from(io::Error)`
    | Json                  // `ErrorArrayItem::from(serde_json::Error)`

  datatype ErrorItem = ErrorItem(kind: ErrorKind, detail: string)

  datatype WarningKind = Warning | OutdatedVersion

  datatype WarningItem = WarningItem(kind: WarningKind, detail: string)

  datatype Warnings<W> = Warnings(items: seq<W>)

  datatype Errors<E> = Errors(items: seq<E>)

  datatype OkWarning<T, W> = OkWarning(data: T, warning: Warnings<W>)

  datatype UnifiedResult<T, W, E> = UnifiedResult(result: Result<OkWarning<T, W>, Errors<E>>)

  /** What `resolve` does to the process: hand back the data, or print the
      errors and exit with status 1. */
  datatype Resolved<T> = Resolves(data: T) | ExitsWith(status: int)

  /** `Warnings::new` / `Errors::new`: wrap the given items unchanged. */
  function NewWarnings<W>(data: seq<W>): (w: Warnings<W>)
  {
    Warnings(data)
  }

  function NewErrors<E>(data: seq<E>): (e: Errors<E>)
  {
    Errors(data)
  }

  /** `new_container`: an empty container. */
  function NewWarningContainer<W>(): (w: Warnings<W>)
  {
    Warnings([])
  }

  function NewErrorContainer<E>(): (e: Errors<E>)
  {
    Errors([])
  }

  /** `UnifiedResult::new`. */
  function New<T, W, E>(result: Result<OkWarning<T, W>, Errors<E>>): (u: UnifiedResult<T, W, E>)
  {
    UnifiedResult(result)
  }

  /** `unwrap`: the data of an Ok result, its warnings dropped; the errors of
      an Err result, unchanged. */
  function Unwrap<T, W, E>(u: UnifiedResult<T, W, E>): (r: Result<T, Errors<E>>)
    ensures r.Ok? <==> u.result.Ok?
    ensures r.Ok? ==> r.value == u.result.value.data
    ensures r.Err? ==> r.error == u.result.error
  {
    match u.result
    case Ok(d) => Ok(d.data)
    case Err(e) => Err(e)
  }

  /** `resolve`: the data of an Ok result (its warnings are printed), or an
      exit with status 1 (the errors are printed). */
  function Resolve<T, W, E>(u: UnifiedResult<T, W, E>): (r: Resolved<T>)
    ensures r.Resolves? <==> u.result.Ok?
    ensures r.Resolves? ==> r.data == u.result.value.data
    ensures r.ExitsWith? ==> r.status == 1
  {
    match u.result
    case Ok(o) => Resolves(o.data)
    case Err(_) => ExitsWith(1)
  }

  /** Unwrapping what `new` wrapped: Ok gives the bare data, Err the same
      errors. */
  lemma UnwrapNew<T, W, E>(result: Result<OkWarning<T, W>, Errors<E>>)
    ensures result.Ok? ==> Unwrap(New(result)) == Ok(result.value.data)
    ensures result.Err? ==> Unwrap(New(result)) == Err(result.error)
  {
  }

  /** `resolve` and `unwrap` agree: resolving returns exactly when unwrapping
      is Ok, and returns the same data; otherwise the process exits with 1. */
  lemma ResolveAgreesWithUnwrap<T, W, E>(u: UnifiedResult<T, W, E>)
    ensures Resolve(u).Resolves? <==> Unwrap(u).Ok?
    ensures Unwrap(u).Ok? ==> Resolve(u) == Resolves(Unwrap(u).value)
    ensures Unwrap(u).Err? ==> Resolve(u) == ExitsWith(1)
  {
  }
}
