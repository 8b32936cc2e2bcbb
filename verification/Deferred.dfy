/** A value that may be filled in later by the enclosing context (processing/deferred.rs). */
module Deferreds {
  import opened Wrappers

  datatype DeferredError<+T> = CurrentlyDeferred | AlreadyPresent(old_: T, new_: T)

  datatype Deferred<+T> = Present(value: T) | Deferred | DeferredFallback(fallback: T) {

    predicate IsUsable() {
      Present? || DeferredFallback?
    }

    function Extract(): Result<T, DeferredError<T>> {
      match this
      case DeferredFallback(v) => Success(v)
      case Present(v) => Success(v)
      case Deferred => Failure(CurrentlyDeferred)
    }
  }
}
