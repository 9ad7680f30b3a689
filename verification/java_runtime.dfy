/** The few pieces of Java runtime behaviour the wrapper relies on: null
    references, the Exception/Error split of `Throwable`, and the outcome of a
    call that either returns or throws. */
module JavaRuntime {

  /** A reference that may be null: `None` is Java's `null`. */
  datatype Option<+T> = None | Some(value: T)

  /** What a Java call can throw, as far as the wrapper's `catch` clauses can
      tell apart: a `java.lang.Exception`, a `java.lang.Error` (for instance a
      `LinkageError` raised while loading a class), or the
      `UndeclaredThrowableException` a dynamic proxy raises when its handler
      throws a checked exception the interface does not declare. Its `cause`
      is the throwable of the invoked target; the `InvocationTargetException`
      that Java places between the two (as `getCause()`) is left out. */
  datatype Throwable = Exception | Error | Undeclared(cause: Throwable) {

    /** True iff a `catch (Exception e)` clause catches it.
        `UndeclaredThrowableException` is a `RuntimeException`. */
    predicate IsException() {
      !Error?
    }
  }

  /** The outcome of a call: it returned a value or it threw. */
  datatype Call<+T> = Returned(value: T) | Threw(thrown: Throwable) {

    /** True iff the call threw something `catch (Exception e)` does not catch. */
    predicate Escapes() {
      Threw? && !thrown.IsException()
    }
  }
}
