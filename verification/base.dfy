/** Shared vocabulary of the scorer: optional values, results, the failures
    an operation can report, and Java's integer remainder. */
module Base {

  /** A value that may be absent (Java's `Optional` and nullable fields). */
  datatype Option<T> = None | Some(value: T)

  /** Every way an operation of the scorer can fail.

      The first group are the `IllegalStateException`s the match phases
      throw on purpose; the second the misuse checks of the score map and
      the counters; the last group stands for the null dereferences and the
      array index the source would only hit from a state that no sequence
      of events produces (see `MatchInvariant.NoInternalFailure`). */
  datatype Error =
    | ServerAlreadyChosen
    | ServerNotChosen
    | NoPlayInProgress
    | GemIsInProgress
    | TiebreakIsInProgress
    | SupertiebreakIsInProgress
    | MatchIsFinished
    | NoSuchPlayer
    | NoOtherPlayer
    | GemIsFinished
    | TiebreakIsFinished
    | SetIsFinished
    | MissingSetScore
    | MissingServer
    | NoNextGemPoint

  /** The three failures no reachable state produces. */
  predicate IsInternal(e: Error) {
    e.MissingSetScore? || e.MissingServer? || e.NoNextGemPoint? || e.NoOtherPlayer?
  }

  /** A computed value or the failure that stopped the computation;
      usable with `:-`. */
  datatype Result<T> = Ok(value: T) | Err(error: Error) {

    predicate IsFailure() {
      Err?
    }

    function PropagateFailure<U>(): Result<U>
      requires Err?
    {
      Err(error)
    }

    function Extract(): T
      requires Ok?
    {
      value
    }
  }

  /** Java's `n % d` for a positive divisor: the remainder of division
      truncated toward zero, whose sign follows the dividend (Dafny's own
      `%` is Euclidean and never negative). */
  function JavaRemainder(n: int, d: int): (r: int)
    requires d > 0
    ensures -d < r < d
    ensures n >= 0 ==> r == n % d
    ensures n < 0 ==> r <= 0
  {
    if n >= 0 then n % d else -((-n) % d)
  }
}
