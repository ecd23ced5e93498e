/**
 * The Python exceptions the bot raises or catches. The source only ever
 * catches `ValueError` and `KeyError`, so every other kind is kept apart:
 * it propagates to the top-level caller wherever it is raised.
 */
module Errors {

  /** Why a `ValueError` was raised. */
  datatype ValueReason =
    | BadStatus(status: int)   // a non-200, non-retryable HTTP status
    | InvalidDate              // `datetime.strptime` on an impossible calendar date
    | NotJson                  // a body that does not decode as JSON
    | ProbeFailed              // raised by the probe path of the author lookup
    | EmptyRange               // `random.randint(a, b)` with `a > b`
    | DigitLimit               // `int()` of a numeral longer than the digit cap

  datatype Exc =
    | ValueError(reason: ValueReason)
    | KeyError
    | IndexError
    | TypeError
    | AttributeError
    | TimeoutError(failures: nat)
    | OverflowError            // a `datetime` or `timedelta` outside its range

  /** `except ValueError` catches exactly these. */
  predicate IsValueError(e: Exc) { e.ValueError? }

  /** `except ValueError: ... except KeyError: ...` catches exactly these. */
  predicate IsSwallowed(e: Exc) { e.ValueError? || e.KeyError? }
}
