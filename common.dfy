/**
 * Shared vocabulary: optional values, the library's error conditions and the
 * three collector kinds (lib/common.js).
 */
module Common {

  datatype Option<+T> = None | Some(value: T) {
    function GetOr(default: T): T {
      match this
      case Some(v) => v
      case None => default
    }
  }

  /** The errors the library throws or returns, one constructor per condition. */
  datatype Error =
    | InvalidLabelKey(key: string)
    | InvalidLabelValue(key: string)
    | InvalidCollectorName
    | InvalidCollectorHelp
    | NegativeCounterAdd
    | NegativeObservation
    | AlreadyRegistered(name: string)
    | TypeConflict(name: string)
    | AssertionFailed(what: string)

  /** The outcome of an operation that either completes or throws. */
  datatype Outcome = Pass | Fail(error: Error)

  datatype Result<+T> = Ok(value: T) | Err(error: Error)

  /** lib/common.js: the type names of the three collector kinds. */
  datatype Kind = CounterKind | GaugeKind | HistogramKind
}
