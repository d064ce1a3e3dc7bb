/**
 * The five facade severities and the `java.util.logging` levels they are
 * delegated to.
 */
module Levels {

  /** Facade severities, ordered from least to most severe. */
  datatype Level = Trace | Debug | Info | Warn | Error {

    /** Position of the severity in the order Trace < Debug < Info < Warn < Error. */
    function Rank(): nat {
      match this
      case Trace => 0
      case Debug => 1
      case Info => 2
      case Warn => 3
      case Error => 4
    }
  }

  /** A backend level: its name and its integer value, as in `java.util.logging.Level`. */
  datatype JulLevel = JulLevel(name: string, value: int)

  const FINEST := JulLevel("FINEST", 300)
  const FINE := JulLevel("FINE", 500)
  const INFO := JulLevel("INFO", 800)
  const WARNING := JulLevel("WARNING", 900)
  const SEVERE := JulLevel("SEVERE", 1000)
  /** `Level.OFF` has value `Integer.MAX_VALUE`. */
  const OFF := JulLevel("OFF", 0x7FFF_FFFF)

  /** The backend level a facade severity is gated on and recorded at. */
  function BackendLevel(l: Level): (j: JulLevel)
    ensures j in {FINEST, FINE, INFO, WARNING, SEVERE}
    ensures FINEST.value <= j.value <= SEVERE.value
  {
    match l
    case Trace => FINEST
    case Debug => FINE
    case Info => INFO
    case Warn => WARNING
    case Error => SEVERE
  }

  /** The mapping keeps the severity order and is one-to-one. */
  lemma BackendLevelPreservesOrder(a: Level, b: Level)
    ensures a.Rank() < b.Rank() <==> BackendLevel(a).value < BackendLevel(b).value
    ensures a == b <==> BackendLevel(a) == BackendLevel(b)
  {
  }

  /**
   * The gate a `java.util.logging.Logger` applies when its effective level
   * has value `threshold`: the level must reach it, and OFF disables everything.
   */
  predicate ThresholdLoggable(threshold: int, j: JulLevel) {
    j.value >= threshold && threshold != OFF.value
  }

  /** Under a threshold gate, enabling a severity enables every more severe one. */
  lemma ThresholdEnablesUpward(threshold: int, a: Level, b: Level)
    requires a.Rank() <= b.Rank()
    requires ThresholdLoggable(threshold, BackendLevel(a))
    ensures ThresholdLoggable(threshold, BackendLevel(b))
  {
    BackendLevelPreservesOrder(a, b);
  }
}
