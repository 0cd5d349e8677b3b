/** The policy records a scheme document compiles into: an access pattern
    that selects memory regions, the action applied to them, the quotas that
    limit the action, and the watermarks that switch the scheme on and off.
    The records are immutable; the decoders build new ones. */
module Damon {

  /** The unit a frequency or an age is expressed in. The line grammar always
      uses percent and microseconds; a default scheme may carry any unit. */
  datatype MeasureUnit = UnitPercent | UnitUsec | UnitOther(name: string)

  /** Which regions a scheme applies to: size in bytes, access frequency,
      and age, each as an inclusive min/max range (not checked for order). */
  datatype AccessPattern = AccessPattern(
    minSzBytes: nat,
    maxSzBytes: nat,
    minNrAccesses: real,
    maxNrAccesses: real,
    nrAccessesUnit: MeasureUnit,
    minAge: nat,
    maxAge: nat,
    ageUnit: MeasureUnit)

  /** How much the action may do per reset interval, and how regions are
      prioritised once the budget binds; zero means unset. Weights are
      plain integers, not range-checked at this layer. */
  datatype Quotas = Quotas(
    timeMs: nat,
    szBytes: nat,
    resetIntervalMs: nat,
    weightSzPermil: int,
    weightNrAccessesPermil: int,
    weightAgePermil: int)

  /** When the scheme is active: a system metric sampled every `intervalUs`
      and compared against three thresholds in permil. */
  datatype Watermarks = Watermarks(
    metric: string,
    intervalUs: nat,
    highPermil: int,
    midPermil: int,
    lowPermil: int)

  /** One policy. `filters` is an opaque list owned by the JSON converter;
      the line grammar never touches it. */
  datatype Scheme = Scheme(
    name: string,
    pattern: AccessPattern,
    action: string,
    quotas: Quotas,
    watermarks: Watermarks,
    filters: seq<string>)
}
