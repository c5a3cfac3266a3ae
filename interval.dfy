/**
 * The recording interval `Math.max(200, Number(intervalInput.value) || 1000)`
 * (tm_capture_page.h line 201). `Number(...)` is the browser's string-to-number
 * conversion; the model starts from its result, a JavaScript number.
 */
module Interval {

  /** A JavaScript number, with its non-finite values. `-0` is `Finite(0.0)`. */
  datatype JsNumber = NaN | PosInfinity | NegInfinity | Finite(value: real)

  const MinInterval: real := 200.0
  const DefaultInterval: real := 1000.0

  /** `ToBoolean` of a number, which `||` applies: false exactly for NaN and zero. */
  predicate Truthy(n: JsNumber) {
    !n.NaN? && n != Finite(0.0)
  }

  /** `a < b` on numbers that are not NaN. */
  predicate Less(a: JsNumber, b: JsNumber)
    requires !a.NaN? && !b.NaN?
  {
    match (a, b)
    case (NegInfinity, _) => !b.NegInfinity?
    case (_, PosInfinity) => !a.PosInfinity?
    case (Finite(x), Finite(y)) => x < y
    case _ => false
  }

  /** `Math.max(a, b)`: NaN if either argument is NaN, otherwise the larger one. */
  function Max(a: JsNumber, b: JsNumber): (r: JsNumber)
    ensures r.NaN? <==> a.NaN? || b.NaN?
    ensures !r.NaN? ==> (r == a || r == b) && !Less(r, a) && !Less(r, b)
  {
    if a.NaN? || b.NaN? then NaN else if Less(a, b) then b else a
  }

  /** An interval the recording timer may be armed with: at least 200 ms. */
  predicate IsValidInterval(n: JsNumber) {
    n.PosInfinity? || (n.Finite? && n.value >= MinInterval)
  }

  /**
   * The interval `startRecording` arms the timer with and writes back into the
   * control: NaN and zero (an empty control reads as zero) fall back to 1000;
   * any other number below 200, negative ones included, is raised to 200.
   */
  function EffectiveInterval(requested: JsNumber): (r: JsNumber)
    ensures IsValidInterval(r)
    ensures !Truthy(requested) ==> r == Finite(DefaultInterval)
    ensures Truthy(requested) && IsValidInterval(requested) ==> r == requested
    ensures Truthy(requested) && !IsValidInterval(requested) ==> r == Finite(MinInterval)
  {
    Max(Finite(MinInterval), if Truthy(requested) then requested else Finite(DefaultInterval))
  }

  /** The value written back into the control resolves to itself on the next start. */
  lemma EffectiveIntervalIdempotent(requested: JsNumber)
    ensures EffectiveInterval(EffectiveInterval(requested)) == EffectiveInterval(requested)
  {
  }

  /** The resolution leaves a value alone exactly when it is already a valid interval. */
  lemma EffectiveIntervalFixedPoints(requested: JsNumber)
    ensures EffectiveInterval(requested) == requested <==> IsValidInterval(requested)
  {
  }

  lemma EffectiveIntervalExamples()
    ensures EffectiveInterval(Finite(50.0)) == Finite(200.0)
    ensures EffectiveInterval(Finite(0.0)) == Finite(1000.0)
    ensures EffectiveInterval(NaN) == Finite(1000.0)
    ensures EffectiveInterval(Finite(-5.0)) == Finite(200.0)
    ensures EffectiveInterval(NegInfinity) == Finite(200.0)
    ensures EffectiveInterval(Finite(250.0)) == Finite(250.0)
  {
  }
}
