/**
 * The easing-curve table of the extension and its configuration options.
 * `AnimationEase` is the union of the table's keys; `EasingFunction` is the
 * lookup `EASING_FUNCTIONS[animationEase]` made total over that union.
 */
module Easing {
  import opened Wrappers

  datatype AnimationEase =
    | Linear | Ease | EaseIn | EaseOut | EaseInOut
    | EaseInSine | EaseOutSine | EaseInOutSine
    | EaseInQuad | EaseOutQuad | EaseInOutQuad
    | EaseInCubic | EaseOutCubic | EaseInOutCubic
    | EaseInQuart | EaseOutQuart | EaseInOutQuart

  /** The animation settings; the duration is in seconds. */
  datatype FluidTypingOptions = FluidTypingOptions(animationDuration: real, animationEase: AnimationEase)

  /** The five curves that CSS names with a keyword of its own. */
  predicate IsCssKeyword(e: AnimationEase) {
    e.Linear? || e.Ease? || e.EaseIn? || e.EaseOut? || e.EaseInOut?
  }

  /** The key under which the table lists a curve. */
  function Key(e: AnimationEase): string {
    match e
    case Linear => "linear"
    case Ease => "ease"
    case EaseIn => "ease-in"
    case EaseOut => "ease-out"
    case EaseInOut => "ease-in-out"
    case EaseInSine => "ease-in-sine"
    case EaseOutSine => "ease-out-sine"
    case EaseInOutSine => "ease-in-out-sine"
    case EaseInQuad => "ease-in-quad"
    case EaseOutQuad => "ease-out-quad"
    case EaseInOutQuad => "ease-in-out-quad"
    case EaseInCubic => "ease-in-cubic"
    case EaseOutCubic => "ease-out-cubic"
    case EaseInOutCubic => "ease-in-out-cubic"
    case EaseInQuart => "ease-in-quart"
    case EaseOutQuart => "ease-out-quart"
    case EaseInOutQuart => "ease-in-out-quart"
  }

  /** A CSS value of the form `cubic-bezier(...)`. */
  predicate IsCubicBezier(css: string) {
    |css| >= 14 && css[..13] == "cubic-bezier(" && css[|css| - 1] == ')'
  }

  /** A CSS cubic Bézier timing function over the given control-point list. */
  function CubicBezier(controlPoints: string): (css: string)
    ensures IsCubicBezier(css)
  {
    "cubic-bezier(" + controlPoints + ")"
  }

  /** The CSS timing function the table stores for a curve. */
  function EasingFunction(e: AnimationEase): (css: string)
    ensures IsCssKeyword(e) ==> css == Key(e)
    ensures !IsCssKeyword(e) ==> IsCubicBezier(css)
  {
    match e
    case Linear => "linear"
    case Ease => "ease"
    case EaseIn => "ease-in"
    case EaseOut => "ease-out"
    case EaseInOut => "ease-in-out"
    case EaseInSine => CubicBezier("0.47, 0, 0.745, 0.715")
    case EaseOutSine => CubicBezier("0.39, 0.575, 0.565, 1")
    case EaseInOutSine => CubicBezier("0.445, 0.05, 0.55, 0.95")
    case EaseInQuad => CubicBezier("0.55, 0.085, 0.68, 0.53")
    case EaseOutQuad => CubicBezier("0.25, 0.46, 0.45, 0.94")
    case EaseInOutQuad => CubicBezier("0.455, 0.03, 0.515, 0.955")
    case EaseInCubic => CubicBezier("0.55, 0.055, 0.675, 0.19")
    case EaseOutCubic => CubicBezier("0.215, 0.61, 0.355, 1")
    case EaseInOutCubic => CubicBezier("0.645, 0.045, 0.355, 1")
    case EaseInQuart => CubicBezier("0.895, 0.03, 0.685, 0.22")
    case EaseOutQuart => CubicBezier("0.165, 0.84, 0.44, 1")
    case EaseInOutQuart => CubicBezier("0.77, 0, 0.175, 1")
  }

  /**
   * Which curve, if any, a configured name denotes. `AnimationEase` is a
   * compile-time type, the union of the table's keys, and nothing checks it
   * at run time; this function states which names that type admits.
   */
  function ParseEase(name: string): (r: Option<AnimationEase>)
    ensures r.Some? ==> Key(r.value) == name
  {
    if name == "linear" then Some(Linear)
    else if name == "ease" then Some(Ease)
    else if name == "ease-in" then Some(EaseIn)
    else if name == "ease-out" then Some(EaseOut)
    else if name == "ease-in-out" then Some(EaseInOut)
    else if name == "ease-in-sine" then Some(EaseInSine)
    else if name == "ease-out-sine" then Some(EaseOutSine)
    else if name == "ease-in-out-sine" then Some(EaseInOutSine)
    else if name == "ease-in-quad" then Some(EaseInQuad)
    else if name == "ease-out-quad" then Some(EaseOutQuad)
    else if name == "ease-in-out-quad" then Some(EaseInOutQuad)
    else if name == "ease-in-cubic" then Some(EaseInCubic)
    else if name == "ease-out-cubic" then Some(EaseOutCubic)
    else if name == "ease-in-out-cubic" then Some(EaseInOutCubic)
    else if name == "ease-in-quart" then Some(EaseInQuart)
    else if name == "ease-out-quart" then Some(EaseOutQuart)
    else if name == "ease-in-out-quart" then Some(EaseInOutQuart)
    else None
  }

  /** Every key of the table names exactly its own curve, so the key union has one member per curve. */
  lemma ParseKeyRoundTrip(e: AnimationEase)
    ensures ParseEase(Key(e)) == Some(e)
  {
  }

  /** Distinct curves are listed under distinct keys. */
  lemma KeyInjective(a: AnimationEase, b: AnimationEase)
    requires Key(a) == Key(b)
    ensures a == b
  {
    ParseKeyRoundTrip(a);
    ParseKeyRoundTrip(b);
  }
}
