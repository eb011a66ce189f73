/**
 * The decision of need_resampling in record.py: whether a clip's declared frame
 * rate is far enough from the target to be worth re-encoding.
 */
module Resampling {

  import opened Wrappers

  /** Half-width of the tolerance band, as a fraction of the target (10%). */
  const Margin: real := 0.1

  function Abs(x: real): real
  {
    if x < 0.0 then -x else x
  }

  /**
   * `frameRate` is what lines 30-33 of the source compute from the probe:
   * None when reading or evaluating `r_frame_rate` raised. A failed probe never
   * asks for resampling; otherwise resampling is needed exactly when the rate
   * is off the target by more than 10% of the target.
   */
  function NeedResampling(frameRate: Option<real>, targetFps: real): (r: bool)
    ensures frameRate.None? ==> !r
    ensures frameRate.Some? ==> (r <==> Abs(frameRate.value - targetFps) > Margin * targetFps)
  {
    match frameRate
    case None => false
    case Some(fps) => if targetFps * 0.9 <= fps <= targetFps * 1.1 then false else true
  }

  /** A clip already at a non-negative target rate is left alone. */
  lemma AtTargetNoResampling(targetFps: real)
    requires targetFps >= 0.0
    ensures !NeedResampling(Some(targetFps), targetFps)
  {
  }

  /**
   * Below a zero target the band `0.9 * t <= fps <= 1.1 * t` is empty, so any
   * successful probe asks for resampling.
   */
  lemma NegativeTargetAlwaysResamples(fps: real, targetFps: real)
    requires targetFps < 0.0
    ensures NeedResampling(Some(fps), targetFps)
  {
  }
}
