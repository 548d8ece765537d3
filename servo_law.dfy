/**
 * The arithmetic shared by both visual-servo loops: the integer centre of a
 * bounding box, numpy's `clip`, Python's `int()` on a float (truncation
 * toward zero) and the clipped proportional-derivative speed law
 * `int(clip(Kp*e + Kd*(e - prev), -100, 100))` with Kp = Kd = 0.2.
 * Coefficients are exact reals; float rounding is not modelled.
 */
module ServoLaw {

  /** Proportional gain. */
  const Kp: real := 0.2
  /** Derivative gain. */
  const Kd: real := 0.2
  /** Largest speed magnitude sent to the drone. */
  const SpeedLimit: int := 100

  /** The four speeds of `send_rc_control(left_right, forward_back, up_down, yaw)`. */
  datatype RcCommand = RcCommand(leftRight: int, forwardBack: int, upDown: int, yaw: int)

  function Abs(x: real): real {
    if x < 0.0 then -x else x
  }

  /** `(a + b) // 2`: the floor of the midpoint. */
  function FloorHalf(a: int, b: int): (c: int)
    ensures 2 * c <= a + b < 2 * c + 2
  {
    (a + b) / 2
  }

  /** `np.clip(x, lo, hi)` for a scalar. */
  function Clip(x: real, lo: real, hi: real): (y: real)
    requires lo <= hi
    ensures lo <= y <= hi
    ensures lo <= x <= hi ==> y == x
  {
    if x < lo then lo else if x > hi then hi else x
  }

  /** Clipping moves `x` to the nearest point of `[lo, hi]`. */
  lemma ClipIsNearest(x: real, lo: real, hi: real, z: real)
    requires lo <= hi && lo <= z <= hi
    ensures Abs(Clip(x, lo, hi) - x) <= Abs(z - x)
  {
  }

  /** Clipping never moves a value away from a point of the interval. */
  lemma ClipNonExpansive(x: real, lo: real, hi: real, z: real)
    requires lo <= hi && lo <= z <= hi
    ensures Abs(Clip(x, lo, hi) - z) <= Abs(x - z)
  {
  }

  lemma ClipMonotone(x: real, y: real, lo: real, hi: real)
    requires lo <= hi && x <= y
    ensures Clip(x, lo, hi) <= Clip(y, lo, hi)
  {
  }

  /** `int(x)` for a float: the integer part, rounding toward zero. */
  function Truncate(x: real): (n: int)
    ensures 0.0 <= x ==> n as real <= x < n as real + 1.0
    ensures x < 0.0 ==> n as real - 1.0 < x <= n as real
  {
    if x < 0.0 then -((-x).Floor) else x.Floor
  }

  /** Truncation keeps the sign and never increases the magnitude. */
  lemma TruncateTowardZero(x: real)
    ensures 0.0 <= x ==> 0 <= Truncate(x) && Truncate(x) as real <= x
    ensures x <= 0.0 ==> Truncate(x) <= 0 && x <= Truncate(x) as real
  {
  }

  lemma TruncateMonotone(x: real, y: real)
    requires x <= y
    ensures Truncate(x) <= Truncate(y)
  {
  }

  /** Truncation fixes whole numbers. */
  lemma TruncateOfInt(n: int)
    ensures Truncate(n as real) == n
  {
  }

  /** The unclipped controller output for error `e` after previous error `prev`. */
  function PdTerm(e: real, prev: real): real {
    Kp * e + Kd * (e - prev)
  }

  /** The speed sent for error `e`: the PD term clipped to ±100 and truncated. */
  function PdSpeed(e: real, prev: real): (speed: int)
    ensures -SpeedLimit <= speed <= SpeedLimit
  {
    TruncateMonotone(-SpeedLimit as real, Clip(PdTerm(e, prev), -SpeedLimit as real, SpeedLimit as real));
    TruncateMonotone(Clip(PdTerm(e, prev), -SpeedLimit as real, SpeedLimit as real), SpeedLimit as real);
    TruncateOfInt(-SpeedLimit);
    TruncateOfInt(SpeedLimit);
    Truncate(Clip(PdTerm(e, prev), -SpeedLimit as real, SpeedLimit as real))
  }

  /**
   * The speed has the sign of the PD term and no larger magnitude: the drone
   * turns toward the target, never faster than the law asks.
   */
  lemma PdSpeedFollowsTerm(e: real, prev: real)
    ensures 0.0 <= PdTerm(e, prev) ==> 0 <= PdSpeed(e, prev) && PdSpeed(e, prev) as real <= PdTerm(e, prev)
    ensures PdTerm(e, prev) <= 0.0 ==> PdSpeed(e, prev) <= 0 && PdTerm(e, prev) <= PdSpeed(e, prev) as real
  {
    var c := Clip(PdTerm(e, prev), -SpeedLimit as real, SpeedLimit as real);
    TruncateTowardZero(c);
  }

  /** A PD term of at least 100 in magnitude saturates the speed. */
  lemma PdSpeedSaturates(e: real, prev: real)
    ensures PdTerm(e, prev) >= SpeedLimit as real ==> PdSpeed(e, prev) == SpeedLimit
    ensures PdTerm(e, prev) <= -SpeedLimit as real ==> PdSpeed(e, prev) == -SpeedLimit
  {
    TruncateOfInt(SpeedLimit);
    TruncateOfInt(-SpeedLimit);
  }

  /** For a fixed previous error, a larger error never gives a smaller speed. */
  lemma PdSpeedMonotone(e1: real, e2: real, prev: real)
    requires e1 <= e2
    ensures PdSpeed(e1, prev) <= PdSpeed(e2, prev)
  {
    var lo, hi := -SpeedLimit as real, SpeedLimit as real;
    assert PdTerm(e1, prev) <= PdTerm(e2, prev);
    ClipMonotone(PdTerm(e1, prev), PdTerm(e2, prev), lo, hi);
    TruncateMonotone(Clip(PdTerm(e1, prev), lo, hi), Clip(PdTerm(e2, prev), lo, hi));
  }

  /** For a fixed error, a larger previous error never gives a larger speed. */
  lemma PdSpeedAntitone(e: real, prev1: real, prev2: real)
    requires prev1 <= prev2
    ensures PdSpeed(e, prev2) <= PdSpeed(e, prev1)
  {
    var lo, hi := -SpeedLimit as real, SpeedLimit as real;
    assert PdTerm(e, prev2) <= PdTerm(e, prev1);
    ClipMonotone(PdTerm(e, prev2), PdTerm(e, prev1), lo, hi);
    TruncateMonotone(Clip(PdTerm(e, prev2), lo, hi), Clip(PdTerm(e, prev1), lo, hi));
  }

  /** A centred target that was centred before gives no motion. */
  lemma PdSpeedAtRest()
    ensures PdSpeed(0.0, 0.0) == 0
  {
    TruncateOfInt(0);
  }
}
