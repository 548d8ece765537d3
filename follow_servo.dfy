/**
 * `follow`, the current visual-servo step: the drone turns and climbs so
 * that the detected box moves to the centre of the 960x720 frame, acting
 * only while the box area lies strictly between 20000 and 80000. Errors are
 * smoothed with the previous error and clipped to ±200 before the PD law;
 * the previous errors are module globals, here the fields of a controller.
 */
module FollowServo {
  import opened ServoLaw

  const Width: int := 960
  const Height: int := 720
  const CenterX: int := Width / 2
  const CenterY: int := Height / 2

  const MinActiveArea: int := 20000
  const MaxActiveArea: int := 80000

  /** Largest error magnitude fed to the PD law. */
  const ErrorLimit: real := 200.0

  /** Forward/back speeds assigned for a box too small or too large. */
  const ForwardNudge: int := 15

  /** The band in which the drone is controlled; both ends are outside it. */
  predicate InActiveBand(area: int) {
    MinActiveArea < area < MaxActiveArea
  }

  /** The horizontal error: positive when the box is right of centre. */
  function RawErrorX(x1: int, x2: int): int {
    FloorHalf(x1, x2) - CenterX
  }

  /** The vertical error: positive when the box is above centre. */
  function RawErrorY(y1: int, y2: int): int {
    CenterY - FloorHalf(y1, y2)
  }

  /** The error used inside the band: 0.8 raw + 0.2 previous, clipped to ±200. */
  function SmoothedError(raw: int, prev: real): (e: real)
    ensures -ErrorLimit <= e <= ErrorLimit
  {
    Clip(0.8 * raw as real + 0.2 * prev, -ErrorLimit, ErrorLimit)
  }

  /**
   * Within the limit, the smoothed error lies between the raw and the
   * previous error: smoothing only damps.
   */
  lemma SmoothedBetween(raw: int, prev: real)
    requires -ErrorLimit <= raw as real <= ErrorLimit && -ErrorLimit <= prev <= ErrorLimit
    ensures raw as real <= prev ==> raw as real <= SmoothedError(raw, prev) <= prev
    ensures prev <= raw as real ==> prev <= SmoothedError(raw, prev) <= raw as real
  {
  }

  /** Each step closes at least 80% of the gap between the previous and the raw error. */
  lemma SmoothedContracts(raw: int, prev: real)
    requires -ErrorLimit <= raw as real <= ErrorLimit
    ensures Abs(SmoothedError(raw, prev) - raw as real) <= 0.2 * Abs(prev - raw as real)
  {
    var s := 0.8 * raw as real + 0.2 * prev;
    assert s - raw as real == 0.2 * (prev - raw as real);
    ClipNonExpansive(s, -ErrorLimit, ErrorLimit, raw as real);
  }

  /** The previous error after `n` frames showing the same box inside the band. */
  function SmoothedAfter(raw: int, prev: real, n: nat): real {
    if n == 0 then prev else SmoothedError(raw, SmoothedAfter(raw, prev, n - 1))
  }

  /** 0.2 to the power `n`: the share of the gap left after `n` frames. */
  function Decay(n: nat): real {
    if n == 0 then 1.0 else 0.2 * Decay(n - 1)
  }

  /** A gap `g` shrunk by 0.2 per frame, `n` times. */
  function Shrunk(g: real, n: nat): real {
    if n == 0 then g else 0.2 * Shrunk(g, n - 1)
  }

  lemma {:induction false} ShrunkIsScaled(g: real, n: nat)
    ensures Shrunk(g, n) == Decay(n) * g
  {
    if n > 0 {
      ShrunkIsScaled(g, n - 1);
      assert 0.2 * (Decay(n - 1) * g) == (0.2 * Decay(n - 1)) * g;
    }
  }

  /**
   * For a still box whose raw error is within the limit, the smoothed error
   * converges geometrically to the raw error, with ratio 0.2 per frame.
   */
  lemma SmoothingConverges(raw: int, prev: real, n: nat)
    requires -ErrorLimit <= raw as real <= ErrorLimit
    ensures Abs(SmoothedAfter(raw, prev, n) - raw as real) <= Decay(n) * Abs(prev - raw as real)
  {
    SmoothingShrinksGap(raw, prev, n);
    ShrunkIsScaled(Abs(prev - raw as real), n);
  }

  lemma {:induction false} SmoothingShrinksGap(raw: int, prev: real, n: nat)
    requires -ErrorLimit <= raw as real <= ErrorLimit
    ensures Abs(SmoothedAfter(raw, prev, n) - raw as real) <= Shrunk(Abs(prev - raw as real), n)
  {
    if n > 0 {
      SmoothingShrinksGap(raw, prev, n - 1);
      SmoothedContracts(raw, SmoothedAfter(raw, prev, n - 1));
    }
  }

  /** A still box already at its smoothed error stays there. */
  lemma SmoothedFixedPoint(raw: int)
    requires -ErrorLimit <= raw as real <= ErrorLimit
    ensures SmoothedError(raw, raw as real) == raw as real
  {
  }

  /** The state `follow` keeps between frames. */
  class FollowController {
    var prevErrorX: real
    var prevErrorY: real

    constructor ()
      ensures prevErrorX == 0.0 && prevErrorY == 0.0
    {
      prevErrorX := 0.0;
      prevErrorY := 0.0;
    }

    /**
     * One frame with the box (x1, y1)-(x2, y2). Returns the one command sent
     * to the drone: inside the band, the PD speeds on the smoothed errors,
     * with no sideways and no forward/back motion; outside it, all zeros.
     * The previous errors become the errors just used.
     */
    method Follow(x1: int, y1: int, x2: int, y2: int) returns (sent: RcCommand)
      modifies this
      ensures -SpeedLimit <= sent.upDown <= SpeedLimit && -SpeedLimit <= sent.yaw <= SpeedLimit
      ensures sent.leftRight == 0 && sent.forwardBack == 0
      ensures -ErrorLimit <= prevErrorX <= ErrorLimit && -ErrorLimit <= prevErrorY <= ErrorLimit
      ensures InActiveBand((x2 - x1) * (y2 - y1)) ==>
        && prevErrorX == SmoothedError(RawErrorX(x1, x2), old(prevErrorX))
        && prevErrorY == SmoothedError(RawErrorY(y1, y2), old(prevErrorY))
        && sent.upDown == PdSpeed(prevErrorY, old(prevErrorY))
        && sent.yaw == PdSpeed(prevErrorX, old(prevErrorX))
      ensures !InActiveBand((x2 - x1) * (y2 - y1)) ==>
        prevErrorX == 0.0 && prevErrorY == 0.0 && sent == RcCommand(0, 0, 0, 0)
    {
      var speedFB := 0;
      var cxDetect := FloorHalf(x1, x2);
      var cyDetect := FloorHalf(y1, y2);
      var area := (x2 - x1) * (y2 - y1);
      var errorX: real, errorY: real;
      if MinActiveArea < area < MaxActiveArea {
        errorX := (cxDetect - CenterX) as real;
        errorY := (CenterY - cyDetect) as real;
        errorX := errorX * 0.8 + prevErrorX * 0.2;
        errorY := errorY * 0.8 + prevErrorY * 0.2;
        errorX := Clip(errorX, -ErrorLimit, ErrorLimit);
        errorY := Clip(errorY, -ErrorLimit, ErrorLimit);
      } else {
        errorX := 0.0;
        errorY := 0.0;
        speedFB := 0;
      }
      var speedYaw := PdSpeed(errorX, prevErrorX);
      var speedUD := PdSpeed(errorY, prevErrorY);
      if area < MinActiveArea && speedFB == 0 {
        speedFB := ForwardNudge;
      } else if area > MaxActiveArea {
        speedFB := -ForwardNudge;
      }
      if MinActiveArea < area < MaxActiveArea {
        sent := RcCommand(0, speedFB, speedUD, speedYaw);
      } else {
        sent := RcCommand(0, 0, 0, 0);
      }
      prevErrorX := errorX;
      prevErrorY := errorY;
    }
  }

  /**
   * Two frames of the same 200x200 box, centred 20 pixels right of and 40
   * pixels below the frame centre: the first command turns right at 6 and
   * descends at 12; on the second the derivative term, now smaller, gives 4
   * and 8.
   */
  method FollowTwoFrames() returns (first: RcCommand, second: RcCommand)
    ensures first == RcCommand(0, 0, -12, 6)
    ensures second == RcCommand(0, 0, -8, 4)
  {
    var controller := new FollowController();
    first := controller.Follow(400, 300, 600, 500);
    assert controller.prevErrorX == 16.0 && controller.prevErrorY == -32.0;
    second := controller.Follow(400, 300, 600, 500);
  }
}
