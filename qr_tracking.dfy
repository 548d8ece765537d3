/**
 * `tracking`, the older visual-servo step, driven by a QR-code detector on
 * an 800x600 frame: raw (unsmoothed, unclipped) errors, a ±25 forward
 * nudge for a box too small or too large, and a command sent only for a
 * single detection labelled "dados de leitura". The detector's outputs are
 * the step's input; its globals are the fields of a tracker.
 */
module QrTracking {
  import opened Wrappers
  import opened ServoLaw

  const Width: int := 800
  const Height: int := 600
  const CenterX: int := Width / 2
  const CenterY: int := Height / 2

  /** Below this area the box is too far away. */
  const MinArea: int := 20000
  /** Above this area the box is too close. */
  const MaxArea: int := 80000
  const NudgeSpeed: int := 25

  /** The only label the drone acts on. */
  const TrackedText: string := "dados de leitura"

  /** What the QR detector reports for one frame. */
  datatype Detection = Detection(x1: int, y1: int, x2: int, y2: int, detections: int, text: string)

  function Area(d: Detection): int {
    (d.x2 - d.x1) * (d.y2 - d.y1)
  }

  /** The state `tracking` keeps between frames. */
  class QrTracker {
    var prevErrorX: int
    var prevErrorY: int
    var widthDetect: int
    var text: string

    constructor ()
      ensures prevErrorX == 0 && prevErrorY == 0 && widthDetect == 0 && text == ""
    {
      prevErrorX := 0;
      prevErrorY := 0;
      widthDetect := 0;
      text := "";
    }

    /**
     * One frame. Returns the command sent, if any: one exactly when there is
     * a single detection labelled "dados de leitura", made of the forward
     * nudge and the PD speeds on the raw errors. The errors, the box width
     * and the label are stored whether or not anything is sent.
     */
    method Tracking(d: Detection) returns (sent: Option<RcCommand>)
      modifies this
      ensures widthDetect == d.x2 - d.x1 && text == d.text
      ensures d.detections > 0 ==>
        prevErrorX == FloorHalf(d.x1, d.x2) - CenterX && prevErrorY == CenterY - FloorHalf(d.y1, d.y2)
      ensures d.detections <= 0 ==> prevErrorX == 0 && prevErrorY == 0
      ensures sent.Some? <==> d.detections == 1 && d.text == TrackedText
      ensures sent.Some? ==>
        && sent.value.leftRight == 0
        && sent.value.upDown == PdSpeed(prevErrorY as real, old(prevErrorY) as real)
        && sent.value.yaw == PdSpeed(prevErrorX as real, old(prevErrorX) as real)
        && -SpeedLimit <= sent.value.upDown <= SpeedLimit
        && -SpeedLimit <= sent.value.yaw <= SpeedLimit
      ensures sent.Some? && Area(d) < MinArea ==> sent.value.forwardBack == NudgeSpeed
      ensures sent.Some? && Area(d) > MaxArea ==> sent.value.forwardBack == -NudgeSpeed
      ensures sent.Some? && MinArea <= Area(d) <= MaxArea ==> sent.value.forwardBack == 0
    {
      var x1, y1, x2, y2, detections := d.x1, d.y1, d.x2, d.y2, d.detections;
      text := d.text;
      var speedFB := 0;
      var cxDetect := FloorHalf(x1, x2);
      var cyDetect := FloorHalf(y1, y2);
      widthDetect := x2 - x1;
      var area := (x2 - x1) * (y2 - y1);
      var errorX: int, errorY: int;
      if detections > 0 {
        errorX := cxDetect - CenterX;
        errorY := CenterY - cyDetect;
        if area < MinArea {
          speedFB := NudgeSpeed;
        } else if area > MaxArea {
          speedFB := -NudgeSpeed;
        }
      } else {
        errorX := 0;
        errorY := 0;
      }
      var speedYaw := PdSpeed(errorX as real, prevErrorX as real);
      var speedUD := PdSpeed(errorY as real, prevErrorY as real);
      if detections == 1 && text == TrackedText {
        sent := Some(RcCommand(0, speedFB, speedUD, speedYaw));
      } else {
        sent := None;
      }
      prevErrorX := errorX;
      prevErrorY := errorY;
    }
  }

  /**
   * Losing the code for one frame resets the previous errors, so on the next
   * frame the derivative term sees the whole error as new: a box seen right
   * after a blank frame is turned toward at least as fast as the same box
   * seen a second time in a row.
   */
  method LostFrameResetsDerivative(d: Detection) returns (afterGap: Option<RcCommand>, steady: Option<RcCommand>)
    requires d.detections == 1 && d.text == TrackedText
    ensures afterGap.Some? && steady.Some?
    ensures var e := (FloorHalf(d.x1, d.x2) - CenterX) as real;
      afterGap.value.yaw == PdSpeed(e, 0.0) && steady.value.yaw == PdSpeed(e, e)
    ensures FloorHalf(d.x1, d.x2) >= CenterX ==> afterGap.value.yaw >= steady.value.yaw >= 0
    ensures FloorHalf(d.x1, d.x2) <= CenterX ==> afterGap.value.yaw <= steady.value.yaw <= 0
  {
    var tracker := new QrTracker();
    var blank := Detection(0, 0, 0, 0, 0, "");
    var _ := tracker.Tracking(blank);
    afterGap := tracker.Tracking(d);
    steady := tracker.Tracking(d);
    var e := (FloorHalf(d.x1, d.x2) - CenterX) as real;
    PdSpeedFollowsTerm(e, e);
    if 0.0 <= e {
      PdSpeedAntitone(e, 0.0, e);
    }
    if e <= 0.0 {
      PdSpeedAntitone(e, e, 0.0);
    }
  }
}
