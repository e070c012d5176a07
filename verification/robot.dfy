/**
 * The two-wheel robot: each controller report is mixed into a left and a
 * right wheel speed (straight drive or pivot turn, never both), and a wheel
 * is commanded only when its speed changed by more than a small hysteresis.
 * Control needs the R1 button held; releasing it stops the wheels.
 *
 * Time is a parameter in whole milliseconds; the controller report is given
 * as its stick bytes and the R1 flag. A step returns the new robot and the
 * wheel speeds it sends, in order.
 */
module Robot {
  import opened Bytes
  import Cia402

  const MaxRpm: real := 1500.0
  const Deadzone: real := 35.0
  const JoyCenter: real := 127.5
  const UpdateIntervalMs: int := 20

  /** A wheel is commanded only when its speed moves by more than this many RPM. */
  const Hysteresis: real := 0.5

  /** On release, a wheel faster than this many RPM counts as still moving. */
  const StoppedThreshold: real := 0.1

  /** The parts of a controller report the robot uses. */
  datatype Controls = Controls(leftStickY: u8, rightStickX: u8, r1: bool)

  datatype Wheel = Left | Right

  /** One velocity command, in RPM, sent to one wheel's motor. */
  datatype Dispatch = Dispatch(wheel: Wheel, rpm: real)

  datatype Robot = Robot(running: bool, lastLeftRpm: real, lastRightRpm: real, lastUpdate: int)

  datatype Step = Step(robot: Robot, dispatches: seq<Dispatch>)

  function Abs(x: real): real {
    if x < 0.0 then -x else x
  }

  function Max(x: real, y: real): real {
    if x >= y then x else y
  }

  /** Clamping to [-1, 1]. */
  function Clamp(x: real): (y: real)
    ensures -1.0 <= y <= 1.0
    ensures -1.0 <= x <= 1.0 ==> y == x
    ensures x > 1.0 ==> y == 1.0
    ensures x < -1.0 ==> y == -1.0
  {
    if x > 1.0 then 1.0 else if x < -1.0 then -1.0 else x
  }

  // ---------------------------------------------------------------------
  // Joystick axes

  /**
   * One axis from the stick's deviation from centre: a deviation inside the
   * dead zone is 0, anything else is scaled to [-1, 1] with full deflection
   * (127.5) at the ends.
   */
  function Axis(deviation: real): (a: real)
    ensures -1.0 <= a <= 1.0
    ensures Abs(deviation) < Deadzone ==> a == 0.0
    ensures Deadzone <= Abs(deviation) <= JoyCenter ==> a * JoyCenter == deviation
  {
    Clamp((if Abs(deviation) < Deadzone then 0.0 else deviation) / JoyCenter)
  }

  /** Forward (+) or backward (-): the left stick's Y byte grows downward. */
  function Forward(c: Controls): real {
    Axis(JoyCenter - c.leftStickY as real)
  }

  /** Turn right (+) or left (-) from the right stick's X byte. */
  function Turn(c: Controls): real {
    Axis(c.rightStickX as real - JoyCenter)
  }

  /** Deflections in opposite directions give opposite axis values. */
  lemma AxisOdd(deviation: real)
    ensures Axis(-deviation) == -Axis(deviation)
  {
  }

  /** Mirroring the left stick about its centre reverses the drive direction. */
  lemma ForwardMirror(c: Controls)
    ensures Forward(c.(leftStickY := 255 - c.leftStickY)) == -Forward(c)
  {
    AxisOdd(JoyCenter - c.leftStickY as real);
  }

  /** The dead zone in stick bytes: the axis is 0 exactly for the bytes 93 to 162. */
  lemma DeadzoneBytes(c: Controls)
    ensures Forward(c) == 0.0 <==> 93 <= c.leftStickY <= 162
    ensures Turn(c) == 0.0 <==> 93 <= c.rightStickX <= 162
  {
  }

  // ---------------------------------------------------------------------
  // Mixing

  /**
   * The wheel speeds in RPM for one report. The larger deflection wins: when
   * forward/backward is at least as large as the turn both wheels run at the
   * forward speed, otherwise the robot pivots with the wheels opposed.
   */
  function TargetRpm(c: Controls): (w: (real, real))
    ensures -MaxRpm <= w.0 <= MaxRpm && -MaxRpm <= w.1 <= MaxRpm
    ensures w.0 == w.1 <==> Abs(Forward(c)) >= Abs(Turn(c))
    ensures Abs(Forward(c)) >= Abs(Turn(c)) ==> w == (MaxRpm * Forward(c), MaxRpm * Forward(c))
    ensures w.0 != w.1 ==> w.0 == -w.1 && w.0 == MaxRpm * Turn(c)
    ensures Abs(w.0) == Abs(w.1) == MaxRpm * Max(Abs(Forward(c)), Abs(Turn(c)))
  {
    var forward := Forward(c);
    var turn := Turn(c);
    var (left, right) := if Abs(forward) >= Abs(turn) then (forward, forward) else (turn, -turn);
    (Clamp(left) * MaxRpm, Clamp(right) * MaxRpm)
  }

  /** A tie between the two sticks goes to straight driving. */
  lemma TieGoesStraight(c: Controls)
    requires Abs(Forward(c)) == Abs(Turn(c))
    ensures TargetRpm(c) == (MaxRpm * Forward(c), MaxRpm * Forward(c))
  {
  }

  // ---------------------------------------------------------------------
  // Robot steps

  /**
   * A robot created at time `now`: its wheels are taken to stand still, and
   * until it is started it ignores every controller report.
   */
  function Create(now: int): (r: Robot)
    ensures Bounded(r) && Abs(r.lastLeftRpm) <= StoppedThreshold && Abs(r.lastRightRpm) <= StoppedThreshold
    ensures forall c, t :: UpdateFromController(r, c, t) == Step(r, [])
  {
    Robot(false, 0.0, 0.0, now)
  }

  /**
   * Starting: from now on the robot follows the controller, and the first
   * report is accepted once R1 is held and the interval since the last
   * update has passed. The recorded speeds are left as they are.
   */
  function Start(r: Robot): (r': Robot)
    ensures r'.lastLeftRpm == r.lastLeftRpm && r'.lastRightRpm == r.lastRightRpm
    ensures Bounded(r') == Bounded(r)
    ensures forall c, t :: Accepted(r', c, t) <==> c.r1 && t - r.lastUpdate >= UpdateIntervalMs
  {
    r.(running := true)
  }

  /** A robot created at time t and started accepts its first R1 report 20 ms after t. */
  lemma StartAfterCreate(t: int, c: Controls, now: int)
    ensures Accepted(Start(Create(t)), c, now) <==> c.r1 && now - t >= UpdateIntervalMs
  {
  }

  /**
   * How a step that asks for `left` and `right` sends them, starting from
   * the last speeds of `r` and ending with those of `r'`: a wheel is sent its
   * speed, once, exactly when that speed differs from its last one by more
   * than the hysteresis, left before right, and a wheel's last speed changes
   * only when it is sent.
   */
  predicate SendsWithHysteresis(r: Robot, left: real, right: real, r': Robot, ds: seq<Dispatch>) {
    var sendLeft := Abs(left - r.lastLeftRpm) > Hysteresis;
    var sendRight := Abs(right - r.lastRightRpm) > Hysteresis;
    && r'.lastLeftRpm == (if sendLeft then left else r.lastLeftRpm)
    && r'.lastRightRpm == (if sendRight then right else r.lastRightRpm)
    && |ds| == (if sendLeft then 1 else 0) + (if sendRight then 1 else 0)
    && (Dispatch(Left, left) in ds <==> sendLeft)
    && (Dispatch(Right, right) in ds <==> sendRight)
    && (forall d <- ds :: d == Dispatch(Left, left) || d == Dispatch(Right, right))
    && (|ds| == 2 ==> ds[0].wheel == Left && ds[1].wheel == Right)
  }

  /**
   * Sending wheel speeds: each wheel, left first, is commanded and its last
   * speed recorded only when the new speed differs from the last by more
   * than the hysteresis. Afterwards each wheel's last speed is within the
   * hysteresis of the speed asked for.
   */
  function SetMotorSpeeds(r: Robot, left: real, right: real): (s: Step)
    ensures s.robot.running == r.running && s.robot.lastUpdate == r.lastUpdate
    ensures Dispatch(Left, left) in s.dispatches <==> Abs(left - r.lastLeftRpm) > Hysteresis
    ensures Dispatch(Right, right) in s.dispatches <==> Abs(right - r.lastRightRpm) > Hysteresis
    ensures forall d <- s.dispatches :: d == Dispatch(Left, left) || d == Dispatch(Right, right)
    ensures |s.dispatches| == 2 ==> s.dispatches[0].wheel == Left && s.dispatches[1].wheel == Right
    ensures Abs(s.robot.lastLeftRpm - left) <= Hysteresis && Abs(s.robot.lastRightRpm - right) <= Hysteresis
    ensures s.robot.lastLeftRpm == if Abs(left - r.lastLeftRpm) > Hysteresis then left else r.lastLeftRpm
    ensures s.robot.lastRightRpm == if Abs(right - r.lastRightRpm) > Hysteresis then right else r.lastRightRpm
    ensures |s.dispatches| == (if Abs(left - r.lastLeftRpm) > Hysteresis then 1 else 0)
                            + (if Abs(right - r.lastRightRpm) > Hysteresis then 1 else 0)
    ensures SendsWithHysteresis(r, left, right, s.robot, s.dispatches)
  {
    var sendLeft := Abs(left - r.lastLeftRpm) > Hysteresis;
    var sendRight := Abs(right - r.lastRightRpm) > Hysteresis;
    Step(
      r.(lastLeftRpm := if sendLeft then left else r.lastLeftRpm,
         lastRightRpm := if sendRight then right else r.lastRightRpm),
      (if sendLeft then [Dispatch(Left, left)] else [])
      + (if sendRight then [Dispatch(Right, right)] else []))
  }

  /**
   * Stopping: the robot no longer follows the controller and both wheels
   * are brought (within the hysteresis) to 0.
   */
  function Stop(r: Robot): (s: Step)
    ensures !s.robot.running && s.robot.lastUpdate == r.lastUpdate
    ensures Abs(s.robot.lastLeftRpm) <= Hysteresis && Abs(s.robot.lastRightRpm) <= Hysteresis
    ensures forall d <- s.dispatches :: d.rpm == 0.0
    ensures Dispatch(Left, 0.0) in s.dispatches <==> Abs(r.lastLeftRpm) > Hysteresis
    ensures Dispatch(Right, 0.0) in s.dispatches <==> Abs(r.lastRightRpm) > Hysteresis
    ensures SendsWithHysteresis(r, 0.0, 0.0, s.robot, s.dispatches)
  {
    var stopped := SetMotorSpeeds(r, 0.0, 0.0);
    Step(stopped.robot.(running := false), stopped.dispatches)
  }

  /** A tick with R1 held that is accepted by the rate limit. */
  predicate Accepted(r: Robot, c: Controls, now: int) {
    r.running && c.r1 && now - r.lastUpdate >= UpdateIntervalMs
  }

  /**
   * One controller report at time `now`. A stopped robot ignores it. With
   * R1 released, wheels still turning are commanded to 0 and nothing else
   * changes. With R1 held, a report less than 20 ms after the last accepted
   * one is dropped; otherwise it becomes the last accepted one and its
   * wheel speeds are sent.
   */
  function UpdateFromController(r: Robot, c: Controls, now: int): (s: Step)
    ensures s.robot.running == r.running
    ensures !r.running ==> s == Step(r, [])
    ensures r.running && !c.r1 ==>
              && s.robot.lastUpdate == r.lastUpdate
              && Abs(s.robot.lastLeftRpm) <= Hysteresis && Abs(s.robot.lastRightRpm) <= Hysteresis
              && (forall d <- s.dispatches :: d.rpm == 0.0)
              && (Dispatch(Left, 0.0) in s.dispatches <==> Abs(r.lastLeftRpm) > Hysteresis)
              && (Dispatch(Right, 0.0) in s.dispatches <==> Abs(r.lastRightRpm) > Hysteresis)
              && SendsWithHysteresis(r, 0.0, 0.0, s.robot, s.dispatches)
    ensures (r.running && !c.r1 && Abs(r.lastLeftRpm) <= StoppedThreshold && Abs(r.lastRightRpm) <= StoppedThreshold)
              ==> s == Step(r, [])
    ensures r.running && c.r1 && now - r.lastUpdate < UpdateIntervalMs ==> s == Step(r, [])
    ensures Accepted(r, c, now) ==>
              && s.robot.lastUpdate == now
              && Abs(s.robot.lastLeftRpm - TargetRpm(c).0) <= Hysteresis
              && Abs(s.robot.lastRightRpm - TargetRpm(c).1) <= Hysteresis
              && (forall d <- s.dispatches :: d == Dispatch(Left, TargetRpm(c).0) || d == Dispatch(Right, TargetRpm(c).1))
              && (Dispatch(Left, TargetRpm(c).0) in s.dispatches <==> Abs(TargetRpm(c).0 - r.lastLeftRpm) > Hysteresis)
              && (Dispatch(Right, TargetRpm(c).1) in s.dispatches <==> Abs(TargetRpm(c).1 - r.lastRightRpm) > Hysteresis)
              && SendsWithHysteresis(r, TargetRpm(c).0, TargetRpm(c).1, s.robot, s.dispatches)
  {
    if !r.running then Step(r, [])
    else if !c.r1 then
      if Abs(r.lastLeftRpm) > StoppedThreshold || Abs(r.lastRightRpm) > StoppedThreshold then
        SetMotorSpeeds(r, 0.0, 0.0)
      else Step(r, [])
    else if now - r.lastUpdate < UpdateIntervalMs then Step(r, [])
    else
      var (left, right) := TargetRpm(c);
      SetMotorSpeeds(r.(lastUpdate := now), left, right)
  }

  // ---------------------------------------------------------------------
  // Properties over steps

  /** Every recorded wheel speed is within the robot's limit. */
  predicate Bounded(r: Robot) {
    Abs(r.lastLeftRpm) <= MaxRpm && Abs(r.lastRightRpm) <= MaxRpm
  }

  predicate DispatchesBounded(ds: seq<Dispatch>) {
    forall d <- ds :: Abs(d.rpm) <= MaxRpm
  }

  /** A step keeps the recorded speeds within the limit and sends none beyond it. */
  lemma StepBounded(r: Robot, c: Controls, now: int)
    requires Bounded(r)
    ensures Bounded(UpdateFromController(r, c, now).robot)
    ensures DispatchesBounded(UpdateFromController(r, c, now).dispatches)
  {
  }

  /** The steps of a run of reports, each with its time. */
  function Run(r: Robot, ticks: seq<(Controls, int)>): (s: Step)
    decreases |ticks|
  {
    if ticks == [] then Step(r, [])
    else
      var first := UpdateFromController(r, ticks[0].0, ticks[0].1);
      var rest := Run(first.robot, ticks[1..]);
      Step(rest.robot, first.dispatches + rest.dispatches)
  }

  /** Over any run of reports no wheel is ever commanded beyond 1500 RPM. */
  lemma {:induction false} RunBounded(r: Robot, ticks: seq<(Controls, int)>)
    requires Bounded(r)
    ensures Bounded(Run(r, ticks).robot)
    ensures DispatchesBounded(Run(r, ticks).dispatches)
    decreases |ticks|
  {
    if ticks != [] {
      var first := UpdateFromController(r, ticks[0].0, ticks[0].1);
      StepBounded(r, ticks[0].0, ticks[0].1);
      RunBounded(first.robot, ticks[1..]);
    }
  }

  /** A report with R1 held less than 20 ms after an accepted one changes nothing. */
  lemma TooSoonChangesNothing(r: Robot, c: Controls, now: int, c': Controls, now': int)
    requires Accepted(r, c, now) && c'.r1 && now' - now < UpdateIntervalMs
    ensures var s := UpdateFromController(r, c, now).robot;
      UpdateFromController(s, c', now') == Step(s, [])
  {
  }

  /** Of two reports in a row with R1 released, the second sends nothing. */
  lemma SecondReleaseIsQuiet(r: Robot, c: Controls, now: int, c': Controls, now': int)
    requires !c.r1 && !c'.r1
    ensures UpdateFromController(UpdateFromController(r, c, now).robot, c', now').dispatches == []
  {
  }

  /** Holding the sticks still: the next accepted report sends nothing. */
  lemma SteadySticksAreQuiet(r: Robot, c: Controls, now: int, now': int)
    requires Accepted(r, c, now) && now' - now >= UpdateIntervalMs
    ensures UpdateFromController(UpdateFromController(r, c, now).robot, c, now').dispatches == []
  {
  }

  /** Every speed a bounded robot sends converts to counts the drive's 32-bit target velocity can hold. */
  lemma DispatchesAreSendable(r: Robot, c: Controls, now: int)
    requires Bounded(r)
    ensures forall d <- UpdateFromController(r, c, now).dispatches ::
      -0x8000_0000 <= Cia402.CountsFromRpm(d.rpm) < 0x8000_0000
  {
    StepBounded(r, c, now);
    forall d <- UpdateFromController(r, c, now).dispatches
      ensures -0x8000_0000 <= Cia402.CountsFromRpm(d.rpm) < 0x8000_0000
    {
      Cia402.CountsBound(d.rpm);
    }
  }
}
