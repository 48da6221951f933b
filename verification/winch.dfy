/**
 * The winch actuator: a signed pulse counter driven by encoder interrupts, a
 * commanded direction, homing against the end-stop, moves to a target depth,
 * setpoint dispatch and the reconnect fail-safe. Hardware reads (pulse count
 * and end-stop) are supplied as a sequence of samples, one per poll.
 */
module Winch {
  import opened Wrappers

  datatype Direction = Up | Down

  datatype Winch = Winch(pulses: int, direction: Direction)

  /** One poll of the hardware: the pulse counter and the end-stop sensor. */
  datatype Sample = Sample(pulses: int, endStop: bool)

  /**
   * What a motion leaves behind: the winch, the status values published (in
   * order), whether the motor is still running because the samples ran out
   * before the loop could exit, and how many samples were consumed.
   */
  datatype Motion = Motion(winch: Winch, published: seq<real>, motorOn: bool, used: nat)

  const DistancePerPulse: real := 0.2638
  const MovingUpStatus: real := -1.0
  const MovingDownStatus: real := -2.0
  const ReconnectAttempts: nat := 5

  /** `encoder_callback`: one rising edge, counted in the commanded direction. */
  function EncoderPulse(w: Winch): (v: Winch)
    ensures v.direction == w.direction
    ensures w.direction == Down ==> v.pulses == w.pulses + 1
    ensures w.direction == Up ==> v.pulses == w.pulses - 1
  {
    if w.direction == Down then w.(pulses := w.pulses + 1) else w.(pulses := w.pulses - 1)
  }

  /** `n` pulses in a row. */
  function Pulses(w: Winch, n: nat): Winch {
    if n == 0 then w else EncoderPulse(Pulses(w, n - 1))
  }

  /** `get_position_cm`. */
  function PositionCm(pulses: int): (cm: real)
    ensures cm >= 0.0 <==> pulses >= 0
    ensures cm == 0.0 <==> pulses == 0
  {
    pulses as real * DistancePerPulse
  }

  /**
   * A train of `n` pulses moves the estimated position by exactly `n` pulse
   * distances, down or up according to the commanded direction.
   */
  lemma {:induction false} PulseTrain(w: Winch, n: nat)
    ensures Pulses(w, n).direction == w.direction
    ensures PositionCm(Pulses(w, n).pulses) ==
      PositionCm(w.pulses) + (if w.direction == Down then 1.0 else -1.0) * n as real * DistancePerPulse
  {
    if n > 0 {
      PulseTrain(w, n - 1);
    }
  }

  /** Position is monotone in the pulse count. */
  lemma PositionMonotone(a: int, b: int)
    requires a <= b
    ensures PositionCm(a) <= PositionCm(b)
  {
  }

  /**
   * `home_motor`: set direction up and run until a poll sees the end-stop;
   * then stop, zero the counter and publish position 0. With no poll seeing
   * the end-stop the motor is still running up when the samples end.
   */
  method Home(w: Winch, polls: seq<Sample>) returns (m: Motion)
    ensures m.winch.direction == Up
    ensures m.motorOn <==> forall i :: 0 <= i < |polls| ==> !polls[i].endStop
    ensures !m.motorOn ==>
      && m.winch.pulses == 0
      && m.published == [PositionCm(m.winch.pulses) / 100.0]
      && 0 < m.used <= |polls| && polls[m.used - 1].endStop
      && forall i :: 0 <= i < m.used - 1 ==> !polls[i].endStop
    ensures m.motorOn ==> m.published == [] && m.used == |polls|
  {
    var k := 0;
    var pulses := w.pulses;
    while k < |polls| && !polls[k].endStop
      invariant 0 <= k <= |polls|
      invariant forall i :: 0 <= i < k ==> !polls[i].endStop
    {
      pulses := polls[k].pulses;
      k := k + 1;
    }
    if k == |polls| {
      return Motion(Winch(pulses, Up), [], true, k);
    }
    var homed := Winch(0, Up);
    m := Motion(homed, [PositionCm(homed.pulses) / 100.0], false, k + 1);
  }

  /** The loop condition of `move_to_position`: the target is not reached and lies ahead in the direction of motion. */
  function KeepsMoving(dir: Direction, positionCm: real, target: real): (r: bool)
    ensures r <==> positionCm != target && (dir == Down <==> target > positionCm)
  {
    (dir == Down && positionCm < target) || (dir == Up && positionCm > target)
  }

  /** Whether the loop leaves after reading sample `s`: the target is reached, or the end-stop hit while going up. */
  predicate ExitsAt(dir: Direction, s: Sample, target: real) {
    (dir == Up && s.endStop) || !KeepsMoving(dir, PositionCm(s.pulses), target)
  }

  /** The direction `move_to_position` picks: down only when the target lies deeper. */
  function DirectionFor(pulses: int, target: real): (dir: Direction)
    ensures KeepsMoving(dir, PositionCm(pulses), target) || target == PositionCm(pulses)
    ensures target == PositionCm(pulses) ==> dir == Up
  {
    if target > PositionCm(pulses) then Down else Up
  }

  /** The status code announcing a motion in direction `dir`. */
  function StatusFor(dir: Direction): (status: real)
    ensures status < 0.0
    ensures status == MovingDownStatus <==> dir == Down
    ensures dir == Up ==> status == MovingUpStatus
  {
    if dir == Down then MovingDownStatus else MovingUpStatus
  }

  /**
   * Each poll sees at most one new pulse since the previous reading. Nothing in
   * the program enforces this: it assumes the winch is slow enough, against the
   * 50 ms poll interval, that no two encoder edges fall between two polls.
   */
  ghost predicate OnePulsePerPoll(start: int, polls: seq<Sample>) {
    forall i :: 0 <= i < |polls| ==> -1 <= polls[i].pulses - PulsesBefore(start, polls, i) <= 1
  }

  /** The counter as read just before poll `i`: the previous sample, or `start` for the first. */
  function PulsesBefore(start: int, polls: seq<Sample>, i: nat): int
    requires i < |polls|
  {
    if i == 0 then start else polls[i - 1].pulses
  }

  /**
   * `move_to_position`. A negative target is refused with no effect. Otherwise
   * the direction is chosen and announced (-2 down, -1 up); going up with the
   * end-stop already active (`endStopNow`) stops there. Then each poll reads a
   * sample until the loop condition fails or, going up, the end-stop is seen;
   * the motor stops and the final position in meters is published. Pulses
   * counted between the last poll and the final read are not modelled.
   */
  method MoveTo(w: Winch, target: real, endStopNow: bool, polls: seq<Sample>) returns (m: Motion)
    ensures target < 0.0 ==> m == Motion(w, [], false, 0)
    ensures target >= 0.0 ==>
      var dir := DirectionFor(w.pulses, target);
      && m.winch.direction == dir
      && |m.published| > 0 && m.published[0] == StatusFor(dir)
      && m.used <= |polls|
      && m.winch.pulses == (if m.used == 0 then w.pulses else polls[m.used - 1].pulses)
      && (forall i :: 0 <= i < m.used - 1 ==> !ExitsAt(dir, polls[i], target))
    ensures target >= 0.0 && DirectionFor(w.pulses, target) == Up && endStopNow ==>
      m == Motion(w.(direction := Up), [MovingUpStatus], false, 0)
    ensures target >= 0.0 && m.motorOn ==>
      && m.published == [StatusFor(DirectionFor(w.pulses, target))]
      && m.used == |polls|
      && forall i :: 0 <= i < |polls| ==> !ExitsAt(DirectionFor(w.pulses, target), polls[i], target)
    ensures target >= 0.0 && !m.motorOn && |m.published| == 2 ==>
      && m.published[1] == PositionCm(m.winch.pulses) / 100.0
      && (|| !KeepsMoving(m.winch.direction, PositionCm(m.winch.pulses), target)
          || (m.winch.direction == Up && m.used > 0 && polls[m.used - 1].endStop))
    ensures target >= 0.0 && !m.motorOn && m.winch.direction == Down ==>
      && m.used > 0 && PositionCm(polls[m.used - 1].pulses) >= target
      && (OnePulsePerPoll(w.pulses, polls[..m.used]) ==> PositionCm(m.winch.pulses) < target + DistancePerPulse)
    ensures target >= 0.0 && !m.motorOn && |m.published| == 1 ==> m.winch.direction == Up && endStopNow
    ensures target >= 0.0 && !m.motorOn && !(DirectionFor(w.pulses, target) == Up && endStopNow) ==>
      m.published == [StatusFor(DirectionFor(w.pulses, target)), PositionCm(m.winch.pulses) / 100.0]
    ensures
      (&& target >= 0.0 && !m.motorOn && m.winch.direction == Up && !endStopNow
       && (forall i :: 0 <= i < m.used ==> !polls[i].endStop)
       && OnePulsePerPoll(w.pulses, polls[..m.used]))
      ==> PositionCm(m.winch.pulses) > target - DistancePerPulse
  {
    if target < 0.0 {
      return Motion(w, [], false, 0);
    }
    var current := PositionCm(w.pulses);
    var dir := DirectionFor(w.pulses, target);
    var published := [StatusFor(dir)];
    if dir == Up && endStopNow {
      return Motion(w.(direction := Up), published, false, 0);
    }
    var pulses := w.pulses;
    var k := 0;
    var hitEndStop := false;
    while k < |polls| && !hitEndStop && KeepsMoving(dir, current, target)
      invariant 0 <= k <= |polls|
      invariant pulses == (if k == 0 then w.pulses else polls[k - 1].pulses)
      invariant current == PositionCm(pulses)
      invariant hitEndStop ==> k > 0 && dir == Up && polls[k - 1].endStop
      invariant forall i :: 0 <= i < k - 1 ==> !ExitsAt(dir, polls[i], target)
      invariant k > 0 && !hitEndStop ==> !(dir == Up && polls[k - 1].endStop)
      invariant dir == Down && k > 0 ==> PositionCm(if k == 1 then w.pulses else polls[k - 2].pulses) < target
      invariant dir == Up && k > 0 ==> PositionCm(if k == 1 then w.pulses else polls[k - 2].pulses) > target
    {
      pulses := polls[k].pulses;
      current := PositionCm(pulses);
      if dir == Up && polls[k].endStop {
        hitEndStop := true;
      }
      k := k + 1;
    }
    if !hitEndStop && KeepsMoving(dir, current, target) {
      return Motion(Winch(pulses, dir), published, true, k);
    }
    m := Motion(Winch(pulses, dir), published + [current / 100.0], false, k);
    if dir == Down {
      DownOvershoot(w.pulses, polls[..k], target);
    } else if k > 0 {
      UpOvershoot(w.pulses, polls[..k], target);
    }
  }

  /**
   * Going down one pulse at a time, the first reading at or past the target
   * overshoots it by less than one pulse distance.
   */
  lemma DownOvershoot(start: int, polls: seq<Sample>, target: real)
    requires |polls| > 0
    requires PositionCm(if |polls| == 1 then start else polls[|polls| - 2].pulses) < target
    ensures OnePulsePerPoll(start, polls) ==> PositionCm(polls[|polls| - 1].pulses) < target + DistancePerPulse
  {
    if OnePulsePerPoll(start, polls) {
      var i := |polls| - 1;
      var prev := if i == 0 then start else polls[i - 1].pulses;
      assert -1 <= polls[i].pulses - PulsesBefore(start, polls, i) <= 1;
      PositionMonotone(polls[i].pulses, prev + 1);
    }
  }

  /**
   * Going up one pulse at a time, the first reading at or above the target
   * overshoots it by less than one pulse distance.
   */
  lemma UpOvershoot(start: int, polls: seq<Sample>, target: real)
    requires |polls| > 0
    requires PositionCm(if |polls| == 1 then start else polls[|polls| - 2].pulses) > target
    ensures OnePulsePerPoll(start, polls) ==> PositionCm(polls[|polls| - 1].pulses) > target - DistancePerPulse
  {
    if OnePulsePerPoll(start, polls) {
      var i := |polls| - 1;
      var prev := if i == 0 then start else polls[i - 1].pulses;
      assert -1 <= polls[i].pulses - PulsesBefore(start, polls, i) <= 1;
      PositionMonotone(prev - 1, polls[i].pulses);
    }
  }

  /**
   * `on_mqtt_message`: a setpoint of 0 homes the winch, any other number
   * moves to it, and a payload that is not a number is dropped.
   */
  method OnSetpoint(w: Winch, payload: Option<real>, endStopNow: bool, polls: seq<Sample>) returns (m: Motion)
    ensures payload.None? ==> m == Motion(w, [], false, 0)
    ensures payload == Some(0.0) ==>
      m.winch.direction == Up && (m.motorOn || (m.winch.pulses == 0 && m.published == [0.0]))
    ensures payload.Some? && payload.value < 0.0 ==> m == Motion(w, [], false, 0)
    ensures payload.Some? && payload.value > 0.0 ==>
      var dir := DirectionFor(w.pulses, payload.value);
      m.winch.direction == dir && |m.published| > 0 && m.published[0] == StatusFor(dir)
  {
    match payload
    case None =>
      m := Motion(w, [], false, 0);
    case Some(target) =>
      if target == 0.0 {
        m := Home(w, polls);
      } else {
        m := MoveTo(w, target, endStopNow, polls);
      }
  }

  /**
   * `on_mqtt_disconnect`: up to five reconnect attempts, whose outcomes are
   * given in order. The first success returns at once; only when all five
   * fail is the winch homed as a fail-safe.
   */
  method OnDisconnect(w: Winch, reconnects: seq<bool>, polls: seq<Sample>) returns (attempts: nat, homed: bool, m: Motion)
    requires |reconnects| == ReconnectAttempts
    ensures 1 <= attempts <= ReconnectAttempts
    ensures forall i :: 0 <= i < attempts - 1 ==> !reconnects[i]
    ensures homed <==> forall i :: 0 <= i < ReconnectAttempts ==> !reconnects[i]
    ensures !homed ==> reconnects[attempts - 1] && m == Motion(w, [], false, 0)
    ensures homed ==>
      && attempts == ReconnectAttempts && m.winch.direction == Up
      && (m.motorOn || (m.winch.pulses == 0 && m.published == [0.0]))
  {
    attempts := 0;
    while attempts < ReconnectAttempts
      invariant 0 <= attempts <= ReconnectAttempts
      invariant forall i :: 0 <= i < attempts ==> !reconnects[i]
    {
      attempts := attempts + 1;
      if reconnects[attempts - 1] {
        return attempts, false, Motion(w, [], false, 0);
      }
    }
    homed := true;
    m := Home(w, polls);
  }
}
