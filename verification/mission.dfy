/**
 * The coordinator's two threads interleaved: the MQTT listener (sonar
 * reports, start/stop commands) and the stepper. Any interleaving is a
 * sequence of events; these lemmas state what holds along every one.
 */
module Mission {
  import opened Wrappers
  import opened Coordinator

  datatype Event = SonarReport(report: Option<real>) | InitSampling(payload: string) | StepperStep

  /** The state after a run, every setpoint published and every datagram sent, in order. */
  datatype Outcome = Outcome(state: State, setpoints: seq<int>, sent: seq<Datagram>)

  /**
   * One event; once the stepper has halted the program is gone and nothing
   * happens. Only the stepper publishes setpoints, only the start/stop
   * listener sends datagrams, and an event does at most one of either.
   */
  function Apply(s: State, e: Event): (r: Outcome)
    ensures |r.setpoints| + |r.sent| <= 1
    ensures !e.StepperStep? ==> r.setpoints == []
    ensures !e.InitSampling? ==> r.sent == []
  {
    if s.stepper == Halted then Outcome(s, [], [])
    else
      match e
      case SonarReport(report) => Outcome(OnSonarDepth(s, report), [], [])
      case InitSampling(payload) =>
        var r := OnInitSampling(s, payload);
        Outcome(r.next, [], r.sent)
      case StepperStep =>
        var r := Step(s);
        Outcome(r.next, r.published, [])
  }

  /** A sequence of events applied in order, collecting what each one publishes and sends. */
  function Run(s: State, events: seq<Event>): (r: Outcome)
    ensures |r.setpoints| + |r.sent| <= |events|
    decreases |events|
  {
    if |events| == 0 then Outcome(s, [], [])
    else
      var first := Apply(s, events[0]);
      var rest := Run(first.state, events[1..]);
      Outcome(rest.state, first.setpoints + rest.setpoints, first.sent + rest.sent)
  }

  /** After a negative dwell has ended the program, no event changes anything or sends anything. */
  lemma {:induction false} HaltedIsFinal(s: State, events: seq<Event>)
    requires s.stepper == Halted
    ensures Run(s, events) == Outcome(s, [], [])
    decreases |events|
  {
    if |events| > 0 {
      HaltedIsFinal(s, events[1..]);
    }
  }

  /** The stepper never indexes past the schedule, and while dwelling it is on a real entry. */
  ghost predicate IndexInRange(s: State) {
    s.index <= |s.schedule| && (s.stepper == Dwelling ==> s.index < |s.schedule|)
  }

  lemma ApplyKeepsIndexInRange(s: State, e: Event)
    requires IndexInRange(s)
    ensures IndexInRange(Apply(s, e).state)
  {
  }

  /** Under every interleaving the index stays within the schedule. */
  lemma {:induction false} RunKeepsIndexInRange(s: State, events: seq<Event>)
    requires IndexInRange(s)
    ensures IndexInRange(Run(s, events).state)
    decreases |events|
  {
    if |events| > 0 {
      ApplyKeepsIndexInRange(s, events[0]);
      RunKeepsIndexInRange(Apply(s, events[0]).state, events[1..]);
    }
  }

  /** Once a schedule is loaded or synthesized, nothing replaces it. */
  lemma {:induction false} ScheduleFixedOnceLoaded(s: State, events: seq<Event>)
    requires |s.schedule| > 0
    ensures Run(s, events).state.schedule == s.schedule
    decreases |events|
  {
    if |events| > 0 {
      ScheduleFixedOnceLoaded(Apply(s, events[0]).state, events[1..]);
    }
  }

  /** Every stop in `sent` directly follows an "on", where `last` is what was sent before `sent`. */
  predicate StopsFollowOn(last: Option<Datagram>, sent: seq<Datagram>)
    decreases |sent|
  {
    |sent| == 0 || ((sent[0] == Stop ==> last == Some(On)) && StopsFollowOn(Some(sent[0]), sent[1..]))
  }

  /** The last datagram after sending `sent`, given what was sent before. */
  function LastSent(last: Option<Datagram>, sent: seq<Datagram>): Option<Datagram> {
    if |sent| == 0 then last else Some(sent[|sent| - 1])
  }

  /** The mission is idle exactly when nothing was sent yet or the last datagram was a stop. */
  predicate IdleMatchesLastSent(s: State, last: Option<Datagram>) {
    s.mode == Idle <==> (last == None || last == Some(Stop))
  }

  lemma ApplyKeepsDatagramOrder(s: State, last: Option<Datagram>, e: Event)
    requires IdleMatchesLastSent(s, last)
    ensures IdleMatchesLastSent(Apply(s, e).state, LastSent(last, Apply(s, e).sent))
    ensures StopsFollowOn(last, Apply(s, e).sent)
    ensures |Apply(s, e).sent| <= 1
  {
    match e
    case SonarReport(report) =>
    case StepperStep =>
      assert Step(s).next.mode == Idle <==> s.mode == Idle;
    case InitSampling(payload) =>
      CommandKeepsDatagramOrder(s, last, payload);
  }

  /** A start or stop command sends at most one datagram, and a stop only right after an "on". */
  lemma CommandKeepsDatagramOrder(s: State, last: Option<Datagram>, payload: string)
    requires IdleMatchesLastSent(s, last)
    ensures var r := OnInitSampling(s, payload);
      && IdleMatchesLastSent(r.next, LastSent(last, r.sent))
      && StopsFollowOn(last, r.sent)
      && |r.sent| <= 1
  {
    var r := OnInitSampling(s, payload);
    if r.sent == [On] {
      assert LastSent(last, r.sent) == Some(On);
    } else if r.sent == [Stop] {
      assert s.mode != Idle;
      assert last.Some? && last.value != Stop;
      assert last == Some(On);
      assert StopsFollowOn(Some(Stop), r.sent[1..]);
    }
  }

  /**
   * Under every interleaving the probe never receives a stop that does not
   * directly follow an "on", given that the mode agrees with the last
   * datagram sent before the run.
   */
  lemma {:induction false} DatagramOrder(s: State, last: Option<Datagram>, events: seq<Event>)
    requires IdleMatchesLastSent(s, last)
    ensures IdleMatchesLastSent(Run(s, events).state, LastSent(last, Run(s, events).sent))
    ensures StopsFollowOn(last, Run(s, events).sent)
    decreases |events|
  {
    if |events| > 0 {
      var first := Apply(s, events[0]);
      ApplyKeepsDatagramOrder(s, last, events[0]);
      var last' := LastSent(last, first.sent);
      DatagramOrder(first.state, last', events[1..]);
      var rest := Run(first.state, events[1..]);
      if |first.sent| == 1 {
        assert (first.sent + rest.sent)[1..] == rest.sent;
      } else {
        assert first.sent + rest.sent == rest.sent;
      }
    }
  }

  /** Read position by position: a stop is never first and always directly follows an "on". */
  lemma {:induction false} StopsFollowOnAt(last: Option<Datagram>, sent: seq<Datagram>, i: nat)
    requires StopsFollowOn(last, sent) && i < |sent| && sent[i] == Stop
    ensures i == 0 ==> last == Some(On)
    ensures i > 0 ==> sent[i - 1] == On
    decreases i
  {
    if i > 0 {
      assert sent[1..][i - 1] == sent[i];
      StopsFollowOnAt(Some(sent[0]), sent[1..], i - 1);
      if i > 1 {
        assert sent[1..][i - 2] == sent[i - 1];
      }
    }
  }

  /**
   * From the start-up state, under every interleaving of the listener and the
   * stepper: no stop is sent before the first "on", and never two stops in a row.
   */
  lemma InitialDatagramOrder(schedule: seq<Entry>, events: seq<Event>)
    ensures forall i :: 0 <= i < |Run(Initial(schedule), events).sent| && Run(Initial(schedule), events).sent[i] == Stop ==>
      i > 0 && Run(Initial(schedule), events).sent[i - 1] == On
  {
    var sent := Run(Initial(schedule), events).sent;
    DatagramOrder(Initial(schedule), None, events);
    forall i | 0 <= i < |sent| && sent[i] == Stop
      ensures i > 0 && sent[i - 1] == On
    {
      StopsFollowOnAt(None, sent, i);
    }
  }

  /** Every report in the run, if numeric, is at most `deepest`. */
  ghost predicate ReportsAtMost(events: seq<Event>, deepest: real) {
    forall i :: 0 <= i < |events| && events[i].SonarReport? && events[i].report.Some? ==>
      events[i].report.value <= deepest
  }

  /**
   * Once a limit is in force, the winch is never sent deeper than the
   * deepest limit in force during the run, in whole centimeters (or 0 when
   * that limit is negative).
   */
  lemma {:induction false} SetpointsWithinLimit(s: State, events: seq<Event>, deepest: real)
    requires s.limit.Bounded? && s.limit.meters <= deepest - SafetyBuffer
    requires ReportsAtMost(events, deepest)
    ensures forall p :: p in Run(s, events).setpoints ==> p as real <= Max((deepest - SafetyBuffer) * 100.0, 0.0)
    decreases |events|
  {
    if |events| > 0 {
      var first := Apply(s, events[0]);
      assert ReportsAtMost(events[1..], deepest) by {
        forall i | 0 <= i < |events[1..]| && events[1..][i].SonarReport? && events[1..][i].report.Some?
          ensures events[1..][i].report.value <= deepest
        {
          assert events[1..][i] == events[i + 1];
        }
      }
      assert first.state.limit.Bounded? && first.state.limit.meters <= deepest - SafetyBuffer;
      SetpointsWithinLimit(first.state, events[1..], deepest);
    }
  }

  /** Steps only, no messages: `n` stepper steps. */
  function Steps(n: nat): seq<Event> {
    seq(n, i => StepperStep)
  }

  /** Once waiting, the stepper publishes 0 at every step until a command arrives. */
  lemma {:induction false} WaitingPublishesZero(s: State, n: nat)
    requires s.mode == Waiting && s.stepper == Ready
    ensures Run(s, Steps(n)).state == s
    ensures Run(s, Steps(n)).setpoints == seq(n, i => 0)
  {
    if n > 0 {
      assert Steps(n)[1..] == Steps(n - 1);
      WaitingPublishesZero(s, n - 1);
    }
  }
}
