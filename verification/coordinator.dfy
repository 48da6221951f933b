/**
 * The sampling mission coordinator: a listener that reacts to sonar depth
 * reports and start/stop commands, and a stepper that walks a depth/dwell
 * schedule publishing winch setpoints. Each callback and each stepper step is
 * one atomic transition over an immutable `State`; sleeps are not modelled.
 */
module Coordinator {
  import opened Wrappers
  import Text

  datatype Mode = Idle | Sampling | Waiting

  /** The sonar safety limit in meters; unbounded (Python's `float('inf')`) until the first report. */
  datatype Limit = Unbounded | Bounded(meters: real)

  /** One schedule entry: a depth in meters and a dwell time in minutes. */
  datatype Entry = Entry(depth: real, minutes: real)

  /** The two UDP control datagrams sent to the probe. */
  datatype Datagram = On | Stop

  /**
   * Where the stepper thread is in its loop body: about to run an iteration,
   * or asleep in the dwell after publishing a setpoint, with the index
   * increment still to come, or stopped for good: `time.sleep` raises
   * `ValueError` on a negative dwell, nothing catches it, and the program ends.
   */
  datatype Stepper = Ready | Dwelling | Halted

  datatype State = State(mode: Mode, index: nat, schedule: seq<Entry>, limit: Limit, stepper: Stepper)

  /** A listener reaction: the next state and the datagrams sent. */
  datatype Reaction = Reaction(next: State, sent: seq<Datagram>)

  /** A stepper step: the next state and the setpoints (in cm) published. */
  datatype StepResult = StepResult(next: State, published: seq<int>)

  const SafetyBuffer: real := 2.0
  const DefaultStep: int := 5
  const DefaultDwell: real := 10.0

  /** The module globals before anything happens: idle, index 0, no limit. */
  function Initial(schedule: seq<Entry>): State {
    State(Idle, 0, schedule, Unbounded, Ready)
  }

  // ---------------------------------------------------------------------------
  // Default schedule synthesis
  // ---------------------------------------------------------------------------

  /**
   * The default schedule for limit `l`: depths 0, 5, 10, ... with a dwell of
   * 10 minutes each, containing exactly the depths `d` with `d + 5 <= l`.
   */
  ghost predicate IsDefaultSchedule(s: seq<Entry>, l: real) {
    && (forall i :: 0 <= i < |s| ==> s[i] == Entry((DefaultStep * i) as real, DefaultDwell))
    && (forall i :: 0 <= i < |s| ==> s[i].depth + DefaultStep as real <= l)
    && (DefaultStep * |s| + DefaultStep) as real > l
  }

  /** A default schedule for `l` has exactly `DefaultCount(l)` entries. */
  lemma DefaultScheduleLength(s: seq<Entry>, l: real)
    requires IsDefaultSchedule(s, l)
    ensures |s| == DefaultCount(l)
  {
    var n := DefaultCount(l);
    assert |s| > n ==> s[n].depth + DefaultStep as real <= l;
  }

  /** At most one schedule meets the description, so any two syntheses agree. */
  lemma DefaultScheduleUnique(a: seq<Entry>, b: seq<Entry>, l: real)
    requires IsDefaultSchedule(a, l) && IsDefaultSchedule(b, l)
    ensures a == b
  {
    DefaultScheduleLength(a, l);
    DefaultScheduleLength(b, l);
  }

  /** Number of default entries for limit `l`. */
  function DefaultCount(l: real): (n: nat)
    ensures (DefaultStep * n) as real <= l || n == 0
    ensures (DefaultStep * n + DefaultStep) as real > l
  {
    if l < DefaultStep as real then 0 else (l / DefaultStep as real).Floor
  }

  /** Closed form of the default schedule. */
  function DefaultSchedule(l: real): (s: seq<Entry>)
    ensures IsDefaultSchedule(s, l)
  {
    var n := DefaultCount(l);
    var s := seq(n, i => Entry((DefaultStep * i) as real, DefaultDwell));
    assert forall i :: 0 <= i < n ==> DefaultStep * i + DefaultStep <= DefaultStep * n;
    s
  }

  /**
   * `generate_default_depths`: with an unbounded limit the schedule is left
   * alone; otherwise it is replaced by the synthesized one, built by the same
   * loop as the source (depth starts at 0 and grows by 5 while `depth + 5 <= limit`).
   */
  method GenerateDefaultDepths(schedule: seq<Entry>, limit: Limit) returns (r: seq<Entry>)
    ensures limit.Unbounded? ==> r == schedule
    ensures limit.Bounded? ==> IsDefaultSchedule(r, limit.meters)
  {
    if limit.Unbounded? {
      return schedule;
    }
    var l := limit.meters;
    r := [];
    var depth := 0;
    while (depth + DefaultStep) as real <= l
      invariant depth == DefaultStep * |r|
      invariant forall i :: 0 <= i < |r| ==> r[i] == Entry((DefaultStep * i) as real, DefaultDwell)
      invariant forall i :: 0 <= i < |r| ==> r[i].depth + DefaultStep as real <= l
      decreases l.Floor - depth
    {
      r := r + [Entry(depth as real, DefaultDwell)];
      depth := depth + DefaultStep;
    }
  }

  /** The functional counterpart of `GenerateDefaultDepths`, used by the listener. */
  function Synthesize(schedule: seq<Entry>, limit: Limit): (r: seq<Entry>)
    ensures limit.Unbounded? ==> r == schedule
    ensures limit.Bounded? ==> IsDefaultSchedule(r, limit.meters)
  {
    match limit
    case Unbounded => schedule
    case Bounded(l) => DefaultSchedule(l)
  }

  /** The loop and the closed form produce the same schedule. */
  method GenerateMatchesSynthesize(schedule: seq<Entry>, limit: Limit) returns (r: seq<Entry>)
    ensures r == Synthesize(schedule, limit)
  {
    r := GenerateDefaultDepths(schedule, limit);
    if limit.Bounded? {
      DefaultScheduleUnique(r, Synthesize(schedule, limit), limit.meters);
    }
  }

  // ---------------------------------------------------------------------------
  // Listener
  // ---------------------------------------------------------------------------

  /**
   * A message on the sonar depth topic whose payload parsed (or failed to
   * parse) as `report`. A number sets the limit to `report - 2` and, if the
   * schedule is still empty, synthesizes the default one.
   */
  function OnSonarDepth(s: State, report: Option<real>): (t: State)
    ensures report.None? ==> t == s
    ensures report.Some? ==> t.limit == Bounded(report.value - SafetyBuffer)
    ensures t.mode == s.mode && t.index == s.index && t.stepper == s.stepper
    ensures |s.schedule| > 0 ==> t.schedule == s.schedule
    ensures report.Some? && |s.schedule| == 0 ==> IsDefaultSchedule(t.schedule, report.value - SafetyBuffer)
  {
    match report
    case None => s
    case Some(depth) =>
      var limit := Bounded(depth - SafetyBuffer);
      s.(limit := limit, schedule := if |s.schedule| == 0 then Synthesize(s.schedule, limit) else s.schedule)
  }

  /**
   * A message on the init-sampling topic. The payload goes through Python's
   * `int()`, so only integer text counts: 1 starts a mission unless one is
   * running, 0 stops it unless already idle; everything else is ignored.
   */
  function OnInitSampling(s: State, payload: string): (r: Reaction)
    ensures r.sent == [On] <==> Text.ParseInt(payload) == Some(1) && s.mode != Sampling
    ensures r.sent == [Stop] <==> Text.ParseInt(payload) == Some(0) && s.mode != Idle
    ensures r.sent == [] || r.sent == [On] || r.sent == [Stop]
    ensures r.sent == [] ==> r.next == s
    ensures r.sent == [On] ==> r.next == s.(mode := Sampling, index := 0)
    ensures r.sent == [Stop] ==> r.next == s.(mode := Idle)
  {
    match Text.ParseInt(payload)
    case None => Reaction(s, [])
    case Some(v) =>
      if v == 1 && s.mode != Sampling then Reaction(s.(mode := Sampling, index := 0), [On])
      else if v == 0 && s.mode != Idle then Reaction(s.(mode := Idle), [Stop])
      else Reaction(s, [])
  }

  /** Text that `int()` rejects, such as "1.0", never starts or stops a mission. */
  lemma DecimalTextIgnored(s: State, payload: string)
    requires '.' in payload
    ensures OnInitSampling(s, payload) == Reaction(s, [])
  {
  }

  // ---------------------------------------------------------------------------
  // Stepper
  // ---------------------------------------------------------------------------

  /** Python's `int(x)` on a float: truncation toward zero. */
  function Truncate(x: real): (r: int)
    ensures x >= 0.0 ==> 0 <= r && r as real <= x < r as real + 1.0
    ensures x < 0.0 ==> r <= 0 && r as real - 1.0 < x <= r as real
  {
    if x >= 0.0 then x.Floor else -((-x).Floor)
  }

  function Max(a: real, b: real): real {
    if a >= b then a else b
  }

  /** `min(depth, sonar_depth_limit)`, where an unbounded limit never wins. */
  function SafeDepth(depth: real, limit: Limit): (r: real)
    ensures r <= depth
    ensures limit.Bounded? ==> r <= limit.meters && (r == depth || r == limit.meters)
    ensures limit.Unbounded? ==> r == depth
  {
    match limit
    case Unbounded => depth
    case Bounded(l) => if l < depth then l else depth
  }

  /**
   * The setpoint published for a schedule depth, in whole centimeters. It
   * never exceeds the limit, except that truncation toward zero lifts a
   * negative value up to the next whole centimeter.
   */
  function SetpointCm(depth: real, limit: Limit): (cm: int)
    ensures limit.Bounded? ==> cm as real <= Max(limit.meters * 100.0, 0.0)
    ensures cm as real <= Max(depth * 100.0, 0.0)
    ensures depth >= 0.0 && (limit.Unbounded? || limit.meters >= 0.0) ==> cm >= 0
    ensures var x := SafeDepth(depth, limit) * 100.0;
      && (x >= 0.0 ==> cm as real <= x < cm as real + 1.0)
      && (x < 0.0 ==> cm as real - 1.0 < x <= cm as real)
  {
    Truncate(SafeDepth(depth, limit) * 100.0)
  }

  /**
   * One atomic step of the stepper thread. From `Ready` it runs the loop body
   * up to its sleep, which halts the program if the entry's dwell is negative;
   * from `Dwelling` it wakes and advances the index, whatever the listener did
   * meanwhile. A halted program does nothing more.
   */
  function Step(s: State): (r: StepResult)
    ensures r.next.limit == s.limit && r.next.schedule == s.schedule
    ensures s.stepper == Dwelling ==> r == StepResult(s.(index := s.index + 1, stepper := Ready), [])
    ensures s.stepper == Halted ==> r == StepResult(s, [])
    ensures s.stepper == Ready && s.mode == Sampling && s.index < |s.schedule| ==>
      && r.next == s.(stepper := if s.schedule[s.index].minutes < 0.0 then Halted else Dwelling)
      && r.published == [SetpointCm(s.schedule[s.index].depth, s.limit)]
    ensures s.stepper == Ready && s.mode == Sampling && s.index >= |s.schedule| ==>
      r == StepResult(s.(mode := Waiting), [0])
    ensures s.stepper == Ready && s.mode != Sampling ==> r == StepResult(s, [0])
    ensures forall p :: p in r.published && s.limit.Bounded? ==> p as real <= Max(s.limit.meters * 100.0, 0.0)
  {
    match s.stepper
    case Halted => StepResult(s, [])
    case Dwelling => StepResult(s.(index := s.index + 1, stepper := Ready), [])
    case Ready =>
      match s.mode
      case Sampling =>
        if s.index < |s.schedule| then
          var dwell := if s.schedule[s.index].minutes < 0.0 then Halted else Dwelling;
          StepResult(s.(stepper := dwell), [SetpointCm(s.schedule[s.index].depth, s.limit)])
        else
          StepResult(s.(mode := Waiting), [0])
      case Waiting => StepResult(s, [0])
      case Idle => StepResult(s, [0])
  }

  /**
   * A full sampling iteration without interference from the listener: the
   * entry's setpoint is published once and the index moves on by exactly one,
   * unless the entry's dwell is negative, which ends the program after the
   * setpoint went out.
   */
  lemma SamplingIteration(s: State)
    requires s.stepper == Ready && s.mode == Sampling && s.index < |s.schedule|
    ensures Step(s).published == [SetpointCm(s.schedule[s.index].depth, s.limit)]
    ensures s.schedule[s.index].minutes >= 0.0 ==> Step(Step(s).next) == StepResult(s.(index := s.index + 1), [])
    ensures s.schedule[s.index].minutes < 0.0 ==>
      Step(s).next == s.(stepper := Halted) && Step(Step(s).next) == StepResult(s.(stepper := Halted), [])
  {
  }

  /**
   * A stop and a restart during a dwell do not restart the schedule from its
   * first entry: the pending increment runs after the listener reset the
   * index, so the next setpoint is the second entry's.
   */
  lemma RestartDuringDwellSkipsFirstEntry(s: State)
    requires s.stepper == Ready && s.mode == Sampling && s.index == 0 && |s.schedule| >= 2
    requires s.schedule[0].minutes >= 0.0
    ensures
      var published := Step(s).next;
      var stopped := OnInitSampling(published, "0").next;
      var restarted := OnInitSampling(stopped, "1").next;
      var woken := Step(restarted).next;
      && restarted.index == 0
      && woken.index == 1
      && Step(woken).published == [SetpointCm(s.schedule[1].depth, s.limit)]
  {
    assert Text.ParseInt("0") == Some(0) by { Text.ParseShowInt(0); }
    assert Text.ParseInt("1") == Some(1) by { Text.ParseShowInt(1); }
  }

  // ---------------------------------------------------------------------------
  // Startup: reading the schedule file
  // ---------------------------------------------------------------------------

  /** The schedule file as the program finds it: absent, or a list of lines. */
  datatype ScheduleFile = Missing | Lines(lines: seq<string>)

  /** `line.strip().split()`, which splits exactly as `line.split()` does. */
  function LineFields(line: string): (r: seq<string>)
    ensures r == Text.Fields(line)
    ensures forall i :: 0 <= i < |r| ==> Text.IsWord(r[i])
  {
    Text.FieldsOfStrip(line);
    Text.Fields(Text.Strip(line))
  }

  /** The fields of every line of the file, in file order. */
  function SplitLines(lines: seq<string>): (rows: seq<seq<string>>)
    ensures |rows| == |lines|
    ensures forall i :: 0 <= i < |lines| ==> rows[i] == Text.Fields(lines[i])
  {
    seq(|lines|, i requires 0 <= i < |lines| => LineFields(lines[i]))
  }

  /** The rows that have exactly two fields, in file order. */
  function TwoFieldRows(rows: seq<seq<string>>): (r: seq<seq<string>>)
    ensures forall j :: 0 <= j < |r| ==> |r[j]| == 2
    ensures |r| <= |rows|
    ensures forall x :: x in r <==> x in rows && |x| == 2
  {
    if |rows| == 0 then []
    else (if |rows[0]| == 2 then [rows[0]] else []) + TwoFieldRows(rows[1..])
  }

  /** True when both fields of every kept row parse as numbers. */
  ghost predicate AllParse(pairs: seq<seq<string>>, parse: string -> Option<real>)
    requires forall j :: 0 <= j < |pairs| ==> |pairs[j]| == 2
  {
    forall j :: 0 <= j < |pairs| ==> parse(pairs[j][0]).Some? && parse(pairs[j][1]).Some?
  }

  /**
   * The loop of `read_depths_and_times` over the split lines of an open file.
   * `parse` is Python's `float()`; its ValueError is not caught by the
   * source, so a kept row that does not parse makes the whole read fail.
   */
  function ReadRows(rows: seq<seq<string>>, parse: string -> Option<real>): (r: Result<seq<Entry>>)
    ensures r.Err? ==> r.reason == "ValueError"
    ensures r.Ok? ==> |r.value| <= |rows|
  {
    if |rows| == 0 then Ok([])
    else if |rows[0]| != 2 then ReadRows(rows[1..], parse)
    else
      match (parse(rows[0][0]), parse(rows[0][1]))
      case (Some(d), Some(m)) =>
        (match ReadRows(rows[1..], parse)
         case Ok(rest) => Ok([Entry(d, m)] + rest)
         case Err(e) => Err(e))
      case _ => Err("ValueError")
  }

  /** `AllParse` of a list with one more pair in front. */
  lemma AllParseCons(f: seq<string>, rest: seq<seq<string>>, parse: string -> Option<real>)
    requires |f| == 2 && forall j :: 0 <= j < |rest| ==> |rest[j]| == 2
    ensures AllParse([f] + rest, parse) <==> parse(f[0]).Some? && parse(f[1]).Some? && AllParse(rest, parse)
  {
    var pairs := [f] + rest;
    assert pairs[0] == f;
    if AllParse(pairs, parse) {
      forall j | 0 <= j < |rest|
        ensures parse(rest[j][0]).Some? && parse(rest[j][1]).Some?
      {
        assert rest[j] == pairs[j + 1];
      }
    }
  }

  /** Reading fails exactly when a field of a kept row is not a number. */
  lemma {:induction false} ReadRowsFailsOnBadField(rows: seq<seq<string>>, parse: string -> Option<real>)
    ensures ReadRows(rows, parse).Ok? <==> AllParse(TwoFieldRows(rows), parse)
  {
    if |rows| > 0 {
      ReadRowsFailsOnBadField(rows[1..], parse);
      var rest := TwoFieldRows(rows[1..]);
      if |rows[0]| == 2 {
        assert TwoFieldRows(rows) == [rows[0]] + rest;
        AllParseCons(rows[0], rest, parse);
      } else {
        assert TwoFieldRows(rows) == rest;
      }
    }
  }

  /** Reading keeps exactly the two-field rows, in file order. */
  lemma {:induction false} ReadRowsKeepsTwoFieldRows(rows: seq<seq<string>>, parse: string -> Option<real>)
    requires ReadRows(rows, parse).Ok?
    ensures |ReadRows(rows, parse).value| == |TwoFieldRows(rows)|
    ensures forall j :: 0 <= j < |TwoFieldRows(rows)| ==>
      && parse(TwoFieldRows(rows)[j][0]) == Some(ReadRows(rows, parse).value[j].depth)
      && parse(TwoFieldRows(rows)[j][1]) == Some(ReadRows(rows, parse).value[j].minutes)
  {
    if |rows| > 0 {
      var rest := TwoFieldRows(rows[1..]);
      ReadRowsKeepsTwoFieldRows(rows[1..], parse);
      if |rows[0]| == 2 {
        var pairs := TwoFieldRows(rows);
        assert pairs == [rows[0]] + rest;
        var r := ReadRows(rows, parse).value;
        var r' := ReadRows(rows[1..], parse).value;
        assert r == [Entry(parse(rows[0][0]).value, parse(rows[0][1]).value)] + r';
        forall j | 0 <= j < |pairs|
          ensures parse(pairs[j][0]) == Some(r[j].depth) && parse(pairs[j][1]) == Some(r[j].minutes)
        {
          if j > 0 {
            assert r[j] == r'[j - 1] && pairs[j] == rest[j - 1];
          }
        }
      } else {
        assert TwoFieldRows(rows) == rest;
      }
    }
  }

  /** `read_depths_and_times`: a missing file reads as an empty schedule. */
  function ReadDepthsAndTimes(file: ScheduleFile, parse: string -> Option<real>): (r: Result<seq<Entry>>)
    ensures file.Missing? ==> r == Ok([])
  {
    match file
    case Missing => Ok([])
    case Lines(lines) => ReadRows(SplitLines(lines), parse)
  }

  /**
   * `main` before the threads start: read the file and, if it gave nothing,
   * fall back to synthesis. The limit is still unbounded at that point, so the
   * fallback leaves the schedule empty until the first sonar report.
   */
  function Startup(file: ScheduleFile, parse: string -> Option<real>): (r: Result<State>)
    ensures ReadDepthsAndTimes(file, parse).Err? <==> r.Err?
    ensures r.Ok? ==> r.value == Initial(ReadDepthsAndTimes(file, parse).value)
  {
    match ReadDepthsAndTimes(file, parse)
    case Err(e) => Err(e)
    case Ok(schedule) =>
      var s := Initial(schedule);
      Ok(if |schedule| == 0 then s.(schedule := Synthesize(schedule, s.limit)) else s)
  }

  /**
   * Without a schedule file the program starts with an empty schedule, and the
   * first numeric sonar report synthesizes the default one for its limit.
   */
  lemma MissingFileThenFirstReport(parse: string -> Option<real>, report: real)
    ensures Startup(Missing, parse) == Ok(Initial([]))
    ensures IsDefaultSchedule(OnSonarDepth(Initial([]), Some(report)).schedule, report - SafetyBuffer)
  {
  }

  /** The worked example: a report of 22 m gives limit 20 m and depths 0, 5, 10, 15. */
  lemma TwentyTwoMeterReport()
    ensures OnSonarDepth(Initial([]), Some(22.0)).schedule ==
      [Entry(0.0, 10.0), Entry(5.0, 10.0), Entry(10.0, 10.0), Entry(15.0, 10.0)]
  {
  }
}
