# ArcMetis probe control, modelled in Dafny

ArcMetis lowers a sensor probe from a floating platform on a winch. Five
Python programs exchange MQTT messages and UDP datagrams to make that happen.
This project models the decision logic of each as pure step functions over
immutable state, and proves what the code promises about it:

- **coordinator** (`coordinator.dfy`, `mission.dfy`). It tracks a sonar
  safety limit (report − 2 m, unbounded until the first report) and walks a
  depth/dwell schedule. The schedule is read from a file or, failing that,
  synthesized as 0, 5, 10, … m with 10-minute dwells. Start and stop commands
  arrive as text read by `int()`, and each starts or stops sampling with an
  "on"/"stop" datagram to the probe. The listener thread and the stepper
  thread are interleaved event by event. A stepper iteration is split at its
  sleep into a publishing step and a wake-up step, so listener events can
  land during a dwell.
- **winch** (`winch.dfy`). A signed encoder pulse counter is counted in the
  commanded direction. The module covers homing against the end-stop, moving
  to a target in cm, setpoint dispatch, and the reconnect fail-safe. Pulse
  counts and end-stop readings come in as a sequence of samples, one per poll
  of the loop.
- **alarm cycler** (`alarms.dfy`). Alert topics get status numbers 1..n the
  first time they fault. A one-second tick publishes the active alerts'
  numbers round-robin, or a single 0 when none is active.
- **data logger** (`logger.dfy`). It keeps the GPS coordinates and an on/off
  logging switch guarded by USB presence. It also keeps a fixed 14-field
  record, written as one row and cleared on every probe time stamp. File
  writes become a list of outputs.
- **datagram dispatcher** (`ingest.dfy`). A comma-separated probe datagram
  becomes an ordered list of MQTT publications: 13 fields, 3 fields, or the
  word "leak".

`text.dfy` gives the Python string built-ins these programs rely on:
`strip`, `split(',')`, `split()`, `in`, `startswith` and `int()`. Each is
written out with Python's behaviour, apart from the `int()` gaps listed under
"Left out". Each is tied to a second description: `strip` by what it keeps
and leaves alone, `split(',')` and `int()` by round trips, `split()` by how
it treats words and whitespace, `in` by an occurrence at some index, and
`startswith` by the sequence prefix.
`wrappers.dfy` holds `Option` and `Result`.

Behaviours of the code worth knowing, all modelled as written:

- At start-up, the fallback to synthesis when the file gave nothing runs
  while the limit is still unbounded, so it does nothing, although the
  program announces "Generating default depths..." (coordinator.py:168). The
  default schedule first appears with the first numeric sonar report
  (coordinator.py:105-109, 167-169).
- A kept line whose depth or time is not a number raises `ValueError` in
  `read_depths_and_times`. Only `FileNotFoundError` is caught, so start-up
  fails (`Err`) rather than falling back (coordinator.py:88-101).
- The setpoint is `int()` of the limited depth in cm. That truncates toward
  zero, so a fractional negative value is rounded up toward 0 rather than
  down (−150.7 cm gives −150) (coordinator.py:129-130).
- A stop and a restart during a dwell reset the index to 0, but the pending
  increment still runs afterwards. Sampling therefore resumes at the second
  entry, not the first (coordinator.py:64-67, 134-136).
- A schedule entry with a negative dwell time makes `time.sleep` raise
  `ValueError` right after its setpoint is published. Nothing catches it, so
  the program ends there (coordinator.py:132-135).

## Model

| member | source | states |
|---|---|---|
| Coordinator.DefaultCount | coordinator.py:111-115 | the number n of default entries satisfies 5n ≤ limit (or n = 0) and 5n + 5 > limit |
| Coordinator.DefaultSchedule | coordinator.py:111-115 | the closed form is a default schedule: entries (5i, 10), each depth d with d + 5 ≤ limit, and one more entry would break that |
| Coordinator.DefaultScheduleLength | coordinator.py:111-115 | any default schedule for a limit has exactly `DefaultCount(limit)` entries |
| Coordinator.DefaultScheduleUnique | coordinator.py:111-115 | two default schedules for the same limit are equal, so the description fixes the schedule |
| Coordinator.GenerateDefaultDepths | coordinator.py:105-118 | the while loop leaves the schedule alone under an unbounded limit and otherwise builds a default schedule |
| Coordinator.Synthesize | coordinator.py:105-115 | as `GenerateDefaultDepths`, as a function: unchanged when unbounded, a default schedule when bounded |
| Coordinator.GenerateMatchesSynthesize | coordinator.py:105-118 | the loop and the closed form give the same schedule for every schedule and limit |
| Coordinator.OnSonarDepth | coordinator.py:51-59 | a number sets the limit to report − 2 and leaves mode, index and stepper alone; a schedule that is not empty is kept; an empty one becomes the default schedule for the new limit; a non-number changes nothing |
| Coordinator.OnInitSampling | coordinator.py:61-74 | "on" is sent iff `int()` reads 1 while not sampling, and then the mode is sampling and the index 0; "stop" is sent iff it reads 0 while not idle, and then the mode is idle; otherwise nothing changes and nothing is sent |
| Coordinator.DecimalTextIgnored | coordinator.py:62-63 | text containing '.', such as "1.0", is rejected by `int()` and never starts or stops a mission |
| Coordinator.Truncate | coordinator.py:130 | `int()` of a float: for x ≥ 0 the largest integer ≤ x, for x < 0 the smallest integer ≥ x |
| Coordinator.SafeDepth | coordinator.py:129 | `min(depth, limit)`: never above the depth; never above a bounded limit; equal to the depth when unbounded |
| Coordinator.SetpointCm | coordinator.py:129-130 | the setpoint is `min(depth, limit)` in cm truncated toward zero: within one cm below it when it is non-negative, within one cm above it when negative; so it never exceeds max(limit·100, 0) nor max(depth·100, 0), and is non-negative for non-negative depth and limit |
| Coordinator.Step | coordinator.py:122-157 | a ready sampling step with an entry left publishes that entry's setpoint and starts the dwell, or halts the program for good when the dwell is negative; past the end it switches to waiting and publishes 0; waiting and idle publish 0 and change nothing; waking from a dwell advances the index by one; limit and schedule never change; every published setpoint is within the limit |
| Coordinator.SamplingIteration | coordinator.py:126-136 | an uninterrupted iteration publishes the entry's setpoint once and moves the index on by exactly one; with a negative dwell it publishes the setpoint and halts |
| Coordinator.RestartDuringDwellSkipsFirstEntry | coordinator.py:64-67 | a stop and a restart during the first dwell reset the index to 0, but after the wake-up the next setpoint is the second entry's |
| Coordinator.SplitLines | coordinator.py:92-93 | one field list per line of the file, in order, each the `split()` of its line |
| Coordinator.LineFields | coordinator.py:93 | `line.strip().split()` gives the same fields as `line.split()`, each a whitespace-free word |
| Coordinator.TwoFieldRows | coordinator.py:94 | a row is kept exactly when it is one of the lines' rows and has two fields; there are no more kept rows than lines |
| Coordinator.AllParseCons | coordinator.py:94-97 | every kept row of a list with one more row in front parses iff that row and the rest do |
| Coordinator.ReadRows | coordinator.py:92-98 | the loop of `read_depths_and_times`: a failure is the uncaught `ValueError`, and a success has at most one entry per line |
| Coordinator.ReadRowsFailsOnBadField | coordinator.py:92-98 | reading succeeds iff both fields of every two-field row are numbers |
| Coordinator.ReadRowsKeepsTwoFieldRows | coordinator.py:92-98 | a successful read gives one entry per two-field row, in file order, holding that row's depth and time |
| Coordinator.ReadDepthsAndTimes | coordinator.py:99-101 | a missing file reads as an empty schedule |
| Coordinator.Startup | coordinator.py:161-169 | start-up fails exactly when reading fails; otherwise it is the idle, unbounded state over the schedule read (synthesis under no limit changes nothing) |
| Coordinator.MissingFileThenFirstReport | coordinator.py:56-57 | without a file the schedule starts empty, and the first numeric report synthesizes the default schedule for report − 2 |
| Coordinator.TwentyTwoMeterReport | coordinator.py:111-115 | a 22 m report on an empty schedule gives depths 0, 5, 10 and 15 m, each for 10 minutes |
| Mission.Apply | coordinator.py:48-157 | one event of either thread: only the stepper publishes setpoints, only the start/stop listener sends datagrams, and no event does more than one of either |
| Mission.Run | coordinator.py:48-157 | events applied in order, with no more setpoints and datagrams together than there are events |
| Mission.HaltedIsFinal | coordinator.py:135 | once a negative dwell has ended the program, no event changes the state, publishes or sends anything |
| Mission.ApplyKeepsIndexInRange | coordinator.py:126-136 | any single event keeps the index within the schedule, and within it strictly while dwelling |
| Mission.RunKeepsIndexInRange | coordinator.py:126-136 | under every interleaving the index stays within the schedule |
| Mission.ScheduleFixedOnceLoaded | coordinator.py:56-57 | under every interleaving a schedule that is not empty is never replaced |
| Mission.ApplyKeepsDatagramOrder | coordinator.py:64-72 | one event sends at most one datagram, never a stop that does not follow an "on", and keeps "idle" in step with "the last datagram was a stop or none was sent" |
| Mission.CommandKeepsDatagramOrder | coordinator.py:61-74 | a start or stop command sends at most one datagram, a stop only right after an "on", and keeps "idle" in step with the last datagram |
| Mission.DatagramOrder | coordinator.py:64-72 | the same along any sequence of events |
| Mission.StopsFollowOnAt | coordinator.py:64-72 | read position by position, each stop directly follows an "on" (or the "on" sent before the run) |
| Mission.InitialDatagramOrder | coordinator.py:61-74 | from start-up, under every interleaving of atomic events, every stop sent is preceded immediately by an "on": no stop first, never two stops in a row |
| Mission.SetpointsWithinLimit | coordinator.py:54 | once a limit is in force, no setpoint under any interleaving exceeds the deepest limit in force, in cm (or 0 for a negative limit) |
| Mission.WaitingPublishesZero | coordinator.py:144-148 | while waiting and with no messages, n steps publish n zeros and change nothing |
| Winch.EncoderPulse | winchController.py:45-52 | a pulse adds 1 when going down and subtracts 1 otherwise, and keeps the direction |
| Winch.PositionCm | winchController.py:57-59 | the position in cm is positive, zero or negative exactly as the pulse count is |
| Winch.KeepsMoving | winchController.py:120-121 | the loop goes on exactly while the target is not reached and lies ahead in the direction of motion |
| Winch.DirectionFor | winchController.py:95-99 | the chosen direction moves toward the target, and a target equal to the position picks up |
| Winch.StatusFor | winchController.py:97-100 | the announced status is −2 exactly when going down and −1 when going up |
| Winch.PulseTrain | winchController.py:45-59 | n pulses move the position by exactly n × 0.2638 cm in the commanded direction |
| Winch.PositionMonotone | winchController.py:57-59 | the position in cm grows with the pulse count |
| Winch.Home | winchController.py:61-81 | homing leaves the direction up; the motor stops iff some poll sees the end-stop, and it stops at the first such poll; it then zeroes the counter and publishes position 0 |
| Winch.MoveTo | winchController.py:83-137 | a negative target does nothing; otherwise the direction is down iff the target is deeper, announced by −2 or −1 first; going up onto an active end-stop stops after the announcement; every other exit publishes exactly the announcement and then the final position in m; on exit the target is reached, or the end-stop was hit going up; going down the last reading is at or past the target, and either way it overshoots by less than one pulse when each poll sees at most one pulse |
| Winch.DownOvershoot | winchController.py:120-123 | going down one pulse per poll, the first reading at or past the target is less than one pulse distance past it |
| Winch.UpOvershoot | winchController.py:120-129 | going up one pulse per poll, the first reading at or above the target is less than one pulse distance past it |
| Winch.OnSetpoint | winchController.py:139-150 | a non-number changes nothing; 0 homes; a negative number changes nothing; any other number moves toward it in the direction it lies |
| Winch.OnDisconnect | winchController.py:152-168 | between 1 and 5 attempts; the first success stops the retries without homing; the winch is homed iff all five fail |
| Alarms.InitialValid | MQTTstatus.py:12-14 | the start-up state has no duplicate alerts and numbers exactly 1..n |
| Alarms.IndexOf | MQTTstatus.py:52 | the position of the first occurrence of a present topic |
| Alarms.RemoveFirst | MQTTstatus.py:52 | `list.remove` shortens the list by one |
| Alarms.RemoveFirstMembers | MQTTstatus.py:51-52 | in a list without duplicates, removal drops exactly that topic, keeps the others in their order, and keeps the list free of duplicates |
| Alarms.NumberNewTopic | MQTTstatus.py:46-47 | giving a new topic the number count + 1 keeps the numbers exactly 1..n |
| Alarms.OnMessage | MQTTstatus.py:36-52 | a non-number changes nothing; an active (1) report numbers a new topic count + 1, never renumbers an old one, and appends the topic only if it is not listed; any other number removes the topic if listed and leaves the numbers alone; the state invariant is kept |
| Alarms.OnTick | MQTTstatus.py:72-83 | with alerts, the status number of the alert at index mod count is published (never 0), the index goes up by one and the no-alerts flag is cleared; with none, 0 is published iff it was not already sent, and the flag is then set |
| Alarms.Run | MQTTstatus.py:36-85 | any interleaving of messages and ticks keeps the state invariant |
| Alarms.AllClearSentOnce | MQTTstatus.py:79-83 | during a stretch with no alerts and none raised, at most one 0 and nothing else is published, and none if 0 was already sent |
| Logger.InitialValid | MQTTtoLOG.py:11-35 | at start-up the record holds exactly its 14 fields, all empty, logging is off, no coordinate is known, and USB presence is as probed |
| Logger.EmptyRecord | MQTTtoLOG.py:118-121 | the cleared record has exactly the 14 fields, each empty |
| Logger.FieldOf | MQTTtoLOG.py:72 | the key taken from a topic holds no '/', and for "probe/" followed by a name without '/' it is that name |
| Logger.ProbeTopicName | MQTTtoLOG.py:72 | `split('/')[-1]` of "probe/" followed by a name without '/' is the name |
| Logger.TimeTopicField | MQTTtoLOG.py:72 | the last segment of the time-stamp topic is the time-stamp field |
| Logger.ProbeTopicsDistinct | MQTTtoLOG.py:52-71 | a "probe/" topic is none of the GPS or logging topics |
| Logger.OnMessage | MQTTtoLOG.py:43-79 | the record keeps exactly its 14 fields; GPS topics store the payload whether or not logging is on; the logging topic leaves the record alone; probe messages while off change nothing |
| Logger.LoggingSwitch | MQTTtoLOG.py:57-68 | logging starts, writing the information block, iff "1"/"1.0" arrives while off with the drive present; it stops only on "0"/"0.0" while on; other payloads and other topics leave the switch alone |
| Logger.RowOnTimeStamp | MQTTtoLOG.py:76-79 | the time stamp while logging writes one row, the record with the new time stamp, and then clears every field |
| Logger.RowOnlyOnTimeStamp | MQTTtoLOG.py:76-79 | a row is written iff logging is on and the topic is the time stamp |
| Logger.Shown | MQTTtoLOG.py:94-95 | the information block never shows an empty coordinate: a received, non-empty one as it is, otherwise "Unknown" |
| Logger.ProbeFieldUpdate | MQTTtoLOG.py:70-74 | another probe topic while logging sets the field its last segment names, if the record has it, changes no other field, and writes nothing |
| Logger.Run | MQTTtoLOG.py:11-26 | over any message sequence the record keeps exactly its 14 fields |
| Logger.ProbeMessageWhileOn | MQTTtoLOG.py:70-79 | a probe message while logging keeps logging on and writes one row for a time stamp, none otherwise |
| Logger.OneRowPerTimeStamp | MQTTtoLOG.py:70-79 | while logging, a stream of probe messages writes exactly one row per time stamp and nothing else |
| Logger.ProbeIgnoredWhileOff | MQTTtoLOG.py:70 | while logging is off, a stream of probe messages changes nothing and writes nothing |
| Logger.Deliver | MQTTtoLOG.py:140-161 | a message on a topic that is not subscribed changes nothing and writes nothing |
| Logger.GpsNeverDeliveredAsWritten | MQTTtoLOG.py:157-158 | with the subscriptions as written, GPS coordinates never reach the handler |
| Logger.GpsDelivered | MQTTtoLOG.py:39-40 | with the GPS topics themselves subscribed, coordinates are stored as they arrive |
| Ingest.Values | UDPtoMQTT.py:37 | one field more than there are commas; no field holds a comma or starts or ends with whitespace |
| Ingest.Abs | UDPtoMQTT.py:47 | `abs`: non-negative and equal to x or −x |
| Ingest.FullPacket | UDPtoMQTT.py:49-63 | 14 publications: fields 1..12 forwarded unchanged under their topics, then the pressure difference, then the time stamp last |
| Ingest.ShortPacket | UDPtoMQTT.py:71-73 | three publications forwarding the fields unchanged, on the pressure, battery and time-stamp topics in that order |
| Ingest.ProcessData | UDPtoMQTT.py:34-87 | 13 fields publish a full packet if both pressures parse and nothing otherwise; 3 fields publish the short packet; any other count publishes the leak flag 1 iff the datagram contains "leak", and nothing otherwise |
| Ingest.ValuesOfJoin | UDPtoMQTT.py:37 | clean fields joined with commas split and strip back to the same fields |
| Ingest.FullPacketForwardsFields | UDPtoMQTT.py:45-63 | a datagram of 13 clean fields whose pressures parse publishes fields 1..12 unchanged in order and field 0 last |
| Ingest.ShortPacketTopics | UDPtoMQTT.py:71-73 | the short packet never publishes on the leak topic |
| Ingest.ShortPacketNeverLeak | UDPtoMQTT.py:67-77 | a three-field datagram is a data packet even when it contains "leak" |
| Text.TrimStart | UDPtoMQTT.py:37 | for the whitespace of `strip()` or of `int()`: the suffix left after dropping the whitespace prefix, starting with a non-whitespace character |
| Text.TrimEnd | UDPtoMQTT.py:37 | for the whitespace of `strip()` or of `int()`: the prefix left after dropping the whitespace suffix, ending with a non-whitespace character |
| Text.Strip | UDPtoMQTT.py:37 | `strip()` gives a slice of the text with only whitespace before and after it, and no whitespace at either of its own ends |
| Text.IntStrip | coordinator.py:63 | `int()` reads its digits from a slice of the text with only the whitespace it skips before and after it, and none of that whitespace at either of its own ends |
| Text.TrimStartKeeps | UDPtoMQTT.py:37 | dropping leading whitespace keeps every other character and adds none |
| Text.TrimEndKeeps | UDPtoMQTT.py:37 | dropping trailing whitespace keeps every other character and adds none |
| Text.StripKeeps | UDPtoMQTT.py:37 | `strip()` keeps every other character and adds none |
| Text.StripUnpadded | UDPtoMQTT.py:37 | text with no whitespace at either end is left alone by `strip()` |
| Text.SplitOn | UDPtoMQTT.py:37 | `split(',')` gives one part more than there are separators, and no part holds the separator |
| Text.JoinSplit | UDPtoMQTT.py:37 | splitting and rejoining gives back the text |
| Text.SplitJoin | UDPtoMQTT.py:37 | joining separator-free parts and splitting gives back the parts |
| Text.SplitNoSeparator | UDPtoMQTT.py:37 | text without the separator splits into itself |
| Text.SplitPrefix | UDPtoMQTT.py:37 | a separator-free head before the separator becomes the first part |
| Text.LastSegment | MQTTtoLOG.py:72 | `split('/')[-1]` is the suffix of the topic after its last '/', or the whole topic when it has none: a suffix holding no '/', preceded by '/' unless it is everything |
| Text.LastPartIsSuffix | MQTTtoLOG.py:72 | the last part of a split is a suffix of the text that is all of it or follows a separator |
| Text.Fields | coordinator.py:93 | `split()` gives non-empty fields free of whitespace, whose concatenation is the text without its whitespace, in order; `FieldsWord` and `FieldsAtSpace` add that the fields are the maximal runs |
| Text.FieldsWord | coordinator.py:93 | a non-empty run without whitespace is one field, not several |
| Text.FieldsAtSpace | coordinator.py:93 | every whitespace character separates fields: the text on either side splits on its own |
| Text.FieldsSpacePrefix | coordinator.py:93 | leading whitespace adds no field |
| Text.FieldsSpaceSuffix | coordinator.py:93 | trailing whitespace adds no field |
| Text.FieldsOfTrimStart | coordinator.py:93 | dropping leading whitespace does not change the fields |
| Text.FieldsOfTrimEnd | coordinator.py:93 | dropping trailing whitespace does not change the fields |
| Text.FieldsOfStrip | coordinator.py:93 | `strip().split()` gives the same fields as `split()` |
| Text.Contains | UDPtoMQTT.py:77 | `sub in s` holds iff `sub` occurs in `s` starting at some index |
| Text.StartsWith | MQTTtoLOG.py:71 | `startswith` holds iff the prefix is a sequence prefix of the text, which is then the prefix followed by the rest |
| Text.ParseDigits | coordinator.py:63 | a digit run is read iff it is non-empty and all digits, so a run containing '.' is never read |
| Text.ParseSigned | coordinator.py:63 | text that reads as a signed integer holds only digits and signs, so never a '.' |
| Text.ParseInt | coordinator.py:63 | text that `int()` accepts holds only the whitespace it skips, digits and signs; in particular anything containing '.' is rejected |
| Text.ParseIntRejectsSeparator | coordinator.py:63 | an integer's printed form behind one of the separators \x1c..\x1f, such as "\x1c1", is rejected by `int()`, although `strip()` drops the separator |
| Text.TrimStartPadded | coordinator.py:63 | all leading whitespace in front of a non-whitespace start is dropped |
| Text.TrimEndPadded | coordinator.py:63 | all trailing whitespace after a non-whitespace end is dropped |
| Text.ParseIntPadded | coordinator.py:63 | `int()` reads an integer's printed form back with any whitespace it skips on either side |
| Text.ShowNat | coordinator.py:63 | the decimal digits of a natural number: non-empty, all digits |
| Text.DigitsOfShowNat | coordinator.py:63 | reading back the printed digits gives the number |
| Text.ParseShowSigned | coordinator.py:63 | a signed integer's printed form reads back as that integer |
| Text.ParseShowInt | coordinator.py:63 | `int(str(n)) == n` for every integer n |

## Left out

- MQTT, UDP and file I/O: connecting, subscribing, the network loops and
  reconnect loops of the programs other than the winch are not modelled.
  Publications, datagrams and written rows become output lists. CSV
  formatting, the header row and the file names built from the UTC time are
  not modelled either.
- Sleeps and timing: dwell times, poll intervals and the one-second tick are
  not modelled, except that a negative dwell ends the program. The threads become arbitrary interleavings of atomic events.
- Mission.InitialDatagramOrder: holds for atomic events only. In the
  program the stepper can read "sampling" (coordinator.py:138), the listener
  can then handle "0", set idle and send "stop", and the stepper then
  overwrites the mode with "waiting" (coordinator.py:141). A second "0" then
  sends a second "stop" in a row. The model does not split events finely
  enough to show this race.
- GPIO, PWM and motor speeds: hardware drivers with no logic to verify.
- Float parsing, `inf` and `nan`: Python's `float()` is a parameter
  (`string -> Option<real>`) or an `Option<real>` payload, so real arithmetic
  stands in for IEEE-754. The alarm cycler takes the already-rounded
  `round(float(...))` as `Option<int>`, so banker's rounding and the
  `OverflowError` of `round(inf)` are not modelled.
- Text.ParseInt: underscores between digits and non-ASCII decimal digits
  (such as Arabic-Indic ones), which Python's `int()` accepts, are rejected.
  Whitespace does follow Python: `strip()` and `split()` drop what
  `str.isspace()` accepts, while `int()` skips the same set without the
  separators \x1c..\x1f.
- Winch.MoveTo: pulses counted between the last poll and the final position
  read are not modelled. The final position is that of the last poll.
- Winch.MoveTo: the within-one-pulse overshoot holds only if each 50 ms poll
  sees at most one new pulse (`OnePulsePerPoll`). The program does not
  enforce this; it depends on the winch's speed against the poll rate, so
  the bound is stated under that assumption.
- Winch.Home: the homing loop has no timeout in the source. When no sample
  sees the end-stop, the model reports the motor still running.
- Exceptions from the MQTT client inside `process_data`: caught and printed
  in the source. Only the parse failure of a full packet is modelled, as
  "nothing published".
- MAVtoMQTT.py, sonarToMQTT.py and the debugScripts directory: device reads,
  unit conversions and interactive tools outside the control logic.
- master.py is not part of this model. It is a process launcher; its missing
  comma between two script names is not logic that a state model can carry.

## Findings

| source | as written | input that shows it | evidently intended | confidence | as-written member | corrected member |
|---|---|---|---|---|---|---|
| MQTTtoLOG.py:157-158 | the subscription list holds the strings "gps_latitude_topic" and "gps_longitude_topic", the variables' names in quotes | a message on "platform/gps_latitude" with payload "55.7" is never delivered, so the information block reads "Unknown" | subscribe to the values of `gps_latitude_topic` and `gps_longitude_topic` | high, not executed | Logger.GpsNeverDeliveredAsWritten | Logger.GpsDelivered |
