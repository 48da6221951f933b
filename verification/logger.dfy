/**
 * The data logger's message handler: GPS coordinates are remembered, a
 * logging switch opens a new log, and while logging, probe readings fill a
 * fixed record that is written out as one row and cleared whenever the
 * probe's time stamp arrives. File writing is abstracted to a list of outputs.
 */
module Logger {
  import opened Wrappers
  import Text

  /** The record's fields, in column order. */
  const Keys: seq<string> := [
    "tidGaaet", "P_ude", "P_inde", "RH", "SCD30_temp", "htu_temp", "T_ude",
    "CO2", "O2", "CH4", "MIPEX", "EC", "Perc_bat", "P_diff"]

  const KeySet: set<string> := set k | k in Keys

  const LatitudeTopic: string := "platform/gps_latitude"
  const LongitudeTopic: string := "platform/gps_longitude"
  const LoggingTopic: string := "status/logging"
  const ProbePrefix: string := "probe/"
  const TimeKey: string := "tidGaaet"
  const TimeTopic: string := "probe/tidGaaet"

  /** One reading per field; `None` until a reading arrives. */
  type Record = map<string, Option<string>>

  /** What the handler writes: the information block that opens a log, or one data row. */
  datatype Output = InfoBlock(latitude: string, longitude: string) | Row(values: Record)

  datatype Logger = Logger(usbPresent: bool, enabled: bool, record: Record, latitude: Option<string>, longitude: Option<string>)

  datatype Reaction = Reaction(next: Logger, out: seq<Output>)

  /** `reset_data`: every field back to `None`. */
  function EmptyRecord(): (r: Record)
    ensures r.Keys == KeySet
    ensures forall k :: k in r ==> r[k].None?
  {
    map k | k in KeySet :: None
  }

  /** The module globals at start-up; USB presence is checked once, before any message. */
  function Initial(usbPresent: bool): Logger {
    Logger(usbPresent, false, EmptyRecord(), None, None)
  }

  /** The record always has exactly the fourteen fields. */
  ghost predicate Valid(l: Logger) {
    l.record.Keys == KeySet
  }

  /** Start-up: the record is valid and empty, logging is off, and no coordinate has been received. */
  lemma InitialValid(usbPresent: bool)
    ensures Valid(Initial(usbPresent))
    ensures !Initial(usbPresent).enabled && Initial(usbPresent).usbPresent == usbPresent
    ensures forall k :: k in Initial(usbPresent).record ==> Initial(usbPresent).record[k].None?
    ensures Initial(usbPresent).latitude.None? && Initial(usbPresent).longitude.None?
  {
  }

  predicate IsOn(payload: string) {
    payload == "1" || payload == "1.0"
  }

  predicate IsOff(payload: string) {
    payload == "0" || payload == "0.0"
  }

  /** A coordinate as the information block shows it: "Unknown" when none, or an empty one, was received. */
  function Shown(coordinate: Option<string>): (text: string)
    ensures text != ""
    ensures coordinate.Some? && coordinate.value != "" ==> text == coordinate.value
    ensures text == "Unknown" <==> coordinate.None? || coordinate.value in {"", "Unknown"}
  {
    if coordinate.None? || coordinate.value == "" then "Unknown" else coordinate.value
  }

  /** `topic.split('/')[-1]`: for a probe topic, the name after "probe/". */
  function FieldOf(topic: string): (r: string)
    ensures '/' !in r
    ensures Text.StartsWith(topic, ProbePrefix) && '/' !in topic[|ProbePrefix|..] ==> r == topic[|ProbePrefix|..]
  {
    ProbeTopicName(topic);
    Text.LastSegment(topic, '/')
  }

  /** The last segment of "probe/" followed by a name without '/' is that name. */
  lemma ProbeTopicName(topic: string)
    ensures Text.StartsWith(topic, ProbePrefix) && '/' !in topic[|ProbePrefix|..] ==>
      Text.LastSegment(topic, '/') == topic[|ProbePrefix|..]
  {
    if Text.StartsWith(topic, ProbePrefix) && '/' !in topic[|ProbePrefix|..] {
      var name := topic[|ProbePrefix|..];
      assert topic == "probe" + ['/'] + name;
      Text.SplitPrefix("probe", name, '/');
      Text.SplitNoSeparator(name, '/');
    }
  }

  lemma TimeTopicField()
    ensures FieldOf(TimeTopic) == TimeKey
  {
    Text.SplitJoin(["probe", "tidGaaet"], '/');
    assert Text.Join(["probe", "tidGaaet"], '/') == TimeTopic;
  }

  /** A probe topic is none of the GPS or logging topics. */
  lemma ProbeTopicsDistinct(topic: string)
    ensures Text.StartsWith(topic, ProbePrefix) ==>
      topic != LatitudeTopic && topic != LongitudeTopic && topic != LoggingTopic
  {
    if Text.StartsWith(topic, ProbePrefix) {
      assert topic[1] == 'r';
      assert LatitudeTopic[1] == 'l' && LongitudeTopic[1] == 'l' && LoggingTopic[1] == 't';
    }
  }

  /**
   * `on_message`. GPS coordinates are stored whether or not logging is on.
   * The logging switch starts a log on "1"/"1.0" only when logging is off and
   * the USB drive is present, and stops it on "0"/"0.0" only when on. While
   * logging, a probe topic whose last segment is a field sets that field; the
   * time-stamp topic then writes the record as a row and clears it.
   */
  function OnMessage(l: Logger, topic: string, payload: string): (r: Reaction)
    requires Valid(l)
    ensures Valid(r.next)
    ensures r.next.usbPresent == l.usbPresent
    ensures topic == LatitudeTopic ==> r == Reaction(l.(latitude := Some(payload)), [])
    ensures topic == LongitudeTopic ==> r == Reaction(l.(longitude := Some(payload)), [])
    ensures topic != LatitudeTopic ==> r.next.latitude == l.latitude
    ensures topic != LongitudeTopic ==> r.next.longitude == l.longitude
    ensures topic == LoggingTopic ==> r.next.record == l.record
    ensures !l.enabled && Text.StartsWith(topic, ProbePrefix) ==> r == Reaction(l, [])
    ensures |r.out| <= 1
  {
    ProbeTopicsDistinct(topic);
    if topic == LatitudeTopic then
      Reaction(l.(latitude := Some(payload)), [])
    else if topic == LongitudeTopic then
      Reaction(l.(longitude := Some(payload)), [])
    else if topic == LoggingTopic then
      if IsOn(payload) && !l.enabled && l.usbPresent then
        Reaction(l.(enabled := true), [InfoBlock(Shown(l.latitude), Shown(l.longitude))])
      else if IsOff(payload) && l.enabled then
        Reaction(l.(enabled := false), [])
      else
        Reaction(l, [])
    else if l.enabled && Text.StartsWith(topic, ProbePrefix) then
      var key := FieldOf(topic);
      var record := if key in l.record then l.record[key := Some(payload)] else l.record;
      if topic == TimeTopic then
        Reaction(l.(record := EmptyRecord()), [Row(record)])
      else
        Reaction(l.(record := record), [])
    else
      Reaction(l, [])
  }

  /**
   * The logging switch: logging starts, writing the information block, only
   * on "1"/"1.0" while off with the drive present, and stops only on
   * "0"/"0.0" while on. Any other message leaves the switch alone.
   */
  lemma LoggingSwitch(l: Logger, topic: string, payload: string)
    requires Valid(l)
    ensures var r := OnMessage(l, topic, payload);
      && (topic != LoggingTopic ==> r.next.enabled == l.enabled)
      && (r.out == [InfoBlock(Shown(l.latitude), Shown(l.longitude))] <==> !l.enabled && r.next.enabled)
      && (!l.enabled && r.next.enabled ==> topic == LoggingTopic && IsOn(payload) && l.usbPresent)
      && (topic == LoggingTopic && IsOn(payload) && l.usbPresent ==> r.next.enabled)
      && (l.enabled && !r.next.enabled ==> topic == LoggingTopic && IsOff(payload))
      && (topic == LoggingTopic && IsOff(payload) ==> !r.next.enabled)
      && (topic == LoggingTopic && !IsOn(payload) && !IsOff(payload) ==> r == Reaction(l, []))
  {
    ProbeTopicsDistinct(topic);
  }

  /**
   * The time-stamp topic while logging writes the record, with the time stamp
   * filled in, as one row, and then clears the record.
   */
  lemma RowOnTimeStamp(l: Logger, payload: string)
    requires Valid(l) && l.enabled
    ensures var r := OnMessage(l, TimeTopic, payload);
      && r.out == [Row(l.record[TimeKey := Some(payload)])]
      && r.next.record == EmptyRecord()
  {
    assert Text.StartsWith(TimeTopic, ProbePrefix);
    ProbeTopicsDistinct(TimeTopic);
    TimeTopicField();
    assert TimeKey in l.record by { assert Keys[0] == TimeKey; }
  }

  /** A row is written exactly for the time-stamp topic while logging. */
  lemma RowOnlyOnTimeStamp(l: Logger, topic: string, payload: string)
    requires Valid(l)
    ensures (exists row :: OnMessage(l, topic, payload).out == [Row(row)]) <==> l.enabled && topic == TimeTopic
  {
    var r := OnMessage(l, topic, payload);
    if l.enabled && topic == TimeTopic {
      RowOnTimeStamp(l, payload);
    } else {
      assert r.out == [] || r.out == [InfoBlock(Shown(l.latitude), Shown(l.longitude))];
      forall row
        ensures r.out != [Row(row)]
      {
      }
    }
  }

  /**
   * Any other probe topic while logging fills the field its last segment
   * names, if the record has one, and writes nothing.
   */
  lemma ProbeFieldUpdate(l: Logger, topic: string, payload: string)
    requires Valid(l) && l.enabled && Text.StartsWith(topic, ProbePrefix) && topic != TimeTopic
    ensures var r := OnMessage(l, topic, payload);
      && r.out == []
      && forall k :: k in KeySet ==>
           r.next.record[k] == (if k == FieldOf(topic) then Some(payload) else l.record[k])
  {
    ProbeTopicsDistinct(topic);
  }

  /** Runs a sequence of messages, collecting every output in order. */
  function Run(l: Logger, messages: seq<(string, string)>): (r: Reaction)
    requires Valid(l)
    ensures Valid(r.next)
    ensures r.next.usbPresent == l.usbPresent
    decreases |messages|
  {
    if |messages| == 0 then Reaction(l, [])
    else
      var first := OnMessage(l, messages[0].0, messages[0].1);
      var rest := Run(first.next, messages[1..]);
      Reaction(rest.next, first.out + rest.out)
  }

  /** How many of the messages are on the time-stamp topic. */
  function TimeStamps(messages: seq<(string, string)>): nat {
    if |messages| == 0 then 0
    else (if messages[0].0 == TimeTopic then 1 else 0) + TimeStamps(messages[1..])
  }

  predicate AllProbe(messages: seq<(string, string)>) {
    forall i :: 0 <= i < |messages| ==> Text.StartsWith(messages[i].0, ProbePrefix)
  }

  /**
   * While logging, a stream of probe messages writes exactly one row per
   * time stamp, and nothing else; logging stays on.
   */
  lemma {:induction false} OneRowPerTimeStamp(l: Logger, messages: seq<(string, string)>)
    requires Valid(l) && l.enabled && AllProbe(messages)
    ensures Run(l, messages).next.enabled
    ensures |Run(l, messages).out| == TimeStamps(messages)
    ensures forall i :: 0 <= i < |Run(l, messages).out| ==> Run(l, messages).out[i].Row?
    decreases |messages|
  {
    if |messages| > 0 {
      var first := OnMessage(l, messages[0].0, messages[0].1);
      var rest := Run(first.next, messages[1..]);
      assert AllProbe(messages[1..]) by {
        forall i | 0 <= i < |messages[1..]|
          ensures Text.StartsWith(messages[1..][i].0, ProbePrefix)
        {
          assert messages[1..][i] == messages[i + 1];
        }
      }
      ProbeMessageWhileOn(l, messages[0].0, messages[0].1);
      OneRowPerTimeStamp(first.next, messages[1..]);
      AllRowsConcat(first.out, rest.out);
    }
  }

  lemma AllRowsConcat(a: seq<Output>, b: seq<Output>)
    requires forall i :: 0 <= i < |a| ==> a[i].Row?
    requires forall i :: 0 <= i < |b| ==> b[i].Row?
    ensures forall i :: 0 <= i < |a + b| ==> (a + b)[i].Row?
  {
  }

  /** One probe message while logging: logging stays on, and a row is written exactly for a time stamp. */
  lemma ProbeMessageWhileOn(l: Logger, topic: string, payload: string)
    requires Valid(l) && l.enabled && Text.StartsWith(topic, ProbePrefix)
    ensures OnMessage(l, topic, payload).next.enabled
    ensures |OnMessage(l, topic, payload).out| == (if topic == TimeTopic then 1 else 0)
    ensures forall i :: 0 <= i < |OnMessage(l, topic, payload).out| ==> OnMessage(l, topic, payload).out[i].Row?
  {
    ProbeTopicsDistinct(topic);
    RowOnlyOnTimeStamp(l, topic, payload);
  }

  /** While logging is off, probe messages change nothing and write nothing. */
  lemma {:induction false} ProbeIgnoredWhileOff(l: Logger, messages: seq<(string, string)>)
    requires Valid(l) && !l.enabled && AllProbe(messages)
    ensures Run(l, messages) == Reaction(l, [])
    decreases |messages|
  {
    if |messages| > 0 {
      assert AllProbe(messages[1..]) by {
        forall i | 0 <= i < |messages[1..]|
          ensures Text.StartsWith(messages[1..][i].0, ProbePrefix)
        {
          assert messages[1..][i] == messages[i + 1];
        }
      }
      ProbeIgnoredWhileOff(l, messages[1..]);
    }
  }

  // ---------------------------------------------------------------------------
  // Subscriptions: the broker delivers only messages on subscribed topics.
  // ---------------------------------------------------------------------------

  /** The fourteen probe topics, one per record field. */
  function ProbeTopics(): seq<string> {
    seq(|Keys|, i requires 0 <= i < |Keys| => ProbePrefix + Keys[i])
  }

  /** The subscription list as written: the GPS entries are the variables' names in quotes, not their values. */
  function SubscribedAsWritten(): seq<string> {
    ProbeTopics() + [LoggingTopic, "gps_latitude_topic", "gps_longitude_topic"]
  }

  /** The subscription list as intended: the GPS topics themselves. */
  function Subscribed(): seq<string> {
    ProbeTopics() + [LoggingTopic, LatitudeTopic, LongitudeTopic]
  }

  /** A message reaches `on_message` only if its topic is subscribed. */
  function Deliver(subscriptions: seq<string>, l: Logger, topic: string, payload: string): (r: Reaction)
    requires Valid(l)
    ensures Valid(r.next)
    ensures topic !in subscriptions ==> r == Reaction(l, [])
  {
    if topic in subscriptions then OnMessage(l, topic, payload) else Reaction(l, [])
  }

  /** As written, no GPS coordinate ever reaches the handler, so the information block always says "Unknown". */
  lemma GpsNeverDeliveredAsWritten(l: Logger, payload: string)
    requires Valid(l)
    ensures Deliver(SubscribedAsWritten(), l, LatitudeTopic, payload) == Reaction(l, [])
    ensures Deliver(SubscribedAsWritten(), l, LongitudeTopic, payload) == Reaction(l, [])
  {
    var subs := SubscribedAsWritten();
    forall i | 0 <= i < |subs|
      ensures subs[i][1] != 'l'
    {
      if i < |Keys| {
        assert subs[i] == ProbePrefix + Keys[i];
      }
    }
    assert LatitudeTopic[1] == 'l' && LongitudeTopic[1] == 'l';
  }

  /** With the intended subscriptions, GPS coordinates are stored as they arrive. */
  lemma GpsDelivered(l: Logger, payload: string)
    requires Valid(l)
    ensures Deliver(Subscribed(), l, LatitudeTopic, payload).next.latitude == Some(payload)
    ensures Deliver(Subscribed(), l, LongitudeTopic, payload).next.longitude == Some(payload)
  {
    var subs := Subscribed();
    assert subs[|Keys| + 1] == LatitudeTopic;
    assert subs[|Keys| + 2] == LongitudeTopic;
  }

}
