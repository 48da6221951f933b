/**
 * The probe datagram dispatcher: a comma-separated text datagram is
 * classified by its field count (13: full data packet, 3: short data packet)
 * or, failing that, by the substring "leak", and turned into an ordered list
 * of MQTT publications.
 */
module Ingest {
  import opened Wrappers
  import Text

  /** A published payload: a forwarded text field, a computed number, or the integer leak flag. */
  datatype Value = Field(text: string) | Number(r: real) | Flag(n: int)

  datatype Publication = Publication(topic: string, value: Value)

  const FullFieldCount: nat := 13
  const ShortFieldCount: nat := 3

  /** Topics of fields 1..12 of a full packet, in publication order. */
  const FullTopics: seq<string> := [
    "probe/P_ude", "probe/P_inde", "probe/RH", "probe/SCD30_temp", "probe/htu_temp",
    "probe/T_ude", "probe/CO2", "probe/O2", "probe/CH4", "probe/MIPEX", "probe/EC",
    "probe/Perc_bat"]

  const PressureDiffTopic: string := "probe/P_diff"
  const TimeTopic: string := "probe/tidGaaet"
  const PressureTopic: string := "probe/P_ude"
  const BatteryTopic: string := "probe/Perc_bat"
  const LeakTopic: string := "probe/leak"
  const LeakMarker: string := "leak"

  /** `[value.strip() for value in data.split(',')]`. */
  function Values(data: string): (vs: seq<string>)
    ensures |vs| == Text.Count(data, ',') + 1
    ensures forall i :: 0 <= i < |vs| ==> ',' !in vs[i]
    ensures forall i :: 0 <= i < |vs| ==> vs[i] == [] || (!Text.IsSpace(vs[i][0]) && !Text.IsSpace(vs[i][|vs[i]| - 1]))
  {
    var parts := Text.SplitOn(data, ',');
    var vs := seq(|parts|, i requires 0 <= i < |parts| => Text.Strip(parts[i]));
    assert forall i :: 0 <= i < |vs| ==> ',' !in vs[i] by {
      forall i | 0 <= i < |vs|
        ensures ',' !in vs[i]
      {
        Text.StripKeeps(parts[i], ',');
      }
    }
    vs
  }

  function Abs(x: real): (r: real)
    ensures r >= 0.0 && (r == x || r == -x)
  {
    if x < 0.0 then -x else x
  }

  /** The publications of a full packet whose two pressures parsed as `pOut` and `pIn`. */
  function FullPacket(vs: seq<string>, pOut: real, pIn: real): (pubs: seq<Publication>)
    requires |vs| == FullFieldCount
    ensures |pubs| == 14
    ensures forall i :: 0 <= i < 12 ==> pubs[i] == Publication(FullTopics[i], Field(vs[i + 1]))
    ensures pubs[12] == Publication(PressureDiffTopic, Number(Abs(pOut - pIn)))
    ensures pubs[13] == Publication(TimeTopic, Field(vs[0]))
  {
    seq(12, i requires 0 <= i < 12 => Publication(FullTopics[i], Field(vs[i + 1])))
    + [Publication(PressureDiffTopic, Number(Abs(pOut - pIn))), Publication(TimeTopic, Field(vs[0]))]
  }

  /** The publications of a short packet: pressure, battery, then time stamp. */
  function ShortPacket(vs: seq<string>): (pubs: seq<Publication>)
    requires |vs| == ShortFieldCount
    ensures |pubs| == ShortFieldCount
    ensures forall i :: 0 <= i < |pubs| ==> pubs[i].value == Field(vs[(i + 1) % ShortFieldCount])
    ensures [pubs[0].topic, pubs[1].topic, pubs[2].topic] == [PressureTopic, BatteryTopic, TimeTopic]
  {
    [Publication(PressureTopic, Field(vs[1])), Publication(BatteryTopic, Field(vs[2])), Publication(TimeTopic, Field(vs[0]))]
  }

  /**
   * `process_data`, given Python's `float()` as `parse`. A full packet's
   * pressure difference is computed before anything is published, so a
   * pressure that does not parse raises and nothing goes out. The leak check
   * runs only for other field counts, and the published flag is always 1.
   */
  function ProcessData(data: string, parse: string -> Option<real>): (pubs: seq<Publication>)
    ensures |Values(data)| == FullFieldCount ==>
      pubs == (if parse(Values(data)[1]).Some? && parse(Values(data)[2]).Some?
               then FullPacket(Values(data), parse(Values(data)[1]).value, parse(Values(data)[2]).value)
               else [])
    ensures |Values(data)| == ShortFieldCount ==> pubs == ShortPacket(Values(data))
    ensures |Values(data)| != FullFieldCount && |Values(data)| != ShortFieldCount ==>
      && (pubs == [Publication(LeakTopic, Flag(1))] <==> Text.Contains(data, LeakMarker))
      && (pubs == [] <==> !Text.Contains(data, LeakMarker))
  {
    var vs := Values(data);
    if |vs| == FullFieldCount then
      match (parse(vs[1]), parse(vs[2]))
      case (Some(pOut), Some(pIn)) => FullPacket(vs, pOut, pIn)
      case _ => []
    else if |vs| == ShortFieldCount then
      ShortPacket(vs)
    else if Text.Contains(data, LeakMarker) then
      [Publication(LeakTopic, Flag(1))]
    else
      []
  }

  /** A field the probe can send: no comma inside and no whitespace at either end. */
  predicate Clean(f: string) {
    ',' !in f && (f == [] || (!Text.IsSpace(f[0]) && !Text.IsSpace(f[|f| - 1])))
  }

  /** Joining clean fields with commas and reading them back gives the same fields. */
  lemma ValuesOfJoin(fields: seq<string>)
    requires |fields| > 0
    requires forall i :: 0 <= i < |fields| ==> Clean(fields[i])
    ensures Values(Text.Join(fields, ',')) == fields
  {
    Text.SplitJoin(fields, ',');
    var vs := Values(Text.Join(fields, ','));
    forall i | 0 <= i < |fields|
      ensures vs[i] == fields[i]
    {
      Text.StripUnpadded(fields[i]);
    }
  }

  /**
   * A full packet built from thirteen clean readings publishes the twelve
   * readings under their topics unchanged, then the pressure difference, then
   * the time stamp.
   */
  lemma FullPacketForwardsFields(fields: seq<string>, parse: string -> Option<real>)
    requires |fields| == FullFieldCount
    requires forall i :: 0 <= i < |fields| ==> Clean(fields[i])
    requires parse(fields[1]).Some? && parse(fields[2]).Some?
    ensures
      var pubs := ProcessData(Text.Join(fields, ','), parse);
      && |pubs| == 14
      && (forall i :: 0 <= i < 12 ==> pubs[i] == Publication(FullTopics[i], Field(fields[i + 1])))
      && pubs[13] == Publication(TimeTopic, Field(fields[0]))
  {
    ValuesOfJoin(fields);
  }

  lemma ShortPacketTopics(vs: seq<string>)
    requires |vs| == ShortFieldCount
    ensures forall i :: 0 <= i < |ShortPacket(vs)| ==> ShortPacket(vs)[i].topic != LeakTopic
  {
    assert PressureTopic[6] != LeakTopic[6];
    assert BatteryTopic[6] != LeakTopic[6];
    assert TimeTopic[6] != LeakTopic[6];
  }

  /** A three-field datagram is a data packet even when it mentions a leak. */
  lemma ShortPacketNeverLeak(data: string, parse: string -> Option<real>)
    requires Text.Count(data, ',') == 2
    ensures forall i :: 0 <= i < |ProcessData(data, parse)| ==> ProcessData(data, parse)[i].topic != LeakTopic
  {
    var vs := Values(data);
    assert |vs| == ShortFieldCount;
    assert ProcessData(data, parse) == ShortPacket(vs);
    ShortPacketTopics(vs);
  }
}
