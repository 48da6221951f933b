/**
 * The alarm cycler: alert topics report 1 (fault) or anything else (clear);
 * each faulting topic is given a fixed status number on first fault, and a
 * one-second tick cycles the status topic through the active alerts, or
 * reports 0 once when none is active.
 */
module Alarms {
  import opened Wrappers

  /**
   * The cycler's globals: status numbers by topic, the active alerts in
   * arrival order, the round-robin counter, and whether 0 was already sent
   * for the current alert-free stretch.
   */
  datatype Alarms = Alarms(status: map<string, nat>, active: seq<string>, index: nat, noAlertsSent: bool)

  /** The published value that means "no alert". */
  const AllClear: nat := 0

  const Initial: Alarms := Alarms(map[], [], 0, false)

  predicate NoDuplicates(s: seq<string>) {
    forall i, j :: 0 <= i < j < |s| ==> s[i] != s[j]
  }

  /**
   * What every reachable cycler state satisfies: no alert listed twice, every
   * listed alert has a status number, and the numbers are distinct and are
   * exactly 1..n for n numbered topics.
   */
  ghost predicate Valid(a: Alarms) {
    && NoDuplicates(a.active)
    && (forall t :: t in a.active ==> t in a.status)
    && (forall t :: t in a.status ==> 1 <= a.status[t] <= |a.status|)
    && (forall t, u :: t in a.status && u in a.status && t != u ==> a.status[t] != a.status[u])
    && Dense(a.status)
  }

  /** Every number from 1 to the number of topics is in use. */
  ghost predicate Dense(status: map<string, nat>) {
    forall k :: 1 <= k <= |status| ==> k in status.Values
  }

  lemma InitialValid()
    ensures Valid(Initial)
  {
  }

  /** The position of the first occurrence of `x`. */
  function IndexOf(s: seq<string>, x: string): (i: nat)
    requires x in s
    ensures i < |s| && s[i] == x && x !in s[..i]
  {
    if s[0] == x then 0
    else
      var i := IndexOf(s[1..], x) + 1;
      assert s[..i] == [s[0]] + s[1..][..i - 1];
      i
  }

  /** Python's `list.remove(x)` for an `x` known to be present: drops its first occurrence. */
  function RemoveFirst(s: seq<string>, x: string): (r: seq<string>)
    requires x in s
    ensures |r| == |s| - 1
  {
    var i := IndexOf(s, x);
    s[..i] + s[i + 1..]
  }

  /** Removing one element from a list without duplicates removes exactly that element, keeping the order of the rest. */
  lemma RemoveFirstMembers(s: seq<string>, x: string)
    requires x in s && NoDuplicates(s)
    ensures NoDuplicates(RemoveFirst(s, x))
    ensures forall j :: 0 <= j < |RemoveFirst(s, x)| ==>
      RemoveFirst(s, x)[j] == s[if j < IndexOf(s, x) then j else j + 1]
    ensures forall t :: t in RemoveFirst(s, x) <==> t in s && t != x
  {
    var r := RemoveFirst(s, x);
    var i := IndexOf(s, x);
    assert forall j :: 0 <= j < |r| ==> r[j] == s[if j < i then j else j + 1];
    forall t | t in r
      ensures t in s && t != x
    {
      var j :| 0 <= j < |r| && r[j] == t;
      assert s[if j < i then j else j + 1] == t;
    }
    forall t | t in s && t != x
      ensures t in r
    {
      var j :| 0 <= j < |s| && s[j] == t;
      assert r[if j < i then j else j - 1] == t;
    }
  }

  /** Giving a new topic the next number keeps the numbers exactly 1..n. */
  lemma NumberNewTopic(status: map<string, nat>, topic: string)
    requires topic !in status
    requires Dense(status)
    ensures Dense(status[topic := |status| + 1])
    ensures |status[topic := |status| + 1]| == |status| + 1
  {
    var m := status[topic := |status| + 1];
    forall k | 1 <= k <= |status| + 1
      ensures k in m.Values
    {
      if k <= |status| {
        assert k in status.Values;
        var t :| t in status && status[t] == k;
        assert m[t] == k;
      } else {
        assert m[topic] == k;
      }
    }
  }

  /**
   * `on_message`. The payload has already been through `round(float(...))`;
   * `None` means it was not a number and is ignored.
   */
  function OnMessage(a: Alarms, topic: string, payload: Option<int>): (b: Alarms)
    ensures payload.None? ==> b == a
    ensures b.index == a.index && b.noAlertsSent == a.noAlertsSent
    ensures forall t :: t in a.status ==> t in b.status && b.status[t] == a.status[t]
    ensures payload == Some(1) ==> topic in b.status && topic in b.active
    ensures payload == Some(1) && topic !in a.status ==> b.status == a.status[topic := |a.status| + 1]
    ensures payload == Some(1) && topic in a.active ==> b.active == a.active
    ensures payload == Some(1) && topic !in a.active ==> b.active == a.active + [topic]
    ensures payload.Some? && payload.value != 1 ==>
      && b.status == a.status
      && (topic !in a.active ==> b.active == a.active)
      && (NoDuplicates(a.active) ==> forall t :: t in b.active <==> t in a.active && t != topic)
    ensures Valid(a) ==> Valid(b)
  {
    match payload
    case None => a
    case Some(v) =>
      if v == 1 then
        var status := if topic !in a.status then a.status[topic := |a.status| + 1] else a.status;
        var active := if topic !in a.active then a.active + [topic] else a.active;
        var b := a.(status := status, active := active);
        assert Valid(a) ==> Valid(b) by {
          if Valid(a) && topic !in a.status {
            NumberNewTopic(a.status, topic);
          }
        }
        b
      else if topic in a.active then
        var b := a.(active := RemoveFirst(a.active, topic));
        assert NoDuplicates(a.active) ==> forall t :: t in b.active <==> t in a.active && t != topic by {
          if NoDuplicates(a.active) {
            RemoveFirstMembers(a.active, topic);
          }
        }
        assert Valid(a) ==> Valid(b) by {
          if Valid(a) {
            RemoveFirstMembers(a.active, topic);
          }
        }
        b
      else
        a
  }

  /** One pass of the `main` loop: the cycler state after it and what it published. */
  datatype Tick = Tick(next: Alarms, published: seq<nat>)

  /**
   * One pass of the `main` loop. With alerts active, the next one in
   * round-robin order has its status number published; with none, 0 is
   * published only if it was not already sent.
   */
  function OnTick(a: Alarms): (r: Tick)
    requires Valid(a)
    ensures Valid(r.next)
    ensures r.next.status == a.status && r.next.active == a.active
    ensures |a.active| > 0 ==>
      && r.published == [a.status[a.active[a.index % |a.active|]]]
      && r.published[0] != AllClear
      && r.next.index == a.index + 1 && !r.next.noAlertsSent
    ensures |a.active| == 0 ==>
      && r.next.index == a.index && r.next.noAlertsSent
      && (r.published == [AllClear] <==> !a.noAlertsSent)
      && (r.published == [] <==> a.noAlertsSent)
  {
    if |a.active| > 0 then
      var topic := a.active[a.index % |a.active|];
      Tick(a.(index := a.index + 1, noAlertsSent := false), [a.status[topic]])
    else if !a.noAlertsSent then
      Tick(a.(noAlertsSent := true), [AllClear])
    else
      Tick(a, [])
  }

  /** The two threads' events, interleaved: a message on an alert topic, or a tick of the loop. */
  datatype Event = Message(topic: string, payload: Option<int>) | TickEvent

  /** Runs a sequence of events, collecting everything published. */
  function Run(a: Alarms, events: seq<Event>): (r: Tick)
    requires Valid(a)
    ensures Valid(r.next)
    decreases |events|
  {
    if |events| == 0 then Tick(a, [])
    else
      match events[0]
      case Message(topic, payload) => Run(OnMessage(a, topic, payload), events[1..])
      case TickEvent =>
        var t := OnTick(a);
        var rest := Run(t.next, events[1..]);
        Tick(rest.next, t.published + rest.published)
  }

  predicate Raises(e: Event) {
    e.Message? && e.payload == Some(1)
  }

  /**
   * During a stretch with no alert active and no alert raised, the status
   * topic gets at most one 0 and nothing else, and none at all if 0 was
   * already sent.
   */
  lemma {:induction false} AllClearSentOnce(a: Alarms, events: seq<Event>)
    requires Valid(a) && |a.active| == 0
    requires forall i :: 0 <= i < |events| ==> !Raises(events[i])
    ensures |Run(a, events).next.active| == 0
    ensures Run(a, events).published == [] || Run(a, events).published == [AllClear]
    ensures a.noAlertsSent ==> Run(a, events).published == []
    decreases |events|
  {
    if |events| > 0 {
      var rest := events[1..];
      assert forall i :: 0 <= i < |rest| ==> !Raises(rest[i]) by {
        forall i | 0 <= i < |rest| ensures !Raises(rest[i]) { assert rest[i] == events[i + 1]; }
      }
      match events[0]
      case Message(topic, payload) =>
        assert !Raises(events[0]);
        AllClearSentOnce(OnMessage(a, topic, payload), rest);
      case TickEvent =>
        AllClearSentOnce(OnTick(a).next, rest);
    }
  }
}
