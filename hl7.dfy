/**
 * Assembly of the observation message the client writes for each new
 * breath (`generate_and_save_hl7_message`, up to the joined text). The
 * layout imitates an HL7 Version 2.4 ORU^R01 message: four fixed header
 * segments (MSH, PID, ORC, OBR) and then one OBX segment per projected
 * parameter that has a non-blank value, numbered from 1 without gaps, in
 * the order of the projection table. Segments are joined with "\n".
 *
 * The timestamp and the patient id are parameters: the client reads the
 * clock and a configuration constant.
 */
module Hl7 {
  import opened Protocol
  import opened Text
  import opened Tables
  import opened Decoder

  // ---------------------------------------------------------------------
  // Finding a parameter's value

  /**
   * The value stored under `name` in some group: the client walks the
   * groups and takes the first that has the name. When names are unique
   * across groups, as in every state the decoder produces, the group
   * walked first does not matter (`FindValueOwner`).
   */
  ghost function FindValue(data: Snapshot, name: string): Option<string>
  {
    if exists g :: g in data && name in data[g] then
      var g :| g in data && name in data[g];
      Some(data[g][name])
    else None
  }

  /** A value is found exactly when some group holds the name, and it is that group's value. */
  lemma FindValueFound(data: Snapshot, name: string)
    ensures FindValue(data, name).Some? <==> exists g :: g in data && name in data[g]
    ensures FindValue(data, name).Some? ==>
              exists g :: g in data && name in data[g] && data[g][name] == FindValue(data, name).value
  {
  }

  /** No parameter name is stored under two groups. */
  ghost predicate UniqueNames(data: Snapshot)
  {
    forall g1, g2, name :: g1 in data && g2 in data && name in data[g1] && name in data[g2] ==> g1 == g2
  }

  /** The decoder's state has unique names, because the tables give each name one group. */
  lemma WellFormedNamesUnique(data: Snapshot)
    requires WellFormed(data)
    ensures UniqueNames(data)
  {
    forall g1, g2, name | g1 in data && g2 in data && name in data[g1] && name in data[g2]
      ensures g1 == g2
    {
      ParameterNamesUnique(g1, g2, name);
    }
  }

  /** With unique names, the value found is the one of the group that holds the name. */
  lemma FindValueOwner(data: Snapshot, g: string, name: string)
    requires UniqueNames(data) && g in data && name in data[g]
    ensures FindValue(data, name) == Some(data[g][name])
  {
    FindValueFound(data, name);
    var r := FindValue(data, name);
    var g' :| g' in data && name in data[g'] && data[g'][name] == r.value;
  }

  /** The inner loop of the message builder: look `name` up group by group, stopping at the first hit. */
  method FindValueIn(data: Snapshot, name: string) returns (value: Option<string>)
    requires UniqueNames(data)
    ensures value == FindValue(data, name)
  {
    value := None;
    var groups := data.Keys;
    while groups != {} && value.None?
      invariant groups <= data.Keys
      invariant value.None? ==> forall g :: g in data && g !in groups ==> name !in data[g]
      invariant value.Some? ==> exists g :: g in data && name in data[g] && data[g][name] == value.value
      decreases |groups|
    {
      var g :| g in groups;
      if name in data[g] {
        value := Some(data[g][name]);
      }
      groups := groups - {g};
    }
    FindValueFound(data, name);
    if value.Some? {
      var g :| g in data && name in data[g] && data[g][name] == value.value;
      FindValueOwner(data, g, name);
    }
  }

  // ---------------------------------------------------------------------
  // Observations

  /** `value is not None and value.strip() != ''`. */
  predicate IsReportable(value: Option<string>)
  {
    value.Some? && Strip(value.value) != ""
  }

  /**
   * The (HL7 key, value) pairs reported for the entries of a projection
   * table: one per entry whose parameter has a reportable value, in table
   * order.
   */
  ghost function Observed(data: Snapshot, table: seq<(string, string)>): (obs: seq<(string, string)>)
    ensures |obs| <= |table|
  {
    if table == [] then []
    else
      var entry := table[|table| - 1];
      var value := FindValue(data, entry.0);
      Observed(data, table[..|table| - 1]) + (if IsReportable(value) then [(entry.1, value.value)] else [])
  }

  /** One OBX segment: its set id, the observation identifier and the value. */
  function ObxSegment(index: nat, identifier: string, value: string): string
  {
    "OBX|" + DecimalString(index) + "||" + identifier + "||" + value
  }

  /**
   * The OBX segments for the reported (key, value) pairs, numbered from 1,
   * each key replaced by its identifier in the table `ids`.
   */
  function ObxSegments(ids: seq<(string, string)>, obs: seq<(string, string)>): seq<string>
  {
    if obs == [] then []
    else
      var last := obs[|obs| - 1];
      ObxSegments(ids, obs[..|obs| - 1]) + [ObxSegment(|obs|, IdentifierIn(ids, last.0), last.1)]
  }

  // ---------------------------------------------------------------------
  // The message

  /** The MSH segment: sending application HAMILTON_VENT, message type ORU^R01, version 2.4. */
  function MshSegment(timestamp: string): string
  {
    "MSH|^~\\&|HAMILTON_VENT||||" + timestamp + "||ORU^R01^ORU_R01|" + timestamp + "|P|2.4|||||||||"
  }

  /** The PID segment carrying the configured patient id. */
  function PidSegment(patientId: string): string
  {
    "PID|||" + patientId
  }

  /** The fixed ORC segment: a new order placed by Hamilton_Ventilator. */
  const OrcSegment: string := "ORC|NW|||||||||||||||||Hamilton_Ventilator"

  /** The OBR segment with the observation time. */
  function ObrSegment(timestamp: string): string
  {
    "OBR|||||||" + timestamp + "||||||||||||||||||||||||||||"
  }

  function Headers(timestamp: string, patientId: string): seq<string>
  {
    [MshSegment(timestamp), PidSegment(patientId), OrcSegment, ObrSegment(timestamp)]
  }

  /** `'\n'.join(lines)`. */
  function JoinLines(lines: seq<string>): string
  {
    if lines == [] then ""
    else if |lines| == 1 then lines[0]
    else JoinLines(lines[..|lines| - 1]) + "\n" + lines[|lines| - 1]
  }

  /** Lines without line breaks of their own are joined with exactly one break between neighbours. */
  lemma {:induction false} JoinLinesBreaks(lines: seq<string>)
    requires lines != []
    requires forall k :: 0 <= k < |lines| ==> '\n' !in lines[k]
    ensures multiset(JoinLines(lines))['\n'] == |lines| - 1
  {
    if |lines| > 1 {
      var init := lines[..|lines| - 1];
      var last := lines[|lines| - 1];
      JoinLinesBreaks(init);
      assert multiset(last)['\n'] == 0;
      assert JoinLines(lines) == JoinLines(init) + "\n" + last;
    } else {
      assert JoinLines(lines) == lines[0];
      assert multiset(lines[0])['\n'] == 0;
    }
  }

  /** The message text for a state, or nothing for an empty state. */
  ghost function Message(data: Snapshot, timestamp: string, patientId: string): Option<string>
  {
    if data == map[] then None
    else Some(JoinLines(Headers(timestamp, patientId) + ObxSegments(Hl7Identifiers, Observed(data, VentilatorToHl7))))
  }

  /**
   * `generate_and_save_hl7_message` up to the joined text: nothing for an
   * empty state, otherwise the headers followed by the OBX segments.
   */
  method BuildMessage(data: Snapshot, timestamp: string, patientId: string) returns (msg: Option<string>)
    requires WellFormed(data)
    ensures msg == Message(data, timestamp, patientId)
  {
    if data == map[] {
      return None;
    }
    WellFormedNamesUnique(data);
    var messageParts := AppendObservations(data, VentilatorToHl7, Hl7Identifiers, Headers(timestamp, patientId));
    msg := Some(JoinLines(messageParts));
  }

  /**
   * The OBX loop of the message builder: for each entry of the projection
   * table, look its parameter up and, when the value is reportable, append
   * a segment with the running set id.
   */
  method AppendObservations(data: Snapshot, table: seq<(string, string)>, ids: seq<(string, string)>, start: seq<string>)
    returns (parts: seq<string>)
    requires UniqueNames(data)
    ensures parts == start + ObxSegments(ids, Observed(data, table))
  {
    parts := start;
    var obxIndex := 1;
    var i := 0;
    ghost var obs: seq<(string, string)> := [];
    while i < |table|
      invariant 0 <= i <= |table|
      invariant obs == Observed(data, table[..i])
      invariant parts == start + ObxSegments(ids, obs)
      invariant obxIndex == |obs| + 1
    {
      var name := table[i].0;
      var key := table[i].1;
      var value := FindValueIn(data, name);
      SegmentsGrow(data, table, ids, start, i);
      if IsReportable(value) {
        var obxIdentifier := IdentifierIn(ids, key);
        parts := parts + [ObxSegment(obxIndex, obxIdentifier, value.value)];
        obxIndex := obxIndex + 1;
      }
      obs := Observed(data, table[..i + 1]);
      i := i + 1;
    }
    assert table[..i] == table;
  }

  /**
   * One more table entry appends the next numbered segment to the message
   * parts when its value is reportable, and nothing otherwise.
   */
  lemma SegmentsGrow(data: Snapshot, table: seq<(string, string)>, ids: seq<(string, string)>, start: seq<string>, i: nat)
    requires i < |table|
    ensures var obs := Observed(data, table[..i]);
            var value := FindValue(data, table[i].0);
            if IsReportable(value) then
              && |Observed(data, table[..i + 1])| == |obs| + 1
              && start + ObxSegments(ids, Observed(data, table[..i + 1]))
                 == start + ObxSegments(ids, obs) + [ObxSegment(|obs| + 1, IdentifierIn(ids, table[i].1), value.value)]
            else Observed(data, table[..i + 1]) == obs
  {
    var obs := Observed(data, table[..i]);
    var value := FindValue(data, table[i].0);
    ObservedStep(data, table, i);
    if IsReportable(value) {
      var x := (table[i].1, value.value);
      ObxSegmentsSnoc(ids, obs, x);
      assert start + ObxSegments(ids, obs + [x]) == start + ObxSegments(ids, obs) + [ObxSegment(|obs| + 1, IdentifierIn(ids, x.0), x.1)];
    } else {
      assert obs + [] == obs;
    }
  }

  /** Extending the table by one entry adds at most that entry's pair. */
  lemma ObservedStep(data: Snapshot, table: seq<(string, string)>, i: nat)
    requires i < |table|
    ensures Observed(data, table[..i + 1])
         == Observed(data, table[..i])
            + (if IsReportable(FindValue(data, table[i].0)) then [(table[i].1, FindValue(data, table[i].0).value)] else [])
  {
    assert table[..i + 1][..i] == table[..i];
  }

  /** The next OBX segment gets the next set id. */
  lemma ObxSegmentsSnoc(ids: seq<(string, string)>, obs: seq<(string, string)>, x: (string, string))
    ensures ObxSegments(ids, obs + [x]) == ObxSegments(ids, obs) + [ObxSegment(|obs| + 1, IdentifierIn(ids, x.0), x.1)]
  {
    assert (obs + [x])[..|obs|] == obs;
  }

  // ---------------------------------------------------------------------
  // Properties of the message

  /** OBX set ids run 1, 2, ..., k, one segment per reported pair, in the order of the pairs. */
  lemma {:induction false} ObxSegmentsNumbered(ids: seq<(string, string)>, obs: seq<(string, string)>)
    ensures |ObxSegments(ids, obs)| == |obs|
    ensures forall k :: 0 <= k < |obs| ==>
              ObxSegments(ids, obs)[k] == ObxSegment(k + 1, IdentifierIn(ids, obs[k].0), obs[k].1)
  {
    if obs != [] {
      var n := |obs| - 1;
      var init := obs[..n];
      ObxSegmentsNumbered(ids, init);
      var segments := ObxSegments(ids, obs);
      assert segments == ObxSegments(ids, init) + [ObxSegment(n + 1, IdentifierIn(ids, obs[n].0), obs[n].1)];
      forall k | 0 <= k < |obs|
        ensures segments[k] == ObxSegment(k + 1, IdentifierIn(ids, obs[k].0), obs[k].1)
      {
        if k < n {
          assert obs[k] == init[k];
        }
      }
    }
  }

  /** The pairs for two tables one after the other are the pairs of each, in that order. */
  lemma {:induction false} ObservedAppend(data: Snapshot, a: seq<(string, string)>, b: seq<(string, string)>)
    ensures Observed(data, a + b) == Observed(data, a) + Observed(data, b)
    decreases |b|
  {
    if b == [] {
      assert a + b == a;
    } else {
      var b' := b[..|b| - 1];
      var last := b[|b| - 1];
      ObservedAppend(data, a, b');
      assert (a + b)[..|a + b| - 1] == a + b';
      assert (a + b)[|a + b| - 1] == last;
    }
  }

  /** `pair` is what `entry` of a projection table reports: its HL7 key and its reportable value. */
  ghost predicate Reports(data: Snapshot, entry: (string, string), pair: (string, string))
  {
    pair.0 == entry.1 && FindValue(data, entry.0) == Some(pair.1) && Strip(pair.1) != ""
  }

  /** Every reported pair comes from an entry of the table whose parameter has that reportable value. */
  lemma {:induction false} ObservedSound(data: Snapshot, table: seq<(string, string)>)
    ensures forall k :: 0 <= k < |Observed(data, table)| ==>
              exists i :: 0 <= i < |table| && Reports(data, table[i], Observed(data, table)[k])
  {
    if table != [] {
      var n := |table| - 1;
      ObservedSound(data, table[..n]);
      ObservedStep(data, table, n);
      assert table[..n + 1] == table;
      var obs := Observed(data, table);
      var init := Observed(data, table[..n]);
      forall k | 0 <= k < |obs|
        ensures exists i :: 0 <= i < |table| && Reports(data, table[i], obs[k])
      {
        if k < |init| {
          assert obs[k] == init[k];
          var i :| 0 <= i < n && Reports(data, table[..n][i], init[k]);
          assert table[..n][i] == table[i];
          assert Reports(data, table[i], obs[k]);
        } else {
          assert Reports(data, table[n], obs[k]);
        }
      }
      assert forall k :: 0 <= k < |Observed(data, table)| ==>
              exists i :: 0 <= i < |table| && Reports(data, table[i], Observed(data, table)[k]);
    } else {
      assert |Observed(data, table)| == 0;
    }
  }

  /**
   * An entry whose parameter has a reportable value is reported, right
   * after the pairs of the entries before it.
   */
  lemma ObservedComplete(data: Snapshot, table: seq<(string, string)>, i: nat)
    requires i < |table| && IsReportable(FindValue(data, table[i].0))
    ensures var at := |Observed(data, table[..i])|;
            at < |Observed(data, table)| && Observed(data, table)[at] == (table[i].1, FindValue(data, table[i].0).value)
  {
    ObservedStep(data, table, i);
    ObservedAppend(data, table[..i + 1], table[i + 1..]);
    assert table[..i + 1] + table[i + 1..] == table;
  }

  /** Entries whose parameters hold the same values report the same pairs. */
  lemma {:induction false} ObservedDependsOnValues(data: Snapshot, data': Snapshot, table: seq<(string, string)>)
    requires forall i :: 0 <= i < |table| ==> FindValue(data', table[i].0) == FindValue(data, table[i].0)
    ensures Observed(data', table) == Observed(data, table)
  {
    if table != [] {
      var n := |table| - 1;
      assert forall i :: 0 <= i < n ==> table[..n][i] == table[i];
      ObservedDependsOnValues(data, data', table[..n]);
    }
  }

  /** With unique names, a name whose entries agree in every group is found with the same value. */
  lemma FindValueSameEntries(data: Snapshot, data': Snapshot, name: string)
    requires UniqueNames(data) && UniqueNames(data')
    requires forall g :: Lookup(data', g, name) == Lookup(data, g, name)
    ensures FindValue(data', name) == FindValue(data, name)
  {
    FindValueFound(data, name);
    FindValueFound(data', name);
    if FindValue(data, name).Some? {
      var g :| g in data && name in data[g] && data[g][name] == FindValue(data, name).value;
      assert Lookup(data', g, name) == Lookup(data, g, name);
      FindValueOwner(data, g, name);
      FindValueOwner(data', g, name);
    } else {
      forall g | g in data' ensures name !in data'[g] {
        assert Lookup(data', g, name) == Lookup(data, g, name);
      }
    }
  }

  /**
   * A new breath number alone never changes the message: "Breath Number"
   * is stored but has no OBX segment.
   */
  lemma BreathNumberNeverObserved(data: Snapshot, breath: string, timestamp: string, patientId: string)
    requires WellFormed(data) && IsCleanValue(breath) && data != map[]
    ensures Message(Put(data, MonitoredParameters, BreathNumber, breath), timestamp, patientId)
         == Message(data, timestamp, patientId)
  {
    var data' := Put(data, MonitoredParameters, BreathNumber, breath);
    BreathNumberIsKnown();
    PutPreservesWellFormed(data, MonitoredParameters, BreathNumber, breath);
    WellFormedNamesUnique(data);
    WellFormedNamesUnique(data');
    forall i | 0 <= i < |VentilatorToHl7|
      ensures FindValue(data', VentilatorToHl7[i].0) == FindValue(data, VentilatorToHl7[i].0)
    {
      BreathNumberNotProjected(i);
      FindValueSameEntries(data, data', VentilatorToHl7[i].0);
    }
    ObservedDependsOnValues(data, data', VentilatorToHl7);
  }

  /**
   * The shape of the message: nothing for an empty state; otherwise the
   * four headers and then at most twelve OBX segments, numbered 1..k in
   * projection order, each carrying the identifier the identifier table
   * pairs with its key (never the placeholder).
   */
  lemma MessageShape(data: Snapshot, timestamp: string, patientId: string)
    ensures Message(data, timestamp, patientId).None? <==> data == map[]
    ensures var obs := Observed(data, VentilatorToHl7);
      var segments := ObxSegments(Hl7Identifiers, obs);
      && |obs| <= 12
      && |segments| == |obs|
      && (forall k :: 0 <= k < |obs| ==> segments[k] == ObxSegment(k + 1, IdentifierIn(Hl7Identifiers, obs[k].0), obs[k].1))
      && (forall k :: 0 <= k < |obs| ==>
            exists j :: 0 <= j < |Hl7Identifiers| && Hl7Identifiers[j] == (obs[k].0, IdentifierIn(Hl7Identifiers, obs[k].0)))
  {
    var obs := Observed(data, VentilatorToHl7);
    ObxSegmentsNumbered(Hl7Identifiers, obs);
    ObservedSound(data, VentilatorToHl7);
    forall k | 0 <= k < |obs|
      ensures exists j :: 0 <= j < |Hl7Identifiers| && Hl7Identifiers[j] == (obs[k].0, IdentifierIn(Hl7Identifiers, obs[k].0))
    {
      var i :| 0 <= i < |VentilatorToHl7| && Reports(data, VentilatorToHl7[i], obs[k]);
      EveryKeyHasIdentifier(i);
      IdentifierInTable(Hl7Identifiers, obs[k].0);
    }
  }
}
