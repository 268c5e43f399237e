/**
 * The client's constant lookup tables: group ids, parameter ids per group,
 * and the projection of ventilator parameter names onto HL7 keys and OBX
 * identifiers. They are never changed at run time.
 */
module Tables {
  import opened Protocol

  const MonitoredParameters: string := "Monitored Parameters"
  const ControlSettings: string := "Control Settings"
  const BreathNumber: string := "Breath Number"

  /** Group id -> group name. */
  const GroupIds: map<int, string> := map[
    0x40 := "Identifications",
    0x41 := "SW-Versions",
    0x50 := MonitoredParameters,
    0x60 := "Active Alarms",
    0x70 := ControlSettings
  ]

  /** Parameter ids, per group name, that the client understands. */
  const MonitoredParameterIds: map<int, string> := map[
    0x20 := BreathNumber,
    0x21 := "P max",
    0x22 := "P Plateau",
    0x23 := "P mean",
    0x24 := "PEEP/CPAP",
    0x25 := "P min",
    0x2C := "Exp. Volume",
    0x2E := "Vexp/min",
    0x30 := "f total",
    0x34 := "I:E ratio",
    0x37 := "Compliance",
    0x3E := "Oxygen",
    0x4E := "Pulse",
    0x4F := "SpO2"
  ]

  const ControlSettingIds: map<int, string> := map[0x22 := "Mode Name"]

  const ParameterMap: map<string, map<int, string>> := map[
    MonitoredParameters := MonitoredParameterIds,
    ControlSettings := ControlSettingIds
  ]

  /** `GROUP_IDS.get(group_id)`; Python reads a byte of the chunk as an `int`. */
  function GroupName(id: byte): Option<string>
  {
    if id as int in GroupIds then Some(GroupIds[id as int]) else None
  }

  /** `PARAMETER_MAP.get(group_name, {}).get(param_id)`. */
  function ParameterName(group: string, id: byte): Option<string>
  {
    if group in ParameterMap && id as int in ParameterMap[group] then Some(ParameterMap[group][id as int]) else None
  }

  /**
   * Ventilator parameter name -> HL7 key, in the dictionary's insertion order,
   * which is the order of the OBX segments.
   */
  const VentilatorToHl7: seq<(string, string)> := [
    ("P max", "MPAP"),
    ("P mean", "MEAP"),
    ("P min", "MIAP"),
    ("PEEP/CPAP", "PEEP"),
    ("Exp. Volume", "TDLV"),
    ("Vexp/min", "EXPM"),
    ("f total", "RRM"),
    ("I:E ratio", "IER"),
    ("Oxygen", "FIO2"),
    ("SpO2", "SAT"),
    ("Pulse", "HR"),
    ("Mode Name", "VENM")
  ]

  /**
   * HL7 key -> OBX observation identifier (code^description), as pairs
   * with distinct keys, listed in the order of the projection table.
   */
  const Hl7Identifiers: seq<(string, string)> := [
    ("MPAP", "3002-3^Maximum Positive Airway Pressure"),
    ("MEAP", "3002-6^Mean airway pressure"),
    ("MIAP", "3002-2^Minimum Airway Pressure"),
    ("PEEP", "3005-4^PEEP"),
    ("TDLV", "LP73863-0^Tidal Volume Expired"),
    ("EXPM", "76008-2^EXP - Minute Volume"),
    ("RRM", "9279-2^Respiratory_Rate"),
    ("IER", "3008-1^I:E Ratio"),
    ("FIO2", "3008-7^FIO2"),
    ("SAT", "59408-5^oxygen_saturation"),
    ("HR", "8867-4^HR_Pulse"),
    ("VENM", "3008-3^Ventilation Mode")
  ]

  /**
   * `ids.get(key, f'^^^^^{key}')` for a table of (HL7 key, identifier)
   * pairs: the identifier of the first pair with that key, or the
   * placeholder built from the key.
   */
  function IdentifierIn(ids: seq<(string, string)>, key: string): string
  {
    if ids == [] then "^^^^^" + key
    else if ids[0].0 == key then ids[0].1
    else IdentifierIn(ids[1..], key)
  }

  /** A key of the table gets the identifier paired with it; any other key gets the placeholder. */
  lemma {:induction false} IdentifierInTable(ids: seq<(string, string)>, key: string)
    ensures (exists j :: 0 <= j < |ids| && ids[j].0 == key) ==>
              exists j :: 0 <= j < |ids| && ids[j] == (key, IdentifierIn(ids, key))
    ensures (forall j :: 0 <= j < |ids| ==> ids[j].0 != key) ==> IdentifierIn(ids, key) == "^^^^^" + key
  {
    if ids != [] && ids[0].0 != key {
      IdentifierInTable(ids[1..], key);
      assert forall j :: 1 <= j < |ids| ==> ids[j] == ids[1..][j - 1];
      if exists j :: 0 <= j < |ids| && ids[j].0 == key {
        var j :| 0 <= j < |ids| && ids[j].0 == key;
        assert ids[1..][j - 1].0 == key;
      }
    }
  }

  /** A (group, parameter) pair the decoder can store. */
  predicate IsKnownParameter(group: string, name: string)
  {
    group in ParameterMap && name in ParameterMap[group].Values
  }

  /** Parameter names are unique across groups: a name belongs to at most one group. */
  lemma ParameterNamesUnique(g1: string, g2: string, name: string)
    requires IsKnownParameter(g1, name) && IsKnownParameter(g2, name)
    ensures g1 == g2
  {
    forall id | id in ControlSettingIds ensures ControlSettingIds[id] == "Mode Name" {
      assert id == 0x22;
    }
    forall id | id in MonitoredParameterIds ensures MonitoredParameterIds[id] != "Mode Name" {
      assert id in {0x20, 0x21, 0x22, 0x23, 0x24, 0x25, 0x2C, 0x2E, 0x30, 0x34, 0x37, 0x3E, 0x4E, 0x4F};
    }
  }

  /** The decoder stores "Breath Number" under "Monitored Parameters". */
  lemma BreathNumberIsKnown()
    ensures IsKnownParameter(MonitoredParameters, BreathNumber)
  {
    assert MonitoredParameterIds[0x20] == BreathNumber;
  }

  /** Group id 0x50 names "Monitored Parameters", and its parameter id 0x20 names "Breath Number". */
  lemma BreathNumberIds()
    ensures GroupName(0x50) == Some(MonitoredParameters)
    ensures ParameterName(MonitoredParameters, 0x20) == Some(BreathNumber)
  {
    assert GroupIds[0x50] == MonitoredParameters;
    assert MonitoredParameterIds[0x20] == BreathNumber;
  }

  /** "Breath Number" is stored by the decoder but never projected onto an OBX segment. */
  lemma BreathNumberNotProjected(i: nat)
    requires i < |VentilatorToHl7|
    ensures VentilatorToHl7[i].0 != BreathNumber
  {
  }

  /**
   * Every HL7 key of the projection has an identifier, so the placeholder
   * is never used: the identifier table lists the keys in projection order.
   */
  lemma EveryKeyHasIdentifier(i: nat)
    requires i < |VentilatorToHl7|
    ensures Hl7Identifiers[i].0 == VentilatorToHl7[i].1
  {
  }

  /** The projection names each ventilator parameter once. */
  lemma ProjectionNamesDistinct(i: nat, j: nat)
    requires i < j < |VentilatorToHl7|
    ensures VentilatorToHl7[i].0 != VentilatorToHl7[j].0
  {
  }
}
