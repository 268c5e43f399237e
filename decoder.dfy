/**
 * The parameter decoder and the long-lived ventilator state
 * (`parse_packet_and_trigger_hl7` and the `ventilator_data` dictionary).
 *
 * The decoder input is split on VT into chunks `group id | parameter id |
 * ASCII value`. Each chunk whose ids resolve through the tables writes its
 * trimmed value into the state. Afterwards the "Breath Number" of the
 * "Monitored Parameters" group is compared with its value before the pass.
 */
module Decoder {
  import opened Protocol
  import opened Text
  import opened Tables

  /** Group name -> parameter name -> latest value. */
  type Snapshot = map<string, map<string, string>>

  // ---------------------------------------------------------------------
  // Splitting into chunks

  /** `sep.join(parts)`. */
  function JoinOn(parts: seq<seq<byte>>, sep: byte): seq<byte>
    requires |parts| >= 1
  {
    if |parts| == 1 then parts[0] else parts[0] + [sep] + JoinOn(parts[1..], sep)
  }

  /** `s.split(sep)`: the pieces between separators, empty pieces included. */
  function SplitOn(s: seq<byte>, sep: byte): (parts: seq<seq<byte>>)
    ensures |parts| >= 1
    ensures forall k :: 0 <= k < |parts| ==> sep !in parts[k]
    ensures JoinOn(parts, sep) == s
    decreases |s|
  {
    match Find(s, sep, 0)
    case None => [s]
    case Some(i) =>
      var rest := SplitOn(s[i + 1..], sep);
      assert ([s[..i]] + rest)[1..] == rest;
      assert s == s[..i] + [sep] + s[i + 1..];
      [s[..i]] + rest
  }

  /** Splitting undoes joining pieces that contain no separator. */
  lemma {:induction false} SplitJoin(parts: seq<seq<byte>>, sep: byte)
    requires |parts| >= 1
    requires forall k :: 0 <= k < |parts| ==> sep !in parts[k]
    ensures SplitOn(JoinOn(parts, sep), sep) == parts
    decreases |parts|
  {
    var s := JoinOn(parts, sep);
    if |parts| == 1 {
      assert Find(s, sep, 0).None?;
    } else {
      var head := parts[0];
      var tail := JoinOn(parts[1..], sep);
      assert s == head + [sep] + tail;
      assert s[|head|] == sep;
      assert forall k :: 0 <= k < |head| ==> s[k] == head[k] && head[k] != sep;
      assert Find(s, sep, 0) == Some(|head|);
      assert s[..|head|] == head;
      assert s[|head| + 1..] == tail;
      SplitJoin(parts[1..], sep);
      assert [head] + parts[1..] == parts;
    }
  }

  // ---------------------------------------------------------------------
  // One chunk

  /** A stored value: ASCII only, with no whitespace at either end. */
  predicate IsCleanValue(v: string)
  {
    (forall k :: 0 <= k < |v| ==> v[k] < 128 as char)
    && (v == [] || (!IsSpace(v[0]) && !IsSpace(v[|v| - 1])))
  }

  /** `chunk[2:].decode('ascii', errors='ignore').strip()`. */
  function ChunkValue(chunk: seq<byte>): (v: string)
    requires |chunk| >= 2
    ensures IsCleanValue(v)
  {
    var decoded := AsciiDecode(chunk[2..]);
    StripKeepsCharacters(decoded);
    Strip(decoded)
  }

  /** What one chunk does to the state. */
  datatype ChunkEffect =
    | Skip                                      // empty, group end, or unknown ids
    | Abort                                     // `chunk[1]` raises IndexError
    | Store(group: string, name: string, value: string)

  /**
   * The loop body of the decoder for one chunk: skip an empty chunk, fail on
   * a one-byte chunk, skip a group-end marker, resolve the group and then the
   * parameter id, and store the cleaned value.
   */
  function Classify(chunk: seq<byte>): (e: ChunkEffect)
    ensures e.Abort? <==> |chunk| == 1
    ensures e.Store? ==> IsKnownParameter(e.group, e.name) && IsCleanValue(e.value)
  {
    if |chunk| == 0 then Skip
    else if |chunk| == 1 then Abort
    else if chunk[1] == GroupEnd then Skip
    else
      match GroupName(chunk[0])
      case None => Skip
      case Some(group) =>
        match ParameterName(group, chunk[1])
        case None => Skip
        case Some(name) => Store(group, name, ChunkValue(chunk))
  }

  // ---------------------------------------------------------------------
  // The state

  /** `data.get(group, {}).get(name)`. */
  function Lookup(st: Snapshot, group: string, name: string): Option<string>
  {
    if group in st && name in st[group] then Some(st[group][name]) else None
  }

  /** `data.setdefault(group, {})[name] = value`. */
  function Put(st: Snapshot, group: string, name: string, value: string): (r: Snapshot)
    ensures Lookup(r, group, name) == Some(value)
    ensures forall g, n :: (g != group || n != name) ==> Lookup(r, g, n) == Lookup(st, g, n)
    ensures r.Keys == st.Keys + {group}
  {
    var entries := if group in st then st[group] else map[];
    st[group := entries[name := value]]
  }

  /**
   * The state only ever holds parameters the tables know, under their own
   * group, with clean values, and no group without parameters.
   */
  ghost predicate WellFormed(st: Snapshot)
  {
    forall g :: g in st ==>
      st[g] != map[] && forall n :: n in st[g] ==> IsKnownParameter(g, n) && IsCleanValue(st[g][n])
  }

  datatype Pass = Pass(data: Snapshot, completed: bool)

  /** Storing a known parameter with a clean value keeps the state well formed. */
  lemma PutPreservesWellFormed(st: Snapshot, group: string, name: string, value: string)
    requires WellFormed(st) && IsKnownParameter(group, name) && IsCleanValue(value)
    ensures WellFormed(Put(st, group, name, value))
  {
    var r := Put(st, group, name, value);
    forall g | g in r
      ensures r[g] != map[] && forall n :: n in r[g] ==> IsKnownParameter(g, n) && IsCleanValue(r[g][n])
    {
      if g == group {
        assert name in r[g];
      } else {
        assert r[g] == st[g];
      }
    }
  }

  /**
   * One decoder pass over the chunks: each chunk's effect is applied in
   * order, and a one-byte chunk ends the pass early, keeping what earlier
   * chunks stored.
   */
  function ApplyChunks(st: Snapshot, chunks: seq<seq<byte>>): Pass
    decreases |chunks|
  {
    if chunks == [] then Pass(st, true)
    else
      match Classify(chunks[0])
      case Abort => Pass(st, false)
      case Skip => ApplyChunks(st, chunks[1..])
      case Store(g, n, v) => ApplyChunks(Put(st, g, n, v), chunks[1..])
  }

  /** A pass completes exactly when no chunk is a single byte. */
  lemma {:induction false} ApplyChunksCompletes(st: Snapshot, chunks: seq<seq<byte>>)
    ensures ApplyChunks(st, chunks).completed <==> forall k :: 0 <= k < |chunks| ==> |chunks[k]| != 1
    decreases |chunks|
  {
    if chunks != [] {
      var rest := chunks[1..];
      assert forall k :: 1 <= k < |chunks| ==> chunks[k] == rest[k - 1];
      match Classify(chunks[0])
      case Abort =>
      case Skip => ApplyChunksCompletes(st, rest);
      case Store(g, n, v) => ApplyChunksCompletes(Put(st, g, n, v), rest);
    }
  }

  /** A pass keeps the state well formed, whether or not it completes. */
  lemma {:induction false} ApplyChunksWellFormed(st: Snapshot, chunks: seq<seq<byte>>)
    requires WellFormed(st)
    ensures WellFormed(ApplyChunks(st, chunks).data)
    decreases |chunks|
  {
    if chunks != [] {
      match Classify(chunks[0])
      case Abort =>
      case Skip => ApplyChunksWellFormed(st, chunks[1..]);
      case Store(g, n, v) =>
        PutPreservesWellFormed(st, g, n, v);
        ApplyChunksWellFormed(Put(st, g, n, v), chunks[1..]);
    }
  }

  /** The breath number recorded in the state, if any. */
  function BreathNumberOf(st: Snapshot): Option<string>
  {
    Lookup(st, MonitoredParameters, BreathNumber)
  }

  /** A new breath: the breath number is now non-empty and differs from before (absent counts as different). */
  predicate IsNewBreath(before: Option<string>, after: Option<string>)
  {
    after.Some? && after.value != "" && after != before
  }

  datatype Report =
    | Aborted                  // the pass raised IndexError; no breath check
    | Completed(newBreath: bool)

  /** `parse_packet_and_trigger_hl7` on the decoder input `params`: the new state and the breath report. */
  function ParsePacket(st: Snapshot, params: seq<byte>): (Snapshot, Report)
  {
    var pass := ApplyChunks(st, SplitOn(params, VT));
    if pass.completed then (pass.data, Completed(IsNewBreath(BreathNumberOf(st), BreathNumberOf(pass.data))))
    else (pass.data, Aborted)
  }

  /** The `ventilator_data` dictionary that lives across packets. */
  class VentilatorStore {
    var data: Snapshot

    ghost predicate Valid()
      reads this
    {
      WellFormed(data)
    }

    constructor ()
      ensures Valid() && data == map[]
    {
      data := map[];
    }

    /**
     * The decoder's loop body for one chunk: skip an empty chunk, fail on a
     * one-byte chunk, skip a group-end marker, decode the value, resolve the
     * group and then the parameter id, and store the value.
     */
    method ApplyChunk(chunk: seq<byte>) returns (aborted: bool)
      requires Valid()
      modifies this
      ensures Valid()
      ensures aborted <==> |chunk| == 1
      ensures data == if aborted then old(data) else Effect(old(data), Classify(chunk))
    {
      EffectPreservesWellFormed(data, Classify(chunk));
      aborted := false;
      if |chunk| == 0 {
        SkippedChunk(chunk);
      } else if |chunk| == 1 {
        aborted := true;
      } else if chunk[1] == GroupEnd {
        SkippedChunk(chunk);
      } else {
        var value := ChunkValue(chunk);
        var group := GroupName(chunk[0]);
        if group.None? {
          SkippedChunk(chunk);
        } else {
          var name := ParameterName(group.value, chunk[1]);
          if name.None? {
            SkippedChunk(chunk);
          } else {
            StoredChunk(chunk);
            var entries := if group.value in data then data[group.value] else map[];
            data := data[group.value := entries[name.value := value]];
          }
        }
      }
    }

    /**
     * Decode one packet's parameters into the state and report whether a new
     * breath began, which is when the client builds an observation message.
     */
    method Merge(params: seq<byte>) returns (report: Report)
      requires Valid()
      modifies this
      ensures Valid()
      ensures (data, report) == ParsePacket(old(data), params)
    {
      var chunks := SplitOn(params, VT);
      ApplyChunksWellFormed(data, chunks);
      var oldBreath := BreathNumberOf(data);
      var i := 0;
      while i < |chunks|
        invariant 0 <= i <= |chunks|
        invariant Valid()
        invariant ApplyChunks(old(data), chunks) == ApplyChunks(data, chunks[i..])
      {
        ghost var before := data;
        var aborted := ApplyChunk(chunks[i]);
        if aborted {
          AbortStep(before, chunks, i);
          report := Aborted;
          return;
        }
        NextStep(before, chunks, i);
        i := i + 1;
      }
      assert chunks[i..] == [];
      var newBreath := BreathNumberOf(data);
      report := Completed(newBreath.Some? && newBreath.value != "" && newBreath != oldBreath);
    }
  }

  /** A chunk's effect on the state when the pass goes on past it. */
  function Effect(st: Snapshot, e: ChunkEffect): Snapshot
  {
    if e.Store? then Put(st, e.group, e.name, e.value) else st
  }

  /** Applying what a chunk classifies as keeps the state well formed. */
  lemma EffectPreservesWellFormed(st: Snapshot, e: ChunkEffect)
    requires WellFormed(st)
    requires e.Store? ==> IsKnownParameter(e.group, e.name) && IsCleanValue(e.value)
    ensures WellFormed(Effect(st, e))
  {
    if e.Store? {
      PutPreservesWellFormed(st, e.group, e.name, e.value);
    }
  }

  /** Going on past a chunk that is not a single byte. */
  lemma NextStep(st: Snapshot, chunks: seq<seq<byte>>, i: nat)
    requires i < |chunks| && !Classify(chunks[i]).Abort?
    ensures ApplyChunks(st, chunks[i..]) == ApplyChunks(Effect(st, Classify(chunks[i])), chunks[i + 1..])
  {
    assert chunks[i..][0] == chunks[i] && chunks[i..][1..] == chunks[i + 1..];
  }

  /** Stopping at a one-byte chunk. */
  lemma AbortStep(st: Snapshot, chunks: seq<seq<byte>>, i: nat)
    requires i < |chunks| && Classify(chunks[i]).Abort?
    ensures ApplyChunks(st, chunks[i..]) == Pass(st, false)
  {
    assert chunks[i..][0] == chunks[i];
  }

  /** The chunks the decoder passes over without touching the state. */
  lemma SkippedChunk(chunk: seq<byte>)
    requires |chunk| == 0 || (|chunk| >= 2 && (chunk[1] == GroupEnd || GroupName(chunk[0]).None?
                                               || ParameterName(GroupName(chunk[0]).value, chunk[1]).None?))
    ensures Classify(chunk) == Skip
  {
  }

  /** The chunks the decoder stores, and what it stores for them. */
  lemma StoredChunk(chunk: seq<byte>)
    requires |chunk| >= 2 && chunk[1] != GroupEnd && GroupName(chunk[0]).Some?
    requires ParameterName(GroupName(chunk[0]).value, chunk[1]).Some?
    ensures Classify(chunk)
         == Store(GroupName(chunk[0]).value, ParameterName(GroupName(chunk[0]).value, chunk[1]).value, ChunkValue(chunk))
  {
    var g := GroupName(chunk[0]).value;
    var n := ParameterName(g, chunk[1]).value;
    assert GroupName(chunk[0]) == Some(g);
    assert ParameterName(g, chunk[1]) == Some(n);
  }

  // ---------------------------------------------------------------------
  // Properties of a pass

  /** The value the last applied chunk stores under (g, n), if any chunk before the first one-byte chunk does. */
  function LastStored(chunks: seq<seq<byte>>, g: string, n: string): Option<string>
  {
    if chunks == [] then None
    else
      match Classify(chunks[0])
      case Abort => None
      case Skip => LastStored(chunks[1..], g, n)
      case Store(g', n', v) =>
        var later := LastStored(chunks[1..], g, n);
        if later.Some? then later else if g' == g && n' == n then Some(v) else None
  }

  /**
   * After a pass, each entry holds the value the last applied chunk stored
   * for it; an entry no applied chunk names keeps its value.
   */
  lemma {:induction false} PassValue(st: Snapshot, chunks: seq<seq<byte>>, g: string, n: string)
    ensures Lookup(ApplyChunks(st, chunks).data, g, n)
         == if LastStored(chunks, g, n).Some? then LastStored(chunks, g, n) else Lookup(st, g, n)
    decreases |chunks|
  {
    if chunks != [] {
      match Classify(chunks[0])
      case Abort =>
      case Skip => PassValue(st, chunks[1..], g, n);
      case Store(g', n', v) =>
        var st' := Put(st, g', n', v);
        PassValue(st', chunks[1..], g, n);
        assert ApplyChunks(st, chunks) == ApplyChunks(st', chunks[1..]);
        if LastStored(chunks[1..], g, n).None? {
          if g' == g && n' == n {
            assert Lookup(st', g, n) == Some(v);
          } else {
            assert Lookup(st', g, n) == Lookup(st, g, n);
          }
        }
    }
  }

  /** A pass over `a + b` is a pass over `a` followed, if it completed, by a pass over `b`. */
  lemma {:induction false} ApplyChunksAppend(st: Snapshot, a: seq<seq<byte>>, b: seq<seq<byte>>)
    ensures ApplyChunks(st, a + b)
         == if ApplyChunks(st, a).completed then ApplyChunks(ApplyChunks(st, a).data, b) else ApplyChunks(st, a)
    decreases |a|
  {
    if a == [] {
      assert a + b == b;
    } else {
      assert (a + b)[0] == a[0];
      assert (a + b)[1..] == a[1..] + b;
      match Classify(a[0])
      case Abort =>
      case Skip => ApplyChunksAppend(st, a[1..], b);
      case Store(g, n, v) => ApplyChunksAppend(Put(st, g, n, v), a[1..], b);
    }
  }

  /** An empty chunk, a group-end marker or an unknown id changes nothing. */
  lemma SkippedChunkChangesNothing(st: Snapshot, a: seq<seq<byte>>, c: seq<byte>, b: seq<seq<byte>>)
    requires Classify(c).Skip?
    ensures ApplyChunks(st, a + [c] + b) == ApplyChunks(st, a + b)
  {
    ApplyChunksAppend(st, a, [c] + b);
    ApplyChunksAppend(st, a, b);
    assert a + [c] + b == a + ([c] + b);
    assert ([c] + b)[1..] == b;
  }

  /**
   * A one-byte chunk ends the pass: what earlier chunks stored stays stored,
   * later chunks are not applied, and the pass does not complete.
   */
  lemma OneByteChunkAbortsPass(st: Snapshot, a: seq<seq<byte>>, c: seq<byte>, b: seq<seq<byte>>)
    requires |c| == 1
    requires forall k :: 0 <= k < |a| ==> |a[k]| != 1
    ensures ApplyChunks(st, a + [c] + b) == Pass(ApplyChunks(st, a).data, false)
  {
    ApplyChunksAppend(st, a, [c] + b);
    assert a + [c] + b == a + ([c] + b);
  }

  /** Applying the same chunks again leaves every entry as the first pass left it. */
  lemma PassIdempotent(st: Snapshot, chunks: seq<seq<byte>>, g: string, n: string)
    ensures Lookup(ApplyChunks(ApplyChunks(st, chunks).data, chunks).data, g, n)
         == Lookup(ApplyChunks(st, chunks).data, g, n)
  {
    PassValue(st, chunks, g, n);
    PassValue(ApplyChunks(st, chunks).data, chunks, g, n);
  }

  /** A packet received twice in a row does not announce a second breath. */
  lemma RepeatedPacketNoNewBreath(st: Snapshot, params: seq<byte>)
    ensures ParsePacket(ParsePacket(st, params).0, params).1 != Completed(true)
  {
    PassIdempotent(st, SplitOn(params, VT), MonitoredParameters, BreathNumber);
  }
}
