/** The shared-memory blackboard: 100 slots searched linearly, id 0 marking a free slot. */
module Blackboard {
  import opened Records

  const MAX_SENSORS: nat := 100
  const INVALID: real := -999.0

  datatype Slot = Slot(id: Uint32, data: real, time: int)

  /** Index of the first slot with this id at or after `i`, |s| if there is none. */
  function FirstFrom(s: seq<Slot>, id: Uint32, i: nat): (k: nat)
    requires i <= |s|
    ensures i <= k <= |s| && (k < |s| ==> s[k].id == id)
    ensures forall j :: i <= j < k ==> s[j].id != id
    decreases |s| - i
  {
    if i == |s| || s[i].id == id then i else FirstFrom(s, id, i + 1)
  }

  function First(s: seq<Slot>, id: Uint32): (k: nat)
    ensures k <= |s| && (k < |s| ==> s[k].id == id)
    ensures forall j :: 0 <= j < k ==> s[j].id != id
  {
    FirstFrom(s, id, 0)
  }

  /** The slot an update writes, |s| if the table has none to offer. */
  function WriteIndex(s: seq<Slot>, id: Uint32): nat {
    if First(s, id) < |s| then First(s, id) else First(s, 0)
  }

  function Update(s: seq<Slot>, r: Record, now: int): seq<Slot> {
    var k := WriteIndex(s, r.sensorId);
    if k < |s| then s[k := Slot(r.sensorId, r.data, now)] else s
  }

  function Read(s: seq<Slot>, id: Uint32): real {
    var k := First(s, id);
    if k < |s| then s[k].data else INVALID
  }

  function EmptyTable(): (s: seq<Slot>) {
    seq(MAX_SENSORS, _ => Slot(0, 0.0, 0))
  }

  class SharedTable {
    /** Null until the shared memory is attached. */
    var slots: array?<Slot>

    ghost predicate Attached()
      reads this
    {
      slots != null && slots.Length == MAX_SENSORS
    }

    ghost function View(): seq<Slot>
      reads this, slots
    {
      if slots == null then [] else slots[..]
    }

    constructor ()
      ensures slots == null
    {
      slots := null;
    }

    /** The attach and memset of `init_system_v_ipc`. */
    method Attach()
      modifies this
      ensures Attached() && fresh(slots) && slots.Length == 100 && View() == EmptyTable()
    {
      slots := new Slot[MAX_SENSORS](_ => Slot(0, 0.0, 0));
    }

    method UpdateSensor(id: Uint32, data: real, now: int)
      modifies slots
      ensures View() == Update(old(View()), Record(id, data), now)
    {
      if slots == null { return; }
      var target, empty := -1, -1;
      for i := 0 to slots.Length
        invariant target == -1 && -1 <= empty < i
        invariant forall j :: 0 <= j < i ==> slots[j].id != id
        invariant empty == -1 ==> forall j :: 0 <= j < i ==> slots[j].id != 0
        invariant empty != -1 ==> slots[empty].id == 0 && forall j :: 0 <= j < empty ==> slots[j].id != 0
      {
        if slots[i].id == id {
          target := i;
          break;
        }
        if slots[i].id == 0 && empty == -1 {
          empty := i;
        }
      }
      var write := if target != -1 then target else empty;
      if write != -1 {
        slots[write] := Slot(id, data, now);
      }
    }

    method ReadSensor(id: Uint32) returns (val: real)
      ensures val == Read(View(), id)
    {
      if slots == null { return INVALID; }
      val := INVALID;
      for i := 0 to slots.Length
        invariant val == INVALID && forall j :: 0 <= j < i ==> slots[j].id != id
      {
        if slots[i].id == id {
          val := slots[i].data;
          break;
        }
      }
    }
  }

  // ---------- what the table remembers ----------

  /** The table after a sequence of updates, oldest first; `times` are the clock readings. */
  ghost function After(log: seq<Record>, times: seq<int>): seq<Slot>
    requires |times| == |log|
  {
    if log == [] then EmptyTable()
    else Update(After(log[..|log| - 1], times[..|log| - 1]), log[|log| - 1], times[|log| - 1])
  }

  /** Non-zero ids in order of first appearance. */
  ghost function FirstIds(log: seq<Record>): seq<Uint32> {
    if log == [] then [] else Noted(FirstIds(log[..|log| - 1]), log[|log| - 1].sensorId)
  }

  ghost function Noted(ids: seq<Uint32>, id: Uint32): seq<Uint32> {
    if id == 0 || id in ids then ids else ids + [id]
  }

  /** The ids that got a slot: the first 100 distinct ones. */
  ghost function Remembered(log: seq<Record>): seq<Uint32> {
    var ids := FirstIds(log);
    if |ids| <= MAX_SENSORS then ids else ids[..MAX_SENSORS]
  }

  ghost function LastValue(log: seq<Record>, id: Uint32): real {
    if log == [] then INVALID
    else if log[|log| - 1].sensorId == id then log[|log| - 1].data
    else LastValue(log[..|log| - 1], id)
  }

  /** What is left of the reports of id 0: they land in the first free slot, which the next
      new id takes over. */
  ghost function ZeroValue(log: seq<Record>): real {
    if log == [] then 0.0
    else
      var init, last := log[..|log| - 1], log[|log| - 1];
      if last.sensorId == 0 then last.data
      else if last.sensorId in FirstIds(init) then ZeroValue(init)
      else 0.0
  }

  /** Id 0 was reported and no new id has arrived since. */
  ghost predicate ZeroKept(log: seq<Record>) {
    exists k :: 0 <= k < |log| && log[k].sensorId == 0 && |FirstIds(log[..k])| == |FirstIds(log)|
  }

  /** What any id, 0 included, reads as after `log`. */
  ghost function Recalled(log: seq<Record>, id: Uint32): real {
    if id == 0 then if |FirstIds(log)| < MAX_SENSORS then ZeroValue(log) else INVALID
    else if id in Remembered(log) then LastValue(log, id)
    else INVALID
  }

  /** Occupied slots form a prefix holding the remembered ids, in order of arrival, each with
      the last value reported for it; the first free slot holds what is left of id 0. */
  ghost predicate Tracks(s: seq<Slot>, log: seq<Record>) {
    |s| == MAX_SENSORS && Holds(s, Remembered(log), log)
  }

  ghost predicate Holds(s: seq<Slot>, ids: seq<Uint32>, log: seq<Record>) {
    && |ids| <= |s|
    && (forall k :: 0 <= k < |ids| ==> s[k].id == ids[k] && s[k].data == LastValue(log, ids[k]))
    && (forall k :: |ids| <= k < |s| ==> s[k].id == 0)
    && (|ids| < |s| ==> s[|ids|].data == ZeroValue(log))
    && (forall k :: |ids| < k < |s| ==> s[k].data == 0.0)
  }

  /** The slot an update of `id` writes: the first with that id, or the first free one if the
      id is in no slot. */
  ghost predicate Written(s: seq<Slot>, id: Uint32, k: nat)
    requires k < |s|
  {
    if exists j :: 0 <= j < |s| && s[j].id == id then
      s[k].id == id && forall j :: 0 <= j < k ==> s[j].id != id
    else
      s[k].id == 0 && forall j :: 0 <= j < k ==> s[j].id != 0
  }

  /** An update stores id, value and time in that slot and touches no other. */
  lemma UpdateWritesOneSlot(s: seq<Slot>, r: Record, now: int)
    ensures |Update(s, r, now)| == |s|
    ensures forall k :: 0 <= k < |s| ==>
              Update(s, r, now)[k] == if Written(s, r.sensorId, k) then Slot(r.sensorId, r.data, now) else s[k]
  {
    var f := First(s, r.sensorId);
    if f < |s| { assert s[f].id == r.sensorId; }
  }

  lemma {:induction false} FirstIdsDistinct(log: seq<Record>)
    ensures 0 !in FirstIds(log)
    ensures forall i, j :: 0 <= i < j < |FirstIds(log)| ==> FirstIds(log)[i] != FirstIds(log)[j]
  {
    if log != [] { FirstIdsDistinct(log[..|log| - 1]); }
  }

  lemma RememberedDistinct(log: seq<Record>)
    ensures forall i :: 0 <= i < |Remembered(log)| ==> Remembered(log)[i] != 0
    ensures forall i, j :: 0 <= i < j < |Remembered(log)| ==> Remembered(log)[i] != Remembered(log)[j]
  {
    FirstIdsDistinct(log);
    assert forall i :: 0 <= i < |FirstIds(log)| ==> FirstIds(log)[i] in FirstIds(log);
  }

  lemma {:induction false} FirstIdsAreReported(log: seq<Record>, id: Uint32)
    ensures id in FirstIds(log) <==> id != 0 && exists k :: 0 <= k < |log| && log[k].sensorId == id
  {
    if log != [] {
      var init := log[..|log| - 1];
      FirstIdsAreReported(init, id);
      assert forall k :: 0 <= k < |init| ==> init[k] == log[k];
      if id != 0 && log[|log| - 1].sensorId != id && exists k :: 0 <= k < |log| && log[k].sensorId == id {
        var k :| 0 <= k < |log| && log[k].sensorId == id;
        assert init[k].sensorId == id;
      }
    }
  }

  lemma FirstFreeSlot(s: seq<Slot>, log: seq<Record>)
    requires Tracks(s, log)
    ensures First(s, 0) == |Remembered(log)|
  {
    RememberedDistinct(log);
    var n := |Remembered(log)|;
    if n < |s| { assert s[n].id == 0; }
  }

  lemma UpdateKeepsTracking(s: seq<Slot>, log: seq<Record>, r: Record, now: int)
    requires Tracks(s, log)
    ensures Tracks(Update(s, r, now), log + [r])
  {
    assert (log + [r])[..|log|] == log;
    if r.sensorId in Remembered(log) {
      UpdateOfKnownId(s, log, r, now);
    } else {
      UpdateOfOtherId(s, log, r, now);
    }
  }

  lemma UpdateOfKnownId(s: seq<Slot>, log: seq<Record>, r: Record, now: int)
    requires Tracks(s, log) && r.sensorId in Remembered(log) && (log + [r])[..|log|] == log
    ensures Tracks(Update(s, r, now), log + [r])
  {
    var ids := Remembered(log);
    RememberedDistinct(log);
    var k :| 0 <= k < |ids| && ids[k] == r.sensorId;
    assert First(s, r.sensorId) == k;
    assert FirstIds(log + [r]) == FirstIds(log) && ZeroValue(log + [r]) == ZeroValue(log);
  }

  /** Id 0, a new id, or one that found the table full. */
  lemma UpdateOfOtherId(s: seq<Slot>, log: seq<Record>, r: Record, now: int)
    requires Tracks(s, log) && r.sensorId !in Remembered(log) && (log + [r])[..|log|] == log
    ensures Tracks(Update(s, r, now), log + [r])
  {
    RememberedDistinct(log);
    FirstFreeSlot(s, log);
    assert WriteIndex(s, r.sensorId) == |Remembered(log)|;
  }

  lemma {:induction false} RunTracks(log: seq<Record>, times: seq<int>)
    requires |times| == |log|
    ensures Tracks(After(log, times), log)
  {
    if log != [] {
      var n := |log| - 1;
      RunTracks(log[..n], times[..n]);
      UpdateKeepsTracking(After(log[..n], times[..n]), log[..n], log[n], times[n]);
      assert log[..n] + [log[n]] == log;
    }
  }

  /** The table refines a map: reading a non-zero id after any sequence of updates gives the
      value last reported for it exactly when it is among the first 100 distinct ids, and
      -999 otherwise. */
  lemma ReadIsLastValue(log: seq<Record>, times: seq<int>, id: Uint32)
    requires |times| == |log| && id != 0
    ensures Read(After(log, times), id) == if id in Remembered(log) then LastValue(log, id) else -999.0
  {
    RunTracks(log, times);
    TrackedRead(After(log, times), log, id);
  }

  lemma TrackedRead(s: seq<Slot>, log: seq<Record>, id: Uint32)
    requires Tracks(s, log)
    ensures Read(s, id) == Recalled(log, id)
  {
    if id == 0 { FirstFreeSlot(s, log); }
  }

  /** With at most 100 distinct ids nothing is ever forgotten. */
  lemma ReadIsLastValueUpTo100(log: seq<Record>, times: seq<int>, id: Uint32)
    requires |times| == |log| && id != 0 && |FirstIds(log)| <= 100
    ensures Read(After(log, times), id) == LastValue(log, id)
  {
    ReadIsLastValue(log, times, id);
    if id !in FirstIds(log) { LastValueOfUnreported(log, id); }
  }

  lemma {:induction false} LastValueOfUnreported(log: seq<Record>, id: Uint32)
    requires id != 0 && id !in FirstIds(log)
    ensures LastValue(log, id) == INVALID
  {
    if log != [] { LastValueOfUnreported(log[..|log| - 1], id); }
  }

  /** A new id on a full table changes nothing. */
  lemma FullTableIgnoresNewId(s: seq<Slot>, log: seq<Record>, r: Record, now: int)
    requires Tracks(s, log) && |Remembered(log)| == 100
    requires r.sensorId !in Remembered(log)
    ensures Update(s, r, now) == s
  {
    RememberedDistinct(log);
  }

  /** Id 0 is no sensor: storing under it never disturbs another id, and the value can be
      read back only while a slot is free. */
  lemma IdZero(s: seq<Slot>, log: seq<Record>, data: real, now: int, other: Uint32)
    requires Tracks(s, log) && other != 0
    ensures Read(Update(s, Record(0, data), now), other) == Read(s, other)
    ensures Read(Update(s, Record(0, data), now), 0) == if |Remembered(log)| < MAX_SENSORS then data else INVALID
  {
    var s' := Update(s, Record(0, data), now);
    var ids := Remembered(log);
    RememberedDistinct(log);
    assert forall k :: 0 <= k < |s| ==> s'[k].id == s[k].id;
    assert First(s', other) == First(s, other);
    FirstFreeSlot(s, log);
    assert First(s', 0) == First(s, 0);
  }

  /** After any sequence of updates id 0 reads as the last value reported for it since the
      last new id arrived, 0.0 if there is none, and -999 once the table is full. */
  lemma ReadOfZero(log: seq<Record>, times: seq<int>)
    requires |times| == |log|
    ensures Read(After(log, times), 0) == if |FirstIds(log)| < 100 then ZeroValue(log) else -999.0
  {
    RunTracks(log, times);
    TrackedRead(After(log, times), log, 0);
  }

  lemma {:induction false} FirstIdsGrow(log: seq<Record>, k: nat)
    requires k <= |log|
    ensures |FirstIds(log[..k])| <= |FirstIds(log)|
  {
    if k < |log| {
      FirstIdsGrow(log[..|log| - 1], k);
      assert log[..|log| - 1][..k] == log[..k];
    } else {
      assert log[..k] == log;
    }
  }

  lemma ZeroKeptStep(log: seq<Record>)
    requires log != []
    ensures var init, last := log[..|log| - 1], log[|log| - 1];
            ZeroKept(log) <==> last.sensorId == 0 || (ZeroKept(init) && last.sensorId in FirstIds(init))
  {
    var n := |log| - 1;
    var init := log[..n];
    assert forall k :: 0 <= k < n ==> init[..k] == log[..k];
    if log[n].sensorId == 0 {
      assert log[n].sensorId == 0 && |FirstIds(log[..n])| == |FirstIds(log)|;
    } else {
      if ZeroKept(log) {
        var k :| 0 <= k < |log| && log[k].sensorId == 0 && |FirstIds(log[..k])| == |FirstIds(log)|;
        FirstIdsGrow(init, k);
        assert init[k].sensorId == 0 && |FirstIds(init[..k])| == |FirstIds(init)|;
      }
      if ZeroKept(init) && log[n].sensorId in FirstIds(init) {
        var k :| 0 <= k < |init| && init[k].sensorId == 0 && |FirstIds(init[..k])| == |FirstIds(init)|;
        assert log[k].sensorId == 0 && |FirstIds(log[..k])| == |FirstIds(log)|;
      }
    }
  }

  lemma {:induction false} ZeroValueMeans(log: seq<Record>)
    ensures ZeroValue(log) == if ZeroKept(log) then LastValue(log, 0) else 0.0
  {
    if log != [] {
      ZeroKeptStep(log);
      ZeroValueMeans(log[..|log| - 1]);
    }
  }

  /** Id 0 reads as its last value, -999 if it was never reported, exactly when a slot is free
      and no new id arrived since that report, apart from values that agree by chance with
      the content of a fresh slot or of a failed search. */
  lemma ZeroReadsLastIff(log: seq<Record>, times: seq<int>)
    requires |times| == |log|
    ensures Read(After(log, times), 0) == LastValue(log, 0)
            <==> if |FirstIds(log)| < 100 then ZeroKept(log) || LastValue(log, 0) == 0.0
                 else LastValue(log, 0) == -999.0
  {
    ReadOfZero(log, times);
    ZeroValueMeans(log);
  }

  /** A value stored under id 0 disappears when the next sensor registers. */
  lemma ZeroIsForgotten(data: real, id: Uint32, other: real, times: seq<int>)
    requires |times| == 2 && id != 0
    ensures Read(After([Record(0, data), Record(id, other)], times), 0) == 0.0
  {
    var log := [Record(0, data), Record(id, other)];
    ReadOfZero(log, times);
    assert log[..1] == [Record(0, data)];
    assert FirstIds(log[..1]) == [];
  }

  /** On the empty table id 0 reads 0.0, not -999. */
  lemma ZeroOnEmptyTable()
    ensures Read(EmptyTable(), 0) == 0.0
  {
  }
}
