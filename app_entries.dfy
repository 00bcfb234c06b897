/** The application table as GetAppEntries reports it: the live slots (non-zero process id),
    in table order, each copied into an AppEntry record. */
module AppEntries {
  import opened Segment

  /** The managed AppEntry record of Structs.h. ProcessId is a signed 32-bit int there. */
  datatype AppEntry = AppEntry(
    processId: int,
    name: string,
    flags: u32,
    instantaneousTimeStart: u32,
    instantaneousTimeEnd: u32,
    instantaneousFrames: u32)

  /** The implicit DWORD-to-int conversion of the ProcessId assignment (two's complement wrap). */
  function ToInt32(x: u32): (r: int)
    ensures -0x8000_0000 <= r < 0x8000_0000
    ensures (r + U32Modulus) % U32Modulus == x
    ensures r == 0 <==> x == 0
  {
    if x < 0x8000_0000 then x else x - U32Modulus
  }

  /** The record built for one live slot. */
  function Decode(slot: AppSlot): (e: AppEntry)
    ensures e.processId == ToInt32(slot.processId)
    ensures slot.processId != 0 ==> e.processId != 0
    ensures e.name == slot.name && e.flags == slot.flags
    ensures e.instantaneousTimeStart == slot.time0 && e.instantaneousTimeEnd == slot.time1
    ensures e.instantaneousFrames == slot.frames
  {
    AppEntry(ToInt32(slot.processId), slot.name, slot.flags, slot.time0, slot.time1, slot.frames)
  }

  predicate Live(slot: AppSlot)
  {
    slot.processId != 0
  }

  /** What GetAppEntries returns for the table `slots`: the loop appends one record per live slot. */
  function LiveApps(slots: seq<AppSlot>): seq<AppEntry>
  {
    if slots == [] then []
    else
      var last := slots[|slots| - 1];
      LiveApps(slots[..|slots| - 1]) + (if Live(last) then [Decode(last)] else [])
  }

  /** The indices of the live slots, in increasing order. */
  function LiveIndices(slots: seq<AppSlot>): (r: seq<nat>)
    ensures |r| <= |slots|
    ensures forall k :: 0 <= k < |r| ==> r[k] < |slots| && Live(slots[r[k]])
    ensures forall k, l :: 0 <= k < l < |r| ==> r[k] < r[l]
    ensures forall i :: 0 <= i < |slots| && Live(slots[i]) ==> i in r
  {
    if slots == [] then []
    else
      var n := |slots| - 1;
      var init := slots[..n];
      var below := LiveIndices(init);
      assert forall k :: 0 <= k < |below| ==> slots[below[k]] == init[below[k]];
      below + (if Live(slots[n]) then [n] else [])
  }

  /** GetAppEntries returns exactly the live slots, in table order, each decoded field by field. */
  lemma {:induction false} LiveAppsByIndex(slots: seq<AppSlot>)
    ensures |LiveApps(slots)| == |LiveIndices(slots)| <= |slots|
    ensures forall k :: 0 <= k < |LiveApps(slots)| ==> LiveApps(slots)[k] == Decode(slots[LiveIndices(slots)[k]])
  {
    if slots != [] {
      var n := |slots| - 1;
      LiveAppsByIndex(slots[..n]);
      assert forall k :: 0 <= k < |LiveIndices(slots[..n])| ==>
        slots[LiveIndices(slots[..n])[k]] == slots[..n][LiveIndices(slots[..n])[k]];
    }
  }

  /** Every record returned has a non-zero process id. */
  lemma LiveAppsNonZero(slots: seq<AppSlot>)
    ensures forall e :: e in LiveApps(slots) ==> e.processId != 0
  {
  }

  /** One live entry and one empty entry: only the live one is reported, with its fields. */
  lemma GameScenario(flags: u32)
    ensures var game := AppSlot(1234, "game.exe", flags, 0, 1000, 60);
      LiveApps([game, AppSlot(0, "", 0, 0, 0, 0)]) == [AppEntry(1234, "game.exe", flags, 0, 1000, 60)]
  {
    var game := AppSlot(1234, "game.exe", flags, 0, 1000, 60);
    var slots := [game, AppSlot(0, "", 0, 0, 0, 0)];
    assert slots[..1] == [game] && [game][..0] == [];
    assert LiveApps([game]) == [Decode(game)];
    assert LiveApps(slots) == LiveApps([game]);
  }
}
