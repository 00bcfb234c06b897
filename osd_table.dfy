/** What one Update call and one teardown do to the OSD table, stated on values.
    The Osd class in module Publisher is proved to match these definitions. */
module OsdTable {
  import opened Segment

  /** Update refuses text longer than this many ANSI bytes. */
  const MaxTextLength: nat := 4095
  /** Usable characters of szOSD (sizeof - 1). */
  const OsdCapacity: nat := 255
  /** Usable characters of szOSDEx (sizeof - 1). */
  const OsdExCapacity: nat := 4095

  /** strncpy_s(dst, src, count): copies at most count characters of src. */
  function StrNCopy(src: string, count: nat): (r: string)
    ensures r <= src
    ensures |r| == if |src| <= count then |src| else count
  {
    if |src| <= count then src else src[..count]
  }

  /** A slot Update may use: unclaimed (empty owner) or already carrying the name. */
  predicate Usable(e: OsdEntry, name: string)
  {
    e.owner == "" || e.owner == name
  }

  /** Where an Update call writes: slot `index`, claiming it first when `claim` holds;
      or nowhere (the text is silently dropped). */
  datatype Target = Write(index: nat, claim: bool) | Drop

  /** The scan with nothing cached, from index `from` on: the first usable slot. */
  function FirstUsable(entries: seq<OsdEntry>, name: string, from: nat): (t: Target)
    decreases |entries| - from
    ensures t.Write? ==> from <= t.index < |entries| && Usable(entries[t.index], name)
    ensures t.Write? ==> (t.claim <==> entries[t.index].owner == "")
    ensures t.Write? ==> forall j :: from <= j < t.index ==> !Usable(entries[j], name)
    ensures t.Drop? ==> forall j :: from <= j < |entries| ==> !Usable(entries[j], name)
  {
    if from >= |entries| then Drop
    else if entries[from].owner == "" then Write(from, true)
    else if entries[from].owner == name then Write(from, false)
    else FirstUsable(entries, name, from + 1)
  }

  /** The slot an Update call writes, given the cached slot `cache` (0 = none).
      A cached slot past the table is never visited; a cached slot that still carries the
      name is written; a stale one drops the cache and the scan resumes at index 2. */
  function ScanTarget(entries: seq<OsdEntry>, name: string, cache: nat): Target
  {
    if cache == 0 then FirstUsable(entries, name, 1)
    else if cache >= |entries| then Drop
    else if entries[cache].owner == name then Write(cache, false)
    else FirstUsable(entries, name, 2)
  }

  /** The cached slot after an Update call: set only by a fresh claim, kept on a cache hit
      and when the cache lies past the table, otherwise reset to 0. */
  function CacheAfter(entries: seq<OsdEntry>, name: string, cache: nat): nat
  {
    match ScanTarget(entries, name, cache)
    case Write(i, claim) => if claim then i else if i == cache then cache else 0
    case Drop => if cache >= |entries| then cache else 0
  }

  /** The entry after the text is written into it: owner set to the name, and the text copied
      into szOSDEx on version 2.7 and later, into szOSD before. */
  function WriteText(e: OsdEntry, name: string, text: string, version: u32): OsdEntry
  {
    var claimed := e.(owner := name);
    if UsesExtendedText(version) then claimed.(osdEx := StrNCopy(text, OsdExCapacity))
    else claimed.(osd := StrNCopy(text, OsdCapacity))
  }

  /** The OSD table after an Update call. */
  function TableAfter(entries: seq<OsdEntry>, name: string, text: string, version: u32, cache: nat): seq<OsdEntry>
  {
    match ScanTarget(entries, name, cache)
    case Write(i, _) => entries[i := WriteText(entries[i], name, text, version)]
    case Drop => entries
  }

  /** dwOSDFrame after an Update call: one bump per write. */
  function FrameAfter(entries: seq<OsdEntry>, name: string, cache: nat, frame: u32): u32
  {
    if ScanTarget(entries, name, cache).Write? then Bump(frame, 1) else frame
  }

  /** Slot 0 is never chosen, nothing outside the chosen slot changes, and the frame counter
      is bumped once exactly when a slot is written. */
  lemma UpdateFrame(entries: seq<OsdEntry>, name: string, text: string, version: u32, cache: nat, frame: u32)
    ensures var t := ScanTarget(entries, name, cache);
      var after := TableAfter(entries, name, text, version, cache);
      && |after| == |entries|
      && (t.Write? ==> 1 <= t.index < |entries|)
      && (forall j :: 0 <= j < |entries| && (t.Drop? || j != t.index) ==> after[j] == entries[j])
      && (t.Write? <==> FrameAfter(entries, name, cache, frame) != frame)
      && (t.Write? ==> FrameAfter(entries, name, cache, frame) == Bump(frame, 1))
  {
  }

  /** The scan never reads slot 0: whatever slot 0 holds, the target is the same. */
  lemma SlotZeroNotRead(entries: seq<OsdEntry>, name: string, cache: nat, e0: OsdEntry)
    requires |entries| > 0
    ensures ScanTarget(entries[0 := e0], name, cache) == ScanTarget(entries, name, cache)
    ensures CacheAfter(entries[0 := e0], name, cache) == CacheAfter(entries, name, cache)
  {
    FirstUsableIgnoresZero(entries, name, 1, e0);
    FirstUsableIgnoresZero(entries, name, 2, e0);
  }

  lemma {:induction false} FirstUsableIgnoresZero(entries: seq<OsdEntry>, name: string, from: nat, e0: OsdEntry)
    requires |entries| > 0 && from >= 1
    ensures FirstUsable(entries[0 := e0], name, from) == FirstUsable(entries, name, from)
    decreases |entries| - from
  {
    if from < |entries| {
      FirstUsableIgnoresZero(entries, name, from + 1, e0);
    }
  }

  /** A write leaves the name as owner and the (truncated) text in the field the version selects;
      the other text field keeps its content. */
  lemma UpdateStoresText(entries: seq<OsdEntry>, name: string, text: string, version: u32, cache: nat)
    requires |text| <= MaxTextLength
    requires ScanTarget(entries, name, cache).Write?
    ensures var i := ScanTarget(entries, name, cache).index;
      var e := TableAfter(entries, name, text, version, cache)[i];
      && i < |entries|
      && e.owner == name
      && (UsesExtendedText(version) ==> e.osdEx == text && e.osd == entries[i].osd)
      && (!UsesExtendedText(version) ==> e.osdEx == entries[i].osdEx && e.osd <= text
                                         && |e.osd| == if |text| <= OsdCapacity then |text| else OsdCapacity)
  {
  }

  /** With nothing cached the text goes to the first slot from index 1 that is empty or
      carries the name; only claiming an empty slot sets the cache. */
  lemma FreshClaimRule(entries: seq<OsdEntry>, name: string, i: nat)
    requires 1 <= i < |entries| && Usable(entries[i], name)
    requires forall j :: 1 <= j < i ==> !Usable(entries[j], name)
    ensures ScanTarget(entries, name, 0) == Write(i, entries[i].owner == "")
    ensures CacheAfter(entries, name, 0) == if entries[i].owner == "" then i else 0
  {
  }

  /** With nothing cached and no usable slot from index 1 on, the text is dropped. */
  lemma FullTableDrops(entries: seq<OsdEntry>, name: string, text: string, version: u32, frame: u32)
    requires forall j :: 1 <= j < |entries| ==> !Usable(entries[j], name)
    ensures ScanTarget(entries, name, 0) == Drop
    ensures TableAfter(entries, name, text, version, 0) == entries && FrameAfter(entries, name, 0, frame) == frame
    ensures CacheAfter(entries, name, 0) == 0
  {
  }

  /** A cached slot that still carries the name is written again and stays cached. */
  lemma CachedSlotHit(entries: seq<OsdEntry>, name: string, cache: nat)
    requires 1 <= cache < |entries| && entries[cache].owner == name
    ensures ScanTarget(entries, name, cache) == Write(cache, false)
    ensures CacheAfter(entries, name, cache) == cache
  {
  }

  /** A stale cached slot resets the cache and the scan resumes at index 2: slot 1 is skipped
      even when it is free, and the cache stays 0 unless an empty slot is claimed. */
  lemma StaleCacheRescan(entries: seq<OsdEntry>, name: string, cache: nat)
    requires 1 <= cache < |entries| && entries[cache].owner != name
    ensures var t := ScanTarget(entries, name, cache);
      && (t.Write? ==> 2 <= t.index)
      && (t.Drop? ==> forall j :: 2 <= j < |entries| ==> !Usable(entries[j], name))
      && CacheAfter(entries, name, cache) == if t.Write? && t.claim then t.index else 0
  {
  }

  /** Two slots, the stale cache pointing at slot 1 and slot 1 free: the update is dropped. */
  lemma StaleCacheSkipsFreeSlotOne(name: string, other: string)
    requires name != other && name != ""
    ensures var entries := [ZeroEntry, OsdEntry(other, "", "")];
      ScanTarget(entries, name, 1) == Drop && CacheAfter(entries, name, 1) == 0
      && ScanTarget(entries[1 := ZeroEntry], name, 1) == Drop
  {
  }

  /** A cached slot at or past the table size: nothing is written and the cache is kept. */
  lemma OversizedCacheKept(entries: seq<OsdEntry>, name: string, cache: nat, frame: u32)
    requires cache != 0 && cache >= |entries|
    ensures ScanTarget(entries, name, cache) == Drop
    ensures CacheAfter(entries, name, cache) == cache && FrameAfter(entries, name, cache, frame) == frame
  {
  }

  /** A non-zero cache after a call names a slot that now carries the name, unless it is an
      oversized cache that was never visited. */
  lemma CacheAfterCarriesName(entries: seq<OsdEntry>, name: string, text: string, version: u32, cache: nat)
    ensures var c := CacheAfter(entries, name, cache);
      var after := TableAfter(entries, name, text, version, cache);
      c != 0 ==> (c < |after| && after[c].owner == name) || (c == cache && c >= |entries|)
  {
  }

  /** Repeated Update calls reuse the slot: after a write that left the slot cached, or after
      one made with nothing cached, the next call writes the same slot without claiming. */
  lemma SlotStability(entries: seq<OsdEntry>, name: string, text: string, version: u32, cache: nat)
    requires name != ""
    requires ScanTarget(entries, name, cache).Write?
    requires cache == 0 || CacheAfter(entries, name, cache) != 0
    ensures var after := TableAfter(entries, name, text, version, cache);
      var c := CacheAfter(entries, name, cache);
      && ScanTarget(after, name, c) == Write(ScanTarget(entries, name, cache).index, false)
      && CacheAfter(after, name, c) == c
  {
  }

  /** The one case where a slot carrying the name is not reused: a stale cache makes the
      rescan start at index 2 and find slot 2 (not cached), so the next call scans from 1,
      claims the free slot 1, and both slots 1 and 2 then carry the name. */
  lemma StaleRescanDuplicatesSlot(name: string, other: string, text: string, version: u32)
    requires name != "" && other != "" && name != other
    ensures var entries := [ZeroEntry, ZeroEntry, OsdEntry(name, "old", ""), OsdEntry(other, "", "")];
      var after := TableAfter(entries, name, text, version, 3);
      var again := TableAfter(after, name, text, version, 0);
      && ScanTarget(entries, name, 3) == Write(2, false)
      && CacheAfter(entries, name, 3) == 0
      && ScanTarget(after, name, 0) == Write(1, true)
      && CacheAfter(after, name, 0) == 1
      && again[1].owner == name && again[2].owner == name
  {
  }

  /** The table after teardown: every slot from index 1 on owned by the name is zeroed. */
  function Cleared(entries: seq<OsdEntry>, name: string): seq<OsdEntry>
  {
    ClearedBelow(entries, name, |entries|)
  }

  /** The table after the teardown loop has visited the slots below `k`. */
  function ClearedBelow(entries: seq<OsdEntry>, name: string, k: nat): (r: seq<OsdEntry>)
    ensures |r| == |entries|
  {
    seq(|entries|, j requires 0 <= j < |entries| =>
      if 1 <= j < k && entries[j].owner == name then ZeroEntry else entries[j])
  }

  /** How many slots in [1, k) carry the name: the frame bumps of the teardown loop. */
  function OwnedBelow(entries: seq<OsdEntry>, name: string, k: nat): nat
    requires k <= |entries|
  {
    if k <= 1 then 0
    else OwnedBelow(entries, name, k - 1) + (if entries[k - 1].owner == name then 1 else 0)
  }

  /** The number of slots from index 1 on that carry the name. */
  function OwnedCount(entries: seq<OsdEntry>, name: string): nat
  {
    OwnedBelow(entries, name, |entries|)
  }

  /** The count of cleared slots is the size of the set of indices >= 1 owned by the name. */
  lemma {:induction false} OwnedBelowIsCardinality(entries: seq<OsdEntry>, name: string, k: nat)
    requires k <= |entries|
    ensures OwnedBelow(entries, name, k) == |set j | 1 <= j < k && entries[j].owner == name|
  {
    if k > 1 {
      OwnedBelowIsCardinality(entries, name, k - 1);
      var below := set j | 1 <= j < k - 1 && entries[j].owner == name;
      if entries[k - 1].owner == name {
        assert (set j | 1 <= j < k && entries[j].owner == name) == below + {k - 1};
      } else {
        assert (set j | 1 <= j < k && entries[j].owner == name) == below;
      }
    }
  }

  /** Teardown zeroes exactly the slots from index 1 on owned by the name; afterwards no such
      slot is owned by the name, and slot 0 is untouched. */
  lemma TeardownClears(entries: seq<OsdEntry>, name: string)
    requires name != ""
    ensures var after := Cleared(entries, name);
      && |after| == |entries|
      && (|entries| > 0 ==> after[0] == entries[0])
      && (forall j :: 1 <= j < |entries| ==> after[j].owner != name)
      && (forall j :: 1 <= j < |entries| && entries[j].owner == name ==> after[j] == ZeroEntry)
      && (forall j :: 0 <= j < |entries| && entries[j].owner != name ==> after[j] == entries[j])
  {
  }

  /** A second teardown changes nothing and bumps the frame counter zero times. */
  lemma TeardownIdempotent(entries: seq<OsdEntry>, name: string)
    requires name != ""
    ensures Cleared(Cleared(entries, name), name) == Cleared(entries, name)
    ensures OwnedCount(Cleared(entries, name), name) == 0
  {
    var after := Cleared(entries, name);
    NoneOwnedBelow(after, name, |after|);
  }

  lemma {:induction false} NoneOwnedBelow(entries: seq<OsdEntry>, name: string, k: nat)
    requires k <= |entries|
    requires forall j :: 1 <= j < k ==> entries[j].owner != name
    ensures OwnedBelow(entries, name, k) == 0
  {
    if k > 1 {
      NoneOwnedBelow(entries, name, k - 1);
    }
  }

  /** The frame counter rises by at most the number of slots other than slot 0. */
  lemma {:induction false} OwnedBelowBound(entries: seq<OsdEntry>, name: string, k: nat)
    requires 1 <= k <= |entries|
    ensures OwnedBelow(entries, name, k) <= k - 1
  {
    if k > 1 {
      OwnedBelowBound(entries, name, k - 1);
    }
  }

  /** Empty table, version 2.6, Update("Hello"): slot 1 is claimed and cached, "Hello" lands in
      the legacy field and the frame counter goes up by one. */
  lemma HelloScenario(frame: u32, name: string)
    requires name != "" && frame < 100
    ensures var entries := [ZeroEntry, ZeroEntry, ZeroEntry];
      var v := PackVersion(2, 6) as u32;
      && ScanTarget(entries, name, 0) == Write(1, true)
      && CacheAfter(entries, name, 0) == 1
      && TableAfter(entries, name, "Hello", v, 0)[1] == OsdEntry(name, "Hello", "")
      && FrameAfter(entries, name, 0, frame) == frame + 1
  {
  }
}
