# RTSS shared-memory OSD publisher, modelled in Dafny

RTSSSharedMemoryNET lets a .NET process publish a line of on-screen-display (OSD) text through
the shared memory segment `RTSSSharedMemoryV2` that the RivaTuner Statistics Server (RTSS)
creates. RTSS owns the segment. Every publisher attaches to it, claims a slot in its OSD entry
table by writing its name into the slot's owner field, rewrites the slot's text on every
`Update`, and bumps the header's frame counter so that RTSS redraws. On teardown it zeroes
every slot it owns. The same segment also exposes an application table, which `GetAppEntries`
reads.

The model:

- `errors.dfy` (module `Errors`): the exceptions as an `Error` datatype, plus `Outcome` and
  `Result`. `Nullable` stands for a managed `String^` argument that may be null.
- `segment.dfy` (module `Segment`): the segment as a class `SharedMemory`. It holds the header
  fields `signature`, `version` and `frame` (DWORDs, so `frame` wraps modulo 2^32), the OSD
  table as an `array<OsdEntry>` and the application table as an `array<AppSlot>`. The module
  also holds the `RTSS_VERSION` packing, the `Version` unpacking, and the header test of
  `openSharedMemory` (`Open`). A `null` segment means that no mapping of that name exists.
- `osd_table.dfy` (module `OsdTable`): what one `Update` call and one teardown do to the
  table, stated on values. `ScanTarget` gives the slot that is written, `CacheAfter` the new
  cached slot, and `TableAfter`/`FrameAfter` the new table and frame counter. `Cleared` and
  `OwnedCount` do the same for teardown. The lemmas state the slot-claim rules.
- `app_entries.dfy` (module `AppEntries`): the `AppEntry` record and `LiveApps`, the filter
  that `GetAppEntries` computes.
- `osd.dfy` (module `Publisher`): class `Osd` with the fields `entryName`, `osdSlot` and
  `disposed`. It has the constructor (`Create`), `Update`, `Finalize` (`!OSD`), `Dispose`
  (`~OSD`), `Version` and `GetAppEntries`. `Update` and `Finalize` are the loops of the
  source, working in place on the table array. Each is proved against the value-level
  definitions of `OsdTable`.

Behaviour reproduced as the code has it:

- When the cached slot is stale, the code sets `i = 1` and the loop's `i++` then runs, so the
  rescan starts at index 2 and never looks at slot 1. The source's comment at
  RTSSSharedMemoryNET/OSD.cpp:123 ("let's start over") suggests a restart from the top; the
  model follows the code. See `StaleCacheRescan` and `StaleCacheSkipsFreeSlotOne`. In the second
  lemma the table has two slots and slot 1 is free, yet the update is dropped.
- A consequence of the two quirks together: after a stale cache, the rescan from index 2 can
  find a slot that already carries the name. That slot gets the text but is not cached. The
  next call then scans from index 1 and may claim a free slot 1, so two slots carry the name
  and the older one keeps stale text until teardown (`StaleRescanDuplicatesSlot`). This is the
  one case that `SlotStability` excludes.
- A slot found already carrying the name, while nothing is cached, gets the text but is not
  cached. Only a fresh claim sets `osdSlot`.
- A cached slot at or past the table size skips the loop entirely. Nothing is written and the
  cache is kept.
- When no slot is found, the text is dropped silently.
- `!OSD` has no guard of its own. Only `~OSD` checks `m_disposed`. If attaching fails inside
  `~OSD`, the exception leaves `m_disposed` false.

## Model

| member | source | states |
|---|---|---|
| `Segment.DecodeVersion` | RTSSSharedMemoryNET/OSD.cpp:76 | major = v >> 16 and minor = v & 0xFFFF are both below 2^16, and packing them with RTSS_VERSION gives back v |
| `Segment.PackDecodeRoundTrip` | RTSSSharedMemoryNET/OSD.cpp:8 | RTSS_VERSION(x, y) fits a DWORD, and decoding it gives back (x, y), for x, y < 2^16 |
| `Segment.HeaderAcceptedByMajor` | RTSSSharedMemoryNET/OSD.cpp:185 | a header is accepted iff its signature is 'RTSS' and its decoded major version is at least 2 |
| `Segment.ExtendedTextByVersion` | RTSSSharedMemoryNET/OSD.cpp:114 | the extended text field is used iff (major, minor) >= (2, 7) in lexicographic order |
| `Segment.Open` | RTSSSharedMemoryNET/OSD.cpp:171-196 | attaching succeeds iff the segment exists and its header passes the signature/version test; a missing segment gives AttachFailed, a bad header InvalidSharedMemory |
| `Segment.BumpAdds` | RTSSSharedMemoryNET/OSD.cpp:62 | incrementing the DWORD frame counter a times and then b times equals incrementing it a + b times, modulo 2^32 |
| `OsdTable.StrNCopy` | RTSSSharedMemoryNET/OSD.cpp:115-117 | strncpy_s with count = capacity keeps exactly the first min(len, count) characters of the text |
| `OsdTable.FirstUsable` | RTSSSharedMemoryNET/OSD.cpp:99-111 | with nothing cached, the scan from index `from` writes the first slot whose owner is empty or the name; it claims iff the owner was empty; it drops iff no such slot exists |
| `OsdTable.UpdateFrame` | RTSSSharedMemoryNET/OSD.cpp:99-121 | Update never writes slot 0 and changes no slot other than the one it targets; for every counter value, the frame counter changes iff it writes, and then by exactly one (mod 2^32) |
| `OsdTable.UpdateStoresText` | RTSSSharedMemoryNET/OSD.cpp:113-120 | the written slot carries the name; on version >= 2.7 szOSDEx holds the whole text, otherwise szOSD holds its first min(len, 255) characters; the other field keeps its content |
| `OsdTable.SlotZeroNotRead` | RTSSSharedMemoryNET/OSD.cpp:99 | the scan never reads slot 0: replacing slot 0 changes neither the target slot nor the new cache |
| `OsdTable.FreshClaimRule` | RTSSSharedMemoryNET/OSD.cpp:104-111 | with nothing cached the text goes to the first slot i >= 1 that is empty or owned by the name; the cache becomes i iff that slot was empty, and stays 0 otherwise |
| `OsdTable.FullTableDrops` | RTSSSharedMemoryNET/OSD.cpp:99-129 | with nothing cached and no usable slot, the table (for any text and version), the frame counter and the cache are unchanged |
| `OsdTable.CachedSlotHit` | RTSSSharedMemoryNET/OSD.cpp:111-121 | a cached slot that still carries the name is written and stays cached |
| `OsdTable.StaleCacheRescan` | RTSSSharedMemoryNET/OSD.cpp:124-128 | a stale cached slot resets the cache; the rescan writes only slots >= 2; the cache ends 0 unless an empty slot is claimed |
| `OsdTable.StaleCacheSkipsFreeSlotOne` | RTSSSharedMemoryNET/OSD.cpp:127 | two slots, cache at 1, slot 1 owned by another name or free: the update is dropped either way |
| `OsdTable.OversizedCacheKept` | RTSSSharedMemoryNET/OSD.cpp:99 | a cached slot at or past the table size: nothing is written, the frame counter is unchanged and the cache is kept |
| `OsdTable.CacheAfterCarriesName` | RTSSSharedMemoryNET/OSD.cpp:104-128 | after a call, a non-zero cache names a slot that carries the name, unless it is an oversized cache that was never visited |
| `OsdTable.SlotStability` | RTSSSharedMemoryNET/OSD.cpp:99-121 | after a write that left the slot cached, or one made with nothing cached, the next Update writes the same slot without claiming and keeps the cache (the excluded case is `StaleRescanDuplicatesSlot`) |
| `OsdTable.StaleRescanDuplicatesSlot` | RTSSSharedMemoryNET/OSD.cpp:104-128 | with a stale cache at 3 and slot 2 carrying the name, the text goes to slot 2 and the cache stays 0; the next call claims the free slot 1, so slots 1 and 2 both carry the name |
| `OsdTable.OwnedBelowIsCardinality` | RTSSSharedMemoryNET/OSD.cpp:54-63 | the number of frame bumps in teardown is the number of slots at index >= 1 owned by the name |
| `OsdTable.OwnedBelowBound` | RTSSSharedMemoryNET/OSD.cpp:54 | teardown bumps the frame counter at most (table size - 1) times |
| `OsdTable.TeardownClears` | RTSSSharedMemoryNET/OSD.cpp:54-64 | teardown zeroes every slot >= 1 owned by the name, leaves every other slot (slot 0 included) unchanged, and no slot >= 1 is owned by the name afterwards |
| `OsdTable.TeardownIdempotent` | RTSSSharedMemoryNET/OSD.cpp:54-64 | a second teardown leaves the table unchanged and bumps the frame counter zero times |
| `OsdTable.HelloScenario` | RTSSSharedMemoryNET/OSD.cpp:99-121 | on an empty table of version 2.6, Update("Hello") claims and caches slot 1, writes "Hello" to szOSD and adds 1 to the frame counter |
| `AppEntries.ToInt32` | RTSSSharedMemoryNET/OSD.cpp:153 | the DWORD-to-int ProcessId conversion is congruent to the DWORD modulo 2^32, lies in the int range, and is 0 iff the DWORD is 0 |
| `AppEntries.Decode` | RTSSSharedMemoryNET/OSD.cpp:150-160 | the process id is the DWORD converted to int (so a non-zero id stays non-zero); name, flags, time0, time1 and frames are copied unchanged |
| `AppEntries.LiveIndices` | RTSSSharedMemoryNET/OSD.cpp:145-149 | the indices of the slots with a non-zero process id: strictly increasing, all live, and every live slot included |
| `AppEntries.LiveAppsByIndex` | RTSSSharedMemoryNET/OSD.cpp:145-163 | GetAppEntries' result is the live slots in table order, the k-th record decoded from the k-th live slot, and it is no longer than the table |
| `AppEntries.LiveAppsNonZero` | RTSSSharedMemoryNET/OSD.cpp:148 | every returned record has a non-zero process id |
| `AppEntries.GameScenario` | RTSSSharedMemoryNET/OSD.cpp:145-163 | a table with one live entry (1234, "game.exe", 0, 1000, 60) and one entry with process id 0 yields exactly that one record |
| `Publisher.ValidateName` | RTSSSharedMemoryNET/OSD.cpp:17-22 | a name passes iff it is non-null, not blank, and at most 255 bytes; null or blank gives the blank-name error first, otherwise an over-long name gives the length error |
| `Publisher.ValidateText` | RTSSSharedMemoryNET/OSD.cpp:87-92 | text passes iff it is non-null and at most 4095 bytes; null gives TextNull and over-long text gives TextTooLong |
| `Publisher.LengthBoundaries` | RTSSSharedMemoryNET/OSD.cpp:21 | names of exactly 255 bytes pass and names of 256 bytes fail; text of exactly 4095 bytes passes and text of 4096 bytes fails |
| `Publisher.Osd.constructor` | RTSSSharedMemoryNET/OSD.cpp:30-31 | a new publisher has an accepted name, no cached slot and is not disposed |
| `Publisher.Osd.Create` | RTSSSharedMemoryNET/OSD.cpp:15-32 | name errors come first, then attach/header errors; it succeeds iff both pass, starts with osdSlot = 0, and leaves the segment untouched |
| `Publisher.Osd.Update` | RTSSSharedMemoryNET/OSD.cpp:85-133 | text errors come before attaching; on success the table, frame counter and cache become TableAfter/FrameAfter/CacheAfter of the old state; on error nothing changes |
| `Publisher.Osd.Finalize` | RTSSSharedMemoryNET/OSD.cpp:47-68 | after attaching, the table becomes Cleared(old table), no slot at index >= 1 carries the name, and the frame counter rises by OwnedCount(old table), modulo 2^32; if attaching fails, nothing changes |
| `Publisher.Osd.Dispose` | RTSSSharedMemoryNET/OSD.cpp:34-45 | a second call is a no-op; the first tears down as Finalize does (leaving no slot >= 1 owned by the name) and sets `disposed` iff teardown attached |
| `Publisher.Osd.Version` | RTSSSharedMemoryNET/OSD.cpp:70-80 | after attaching, returns (major, minor) with minor < 2^16 that pack back to the version word; attach errors propagate |
| `Publisher.Osd.GetAppEntries` | RTSSSharedMemoryNET/OSD.cpp:136-167 | after attaching, returns LiveApps of the application table, built by the source's loop; attach errors propagate |

## Left out

- Windows mapping calls (`OpenFileMapping`, `MapViewOfFile`, `UnmapViewOfFile`, `CloseHandle`) and `closeSharedMemory`. Attaching is the `Open` test on a segment that may be `null`. Detaching has no observable effect in the model.
- Which Win32 error `THROW_LAST_ERROR` raises. Every attach failure is the single `AttachFailed`.
- Byte offsets and strides (`dwOSDArrOffset + i * dwOSDEntrySize` and the app-table equivalent). The tables are arrays, and `dwOSDArrSize`/`dwAppArrSize` are their lengths. A header whose size field disagrees with the mapping is not modelled.
- ANSI marshalling (`StringToHGlobalAnsi`, `PtrToStringAnsi`). Strings are taken in their ANSI form, one character per byte, with no embedded NUL, so `strlen` is the length. Code-page substitution is not modelled.
- HGlobal allocation and `FreeHGlobal`. The buffer leaks on exception paths and the name is used after teardown frees it; neither is modelled.
- Cross-process races on slot claims and non-atomic text writes. The model is single-threaded.
- GC finalizer timing of `!OSD`. Teardown is the explicit `Finalize` method.
- The `AppFlags` values. They come from an RTSS header that is not part of this model, so flags are carried as the raw DWORD.
- The unused `TICKS_PER_MICROSECOND` constant.
- `STRMATCHES` is defined in OSD.h, which is not part of this model. It is read as "strcmp returned 0", i.e. string equality.
- The bytes left in a text buffer after the copied string's terminator. Each buffer is modelled as the string it holds.
