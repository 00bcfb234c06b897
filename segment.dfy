/** The RTSS shared memory segment as an in-memory object: its header fields,
    the OSD entry table and the application entry table, plus the pure
    header arithmetic (version packing and the acceptance test of openSharedMemory). */
module Segment {
  import opened Errors

  /** Every header field is a DWORD. */
  type u32 = x: int | 0 <= x < 0x1_0000_0000

  const U32Modulus: nat := 0x1_0000_0000

  /** The multi-character literal 'RTSS' as MSVC evaluates it. */
  const RtssSignature: u32 := 0x5254_5353

  /** One OSD slot: owner name, legacy text (szOSD) and extended text (szOSDEx),
      each as the string held in its null-terminated buffer. */
  datatype OsdEntry = OsdEntry(owner: string, osd: string, osdEx: string)

  /** An entry after SecureZeroMemory: every buffer holds the empty string. */
  const ZeroEntry := OsdEntry("", "", "")

  /** The fields of one application slot that GetAppEntries reads. */
  datatype AppSlot = AppSlot(processId: u32, name: string, flags: u32, time0: u32, time1: u32, frames: u32)

  /** A decoded version number, as System::Version(major, minor). */
  datatype VersionNumber = VersionNumber(major: nat, minor: nat)

  /** The RTSS_VERSION(x, y) macro: (x << 16) + y. */
  function PackVersion(major: nat, minor: nat): nat
  {
    major * 0x1_0000 + minor
  }

  /** The Version getter: major = dwVersion >> 16, minor = dwVersion & 0xFFFF.
      On an unsigned 32-bit word the shift and the mask are division and remainder by 2^16. */
  function DecodeVersion(v: u32): (r: VersionNumber)
    ensures r.major < 0x1_0000 && r.minor < 0x1_0000
    ensures PackVersion(r.major, r.minor) == v
  {
    VersionNumber(v / 0x1_0000, v % 0x1_0000)
  }

  lemma PackDecodeRoundTrip(major: nat, minor: nat)
    requires major < 0x1_0000 && minor < 0x1_0000
    ensures PackVersion(major, minor) < U32Modulus
    ensures DecodeVersion(PackVersion(major, minor) as u32) == VersionNumber(major, minor)
  {
  }

  /** The test openSharedMemory applies after mapping the segment. */
  predicate HeaderAccepted(signature: u32, version: u32)
  {
    signature == RtssSignature && version >= PackVersion(2, 0)
  }

  /** A header is accepted exactly when it carries the signature and its major version is at least 2. */
  lemma HeaderAcceptedByMajor(signature: u32, version: u32)
    ensures HeaderAccepted(signature, version) <==> signature == RtssSignature && DecodeVersion(version).major >= 2
  {
  }

  /** Update writes the extended text field on segments of version 2.7 or later. */
  predicate UsesExtendedText(version: u32)
  {
    version >= PackVersion(2, 7)
  }

  /** The extended field is chosen exactly when (major, minor) >= (2, 7) in lexicographic order. */
  lemma ExtendedTextByVersion(version: u32)
    ensures UsesExtendedText(version) <==>
      var d := DecodeVersion(version); d.major > 2 || (d.major == 2 && d.minor >= 7)
  {
  }

  /** The shared segment. The server owns it; publishers mutate the OSD entries and the frame counter. */
  class SharedMemory {
    var signature: u32
    var version: u32
    /** dwOSDFrame: bumped to make the server redraw the OSD. */
    var frame: u32
    /** The OSD table; its length is dwOSDArrSize. */
    const osdEntries: array<OsdEntry>
    /** The application table; its length is dwAppArrSize. */
    const appEntries: array<AppSlot>

    constructor (signature: u32, version: u32, frame: u32, osdEntries: array<OsdEntry>, appEntries: array<AppSlot>)
      ensures this.signature == signature && this.version == version && this.frame == frame
      ensures this.osdEntries == osdEntries && this.appEntries == appEntries
    {
      this.signature := signature;
      this.version := version;
      this.frame := frame;
      this.osdEntries := osdEntries;
      this.appEntries := appEntries;
    }
  }

  /** The objects an operation on the segment may change (none when the segment is absent). */
  function Writable(mem: SharedMemory?): set<object>
  {
    if mem == null then {} else {mem, mem.osdEntries}
  }

  /** openSharedMemory: attaching fails when no segment of the well-known name exists,
      and the mapped segment is rejected unless its header passes HeaderAccepted. */
  function Open(mem: SharedMemory?): (r: Outcome)
    reads mem
    ensures r == Pass <==> mem != null && HeaderAccepted(mem.signature, mem.version)
    ensures r.Fail? ==> r.error in {AttachFailed, InvalidSharedMemory}
    ensures mem == null <==> r == Fail(AttachFailed)
  {
    if mem == null then Fail(AttachFailed)
    else if !HeaderAccepted(mem.signature, mem.version) then Fail(InvalidSharedMemory)
    else Pass
  }

  /** dwOSDFrame incremented k times, wrapping as a DWORD does. */
  function Bump(frame: u32, k: nat): u32
  {
    (frame + k) % U32Modulus
  }

  lemma BumpAdds(frame: u32, a: nat, b: nat)
    ensures Bump(Bump(frame, a), b) == Bump(frame, a + b)
  {
  }
}
