/** The OSD publisher: one named text source that claims a slot of the shared OSD table,
    rewrites its text on every Update and zeroes its slots on teardown. */
module Publisher {
  import opened Errors
  import opened Segment
  import opened OsdTable
  import opened AppEntries

  /** The constructor refuses names longer than this many ANSI bytes. */
  const MaxNameLength: nat := 255

  /** Char.IsWhiteSpace: the Unicode space separators, line and paragraph separators,
      U+0009 to U+000D, U+0085 and U+00A0. */
  predicate IsWhiteSpace(c: char)
  {
    || c == ' ' || ('\t' <= c <= '\r') || c == '\U{0085}' || c == '\U{00A0}' || c == '\U{1680}'
    || ('\U{2000}' <= c <= '\U{200A}') || c == '\U{2028}' || c == '\U{2029}' || c == '\U{202F}'
    || c == '\U{205F}' || c == '\U{3000}'
  }

  /** String.IsNullOrWhiteSpace on a non-null string: empty, or whitespace throughout. */
  predicate IsBlank(s: string)
  {
    forall k :: 0 <= k < |s| ==> IsWhiteSpace(s[k])
  }

  predicate NameAccepted(name: string)
  {
    !IsBlank(name) && |name| <= MaxNameLength
  }

  /** The argument checks of the constructor, in the order it makes them. */
  function ValidateName(entryName: Nullable<string>): (r: Outcome)
    ensures r == Pass <==> entryName.NonNull? && NameAccepted(entryName.value)
    ensures entryName.Null? ==> r == Fail(EntryNameBlank)
    ensures entryName.NonNull? && IsBlank(entryName.value) ==> r == Fail(EntryNameBlank)
    ensures entryName.NonNull? && !IsBlank(entryName.value) && |entryName.value| > MaxNameLength ==> r == Fail(EntryNameTooLong)
  {
    match entryName
    case Null => Fail(EntryNameBlank)
    case NonNull(name) =>
      if IsBlank(name) then Fail(EntryNameBlank)
      else if |name| > MaxNameLength then Fail(EntryNameTooLong)
      else Pass
  }

  /** The argument checks of Update, in the order it makes them. */
  function ValidateText(text: Nullable<string>): (r: Outcome)
    ensures r == Pass <==> text.NonNull? && |text.value| <= MaxTextLength
    ensures text.Null? ==> r == Fail(TextNull)
    ensures text.NonNull? && |text.value| > MaxTextLength ==> r == Fail(TextTooLong)
  {
    match text
    case Null => Fail(TextNull)
    case NonNull(t) => if |t| > MaxTextLength then Fail(TextTooLong) else Pass
  }

  /** A name of exactly 255 bytes is accepted and one of 256 bytes is refused;
      text of exactly 4095 bytes is accepted and text of 4096 bytes is refused. */
  lemma LengthBoundaries(name: string, text: string)
    requires |name| > 0 && !IsWhiteSpace(name[0])
    ensures |name| == MaxNameLength ==> ValidateName(NonNull(name)) == Pass
    ensures |name| == MaxNameLength + 1 ==> ValidateName(NonNull(name)) == Fail(EntryNameTooLong)
    ensures |text| == MaxTextLength ==> ValidateText(NonNull(text)) == Pass
    ensures |text| == MaxTextLength + 1 ==> ValidateText(NonNull(text)) == Fail(TextTooLong)
  {
  }

  class Osd {
    /** m_entryName: the owner key written into claimed slots. */
    const entryName: string
    /** m_osdSlot: the slot this publisher last claimed, 0 when unknown. */
    var osdSlot: nat
    /** m_disposed: set once the destructor has torn the entries down. */
    var disposed: bool

    ghost predicate Valid()
    {
      NameAccepted(entryName)
    }

    constructor (entryName: string)
      requires NameAccepted(entryName)
      ensures Valid() && this.entryName == entryName
      ensures osdSlot == 0 && !disposed
    {
      this.entryName := entryName;
      osdSlot := 0;
      disposed := false;
    }

    /** OSD(entryName): validate the name, attach and validate the segment (and detach),
        then start with no slot cached. The segment is not changed. */
    static method Create(entryName: Nullable<string>, mem: SharedMemory?) returns (r: Result<Osd>)
      ensures ValidateName(entryName).Fail? ==> r == Failure(ValidateName(entryName).error)
      ensures ValidateName(entryName).Pass? && Open(mem).Fail? ==> r == Failure(Open(mem).error)
      ensures r.Success? <==> ValidateName(entryName).Pass? && Open(mem).Pass?
      ensures r.Success? ==> fresh(r.value) && r.value.Valid() && r.value.entryName == entryName.value
      ensures r.Success? ==> r.value.osdSlot == 0 && !r.value.disposed
    {
      var checked := ValidateName(entryName);
      if checked.Fail? {
        return Failure(checked.error);
      }
      var attached := Open(mem);
      if attached.Fail? {
        return Failure(attached.error);
      }
      var osd := new Osd(entryName.value);
      return Success(osd);
    }

    /** Update(text): validate the text, attach, then scan the OSD table from the cached slot
        (or from 1), claiming the first empty slot when nothing is cached, writing the text into
        the first slot that carries the name, and restarting once if the cached slot was lost. */
    method Update(text: Nullable<string>, mem: SharedMemory?) returns (r: Outcome)
      modifies this`osdSlot, Writable(mem)
      ensures r == if ValidateText(text).Fail? then ValidateText(text) else old(Open(mem))
      ensures r.Fail? ==> osdSlot == old(osdSlot)
      ensures r.Fail? && mem != null ==> unchanged(mem, mem.osdEntries)
      ensures r.Pass? ==> mem != null && mem.signature == old(mem.signature) && mem.version == old(mem.version)
      ensures r.Pass? ==>
        && mem.osdEntries[..] == TableAfter(old(mem.osdEntries[..]), entryName, text.value, mem.version, old(osdSlot))
        && mem.frame == FrameAfter(old(mem.osdEntries[..]), entryName, old(osdSlot), old(mem.frame))
        && osdSlot == CacheAfter(old(mem.osdEntries[..]), entryName, old(osdSlot))
    {
      r := ValidateText(text);
      if r.Fail? {
        return;
      }
      var lpText := text.value;
      r := Open(mem);
      if r.Fail? {
        return;
      }
      var a := mem.osdEntries;
      ghost var entries := a[..];
      ghost var cache := osdSlot;
      var i: nat := if osdSlot == 0 then 1 else osdSlot;
      while i < a.Length
        invariant a[..] == entries && mem.frame == old(mem.frame)
        invariant mem.signature == old(mem.signature) && mem.version == old(mem.version)
        invariant osdSlot != 0 ==> osdSlot == cache == i
        invariant osdSlot == 0 ==> 1 <= i && ScanTarget(entries, entryName, cache) == FirstUsable(entries, entryName, i)
        invariant osdSlot == 0 && cache != 0 ==> cache < a.Length && entries[cache].owner != entryName
        decreases if osdSlot != 0 then 1 else 0, a.Length - i
      {
        if osdSlot == 0 && |a[i].owner| == 0 {
          osdSlot := i;
          a[i] := a[i].(owner := entryName);
        }
        if a[i].owner == entryName {
          if mem.version >= PackVersion(2, 7) {
            a[i] := a[i].(osdEx := StrNCopy(lpText, OsdExCapacity));
          } else {
            a[i] := a[i].(osd := StrNCopy(lpText, OsdCapacity));
          }
          mem.frame := (mem.frame + 1) % U32Modulus;
          break;
        }
        if osdSlot != 0 {
          osdSlot := 0;
          i := 1;
        }
        i := i + 1;
      }
    }

    /** !OSD: attach, zero every slot from index 1 on whose owner is the name and bump the
        frame counter once per zeroed slot. */
    method Finalize(mem: SharedMemory?) returns (r: Outcome)
      requires Valid()
      modifies Writable(mem)
      ensures r == old(Open(mem))
      ensures r.Fail? && mem != null ==> unchanged(mem, mem.osdEntries)
      ensures r.Pass? ==> mem != null && mem.signature == old(mem.signature) && mem.version == old(mem.version)
      ensures r.Pass? ==>
        && mem.osdEntries[..] == Cleared(old(mem.osdEntries[..]), entryName)
        && mem.frame == Bump(old(mem.frame), OwnedCount(old(mem.osdEntries[..]), entryName))
      ensures r.Pass? ==> forall j :: 1 <= j < mem.osdEntries.Length ==> mem.osdEntries[j].owner != entryName
    {
      r := Open(mem);
      if r.Fail? {
        return;
      }
      var a := mem.osdEntries;
      ghost var entries := a[..];
      var i: nat := 1;
      while i < a.Length
        invariant 1 <= i <= if a.Length == 0 then 1 else a.Length
        invariant a[..] == ClearedBelow(entries, entryName, i)
        invariant mem.frame == Bump(old(mem.frame), OwnedBelow(entries, entryName, if a.Length == 0 then 0 else i))
        invariant mem.signature == old(mem.signature) && mem.version == old(mem.version)
      {
        if a[i].owner == entryName {
          a[i] := ZeroEntry;
          BumpAdds(old(mem.frame), OwnedBelow(entries, entryName, i), 1);
          mem.frame := (mem.frame + 1) % U32Modulus;
        }
        assert a[..] == ClearedBelow(entries, entryName, i + 1);
        i := i + 1;
      }
      assert ClearedBelow(entries, entryName, i) == Cleared(entries, entryName);
      assert entryName != "" by {
        assert !IsBlank(entryName);
      }
      TeardownClears(entries, entryName);
    }

    /** ~OSD: tear down once; a later call does nothing. If attaching fails the object stays
        undisposed. */
    method Dispose(mem: SharedMemory?) returns (r: Outcome)
      requires Valid()
      modifies this`disposed, Writable(mem)
      ensures old(disposed) ==> r == Pass && disposed
      ensures old(disposed) && mem != null ==> unchanged(mem, mem.osdEntries)
      ensures !old(disposed) ==> r == old(Open(mem)) && disposed == r.Pass?
      ensures !old(disposed) && r.Fail? && mem != null ==> unchanged(mem, mem.osdEntries)
      ensures !old(disposed) && r.Pass? ==>
        && mem != null
        && mem.signature == old(mem.signature) && mem.version == old(mem.version)
        && mem.osdEntries[..] == Cleared(old(mem.osdEntries[..]), entryName)
        && mem.frame == Bump(old(mem.frame), OwnedCount(old(mem.osdEntries[..]), entryName))
        && forall j :: 1 <= j < mem.osdEntries.Length ==> mem.osdEntries[j].owner != entryName
    {
      if disposed {
        return Pass;
      }
      r := Finalize(mem);
      if r.Pass? {
        disposed := true;
      }
    }

    /** Version: the segment's packed version word, decoded. */
    method Version(mem: SharedMemory?) returns (r: Result<VersionNumber>)
      ensures Open(mem).Fail? ==> r == Failure(Open(mem).error)
      ensures Open(mem).Pass? ==>
        && r.Success? && r.value.minor < 0x1_0000
        && PackVersion(r.value.major, r.value.minor) == mem.version
    {
      var attached := Open(mem);
      if attached.Fail? {
        return Failure(attached.error);
      }
      return Success(DecodeVersion(mem.version));
    }

    /** GetAppEntries: one record per application slot with a non-zero process id. */
    method GetAppEntries(mem: SharedMemory?) returns (r: Result<seq<AppEntry>>)
      ensures Open(mem).Fail? ==> r == Failure(Open(mem).error)
      ensures Open(mem).Pass? ==> r == Success(LiveApps(mem.appEntries[..]))
    {
      var attached := Open(mem);
      if attached.Fail? {
        return Failure(attached.error);
      }
      var apps := mem.appEntries;
      var list: seq<AppEntry> := [];
      var i := 0;
      while i < apps.Length
        invariant 0 <= i <= apps.Length
        invariant list == LiveApps(apps[..i])
      {
        var slot := apps[i];
        if slot.processId != 0 {
          list := list + [Decode(slot)];
        }
        assert apps[..i + 1][..i] == apps[..i];
        i := i + 1;
      }
      assert apps[..] == apps[..i];
      return Success(list);
    }
  }
}
