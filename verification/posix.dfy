/** The POSIX back end: `open`/`fstat`/`lseek`/`write`/`mmap`/`madvise`/
    `munmap`/`close`. Flag words are sets of symbolic flags. */
module Posix {
  import opened Wrappers
  import opened Word
  import opened Modes
  import opened OsModel
  import opened Paging

  datatype Access = RdOnly | WrOnly | RdWr

  /** The `open` flags. `O_RDONLY` is 0, so a zero-initialised field reads
      as `O_RDONLY` without `O_CREAT`. */
  datatype OpenFlags = OpenFlags(access: Access, create: bool)

  datatype Prot = ProtRead | ProtWrite

  datatype MapFlag = MapShared

  /** `memMapPlatformFields`: the descriptor and the three flag words. */
  datatype Fields = Fields(file: Handle, fileOpenMode: OpenFlags, mmapMode: set<MapFlag>, prot: set<Prot>)

  /** `new memMapPlatformFields()`: value-initialised, every member zero. */
  const Initial: Fields := Fields(Null, OpenFlags(RdOnly, false), {}, {})

  /** `fileOpenMode == O_RDONLY` */
  predicate IsReadOnly(flags: OpenFlags)
  {
    flags == OpenFlags(RdOnly, false)
  }

  /** The options shared by WRITE and APPEND: WRITE has no statements of its
      own and falls through into APPEND. */
  function WriteOptions(f: Fields): (r: Fields)
  {
    f.(prot := {ProtWrite}, mmapMode := f.mmapMode + {MapShared}, fileOpenMode := OpenFlags(WrOnly, true))
  }

  /** `initFileOptions`: the open flags, the page protection and the
      sharing mode for an access mode. The sharing flag is or-ed into the
      existing word; the descriptor is left alone. */
  function InitFileOptions(f: Fields, mode: FileMode): (r: Fields)
    ensures r.file == f.file
    ensures r.mmapMode == f.mmapMode + {MapShared}
    ensures IsReadOnly(r.fileOpenMode) <==> mode == Read
    ensures r.fileOpenMode.create <==> mode != Read
  {
    match mode
    case Read =>
      f.(prot := {ProtRead}, mmapMode := f.mmapMode + {MapShared}, fileOpenMode := OpenFlags(RdOnly, false))
    case ReadWrite =>
      f.(prot := {ProtRead, ProtWrite}, mmapMode := f.mmapMode + {MapShared}, fileOpenMode := OpenFlags(RdWr, true))
    case Write => WriteOptions(f)
    case Append => WriteOptions(f)
  }

  /** The protection asked of `mmap` is exactly the access the descriptor
      is opened with, for every mode. */
  lemma ProtectionMatchesAccess(f: Fields, mode: FileMode)
    ensures var r := InitFileOptions(f, mode);
      && (ProtRead in r.prot <==> r.fileOpenMode.access != WrOnly)
      && (ProtWrite in r.prot <==> r.fileOpenMode.access != RdOnly)
  {
  }

  /** WRITE and APPEND produce the same options. */
  lemma WriteIsAppend(f: Fields)
    ensures InitFileOptions(f, Write) == InitFileOptions(f, Append)
  {
  }

  /** What mmap(2) accepts for a file mapping: the descriptor must be open
      for reading, and a shared writable mapping needs `O_RDWR`. */
  predicate MmapPermitted(f: Fields)
  {
    && f.fileOpenMode.access != WrOnly
    && (ProtWrite in f.prot && MapShared in f.mmapMode ==> f.fileOpenMode.access == RdWr)
  }

  /** Only READ and READ_WRITE options can ever be mapped: WRITE and APPEND
      open the file write-only, which `mmap` refuses. */
  lemma MappableModes(mode: FileMode)
    ensures MmapPermitted(InitFileOptions(Initial, mode)) <==> mode == Read || mode == ReadWrite
  {
  }

  /** `initFileOptions` as evidently intended: WRITE and APPEND open the
      file read-write, which a shared writable mapping needs; every other
      option is as written. */
  function InitFileOptionsMappable(f: Fields, mode: FileMode): (r: Fields)
    ensures MmapPermitted(r)
    ensures mode == Read || mode == ReadWrite ==> r == InitFileOptions(f, mode)
    ensures r == InitFileOptions(f, mode).(fileOpenMode := r.fileOpenMode)
    ensures r.fileOpenMode.create <==> mode != Read
  {
    var w := InitFileOptions(f, mode);
    if mode == Write || mode == Append then w.(fileOpenMode := OpenFlags(RdWr, true)) else w
  }

  datatype Advice = MadvNormal | MadvSequential | MadvRandom

  /** The `madvise` advice for a cache hint. */
  function AdviceFor(h: CacheHint): (a: Advice)
  {
    match h
    case Normal => MadvNormal
    case SequentialScan => MadvSequential
    case RandomAccess => MadvRandom
  }

  /** Every hint has its own advice, and every advice comes from a hint. */
  lemma AdviceIsBijective(h1: CacheHint, h2: CacheHint, a: Advice)
    ensures AdviceFor(h1) == AdviceFor(h2) <==> h1 == h2
    ensures exists h :: AdviceFor(h) == a
  {
    match a
    case MadvNormal => assert AdviceFor(Normal) == a;
    case MadvSequential => assert AdviceFor(SequentialScan) == a;
    case MadvRandom => assert AdviceFor(RandomAccess) == a;
  }

  /** `fileOpen`: a failed `open` leaves -1 in the field (and the following
      `close(-1)` releases nothing). */
  function FileOpen(f: Fields, os: OsState, ok: bool): (r: (Fields, OsState))
    ensures ok ==> r.0 == f.(file := Resource(os.nextId)) && IsOpen(r.1, r.0.file)
    ensures !ok ==> r.0 == f.(file := Invalid) && r.1 == os
    ensures r.1.file == os.file && r.1.staleReleases == os.staleReleases
    ensures Sane(os) ==> Sane(r.1)
  {
    if ok then
      var (id, os1) := Acquire(os);
      (f.(file := Resource(id)), os1)
    else
      (f.(file := Invalid), CloseHandle(os, Invalid))
  }

  /** `getFileSize`: `fstat` of the descriptor, 0 when it fails. */
  function GetFileSize(f: Fields, os: OsState): (n: usize)
    requires |os.file| < WordModulus
  {
    if IsOpen(os, f.file) then |os.file| else 0
  }

  /** Whether `memMap` first makes the file long enough: a writable open
      asked to map more than the file holds. */
  predicate NeedsExtension(f: Fields, filesize: usize, bytesToMap: usize)
  {
    bytesToMap > filesize && !IsReadOnly(f.fileOpenMode)
  }

  /** The extension step of `memMap` fails: `lseek` to the last byte to
      map fails, or, for an empty file, the one-byte `write` does. */
  predicate ExtensionFails(f: Fields, os: OsState, filesize: usize, out: Outcomes)
  {
    !(out.seekOk && IsOpen(os, f.file) && (filesize == 0 ==> out.writeOk))
  }

  /** The extension step of `memMap`: `lseek` to the last byte to map and,
      for an empty file, `write` one zero byte there. When either call
      fails the descriptor is closed, but the field keeps its value. */
  function Extend(f: Fields, os: OsState, filesize: usize, bytesToMap: usize, out: Outcomes): (r: Result<OsState, OsState>)
    requires NeedsExtension(f, filesize, bytesToMap)
    ensures r.Err? <==> ExtensionFails(f, os, filesize, out)
    ensures r.Err? ==> r.error == CloseHandle(os, f.file)
    ensures r.Ok? && filesize != 0 ==> r.value == os
    ensures r.Ok? && filesize == 0 ==> r.value == os.(file := PutByte(os.file, bytesToMap - 1, 0))
  {
    if !(out.seekOk && IsOpen(os, f.file)) then Err(CloseHandle(os, f.file))
    else if filesize != 0 then Ok(os)
    else if !(out.writeOk && IsOpen(os, f.file)) then Err(CloseHandle(os, f.file))
    else Ok(os.(file := PutByte(os.file, bytesToMap - 1, 0)))
  }

  /** The result of `memMap`: the OS state, the view (`None` is
      `nullptr`), the final value of the in-out `bytesToMap` and the advice
      given to `madvise`. */
  datatype MapResult = MapResult(os: OsState, view: Option<View>, bytesToMap: usize, advice: Option<Advice>)

  /** `memMap`, control flow only. `mmap` itself fails, besides when the
      outcome says so, for a length of 0, for an offset that is not a
      multiple of the page size (`aligned` is false) and for options it
      does not permit. */
  function MemMap(f: Fields, os: OsState, filesize: usize, hint: CacheHint, bytesToMap: usize, offset: usize, aligned: bool, out: Outcomes): (r: MapResult)
    ensures f.file == Null ==> r == MapResult(os, None, bytesToMap, None)
    ensures r.view.Some? ==>
      && r.view.value == View(os.nextId, offset, bytesToMap)
      && r.bytesToMap == bytesToMap > 0 && aligned
      && r.advice == Some(AdviceFor(hint))
      && IsOpen(os, f.file) && MmapPermitted(f) && out.mapOk
    ensures r.view.None? ==> r.advice.None?
    ensures r.view.Some? ==> r.view.value.id in r.os.live
    ensures (IsOpen(os, f.file) && MmapPermitted(f) && out.mapOk && bytesToMap > 0 && aligned
             && !(NeedsExtension(f, filesize, bytesToMap) && ExtensionFails(f, os, filesize, out))) ==>
      r.view.Some?
    ensures (f.file != Null && !(NeedsExtension(f, filesize, bytesToMap) && ExtensionFails(f, os, filesize, out))
             && r.view.None?) ==> r.bytesToMap == 0
    ensures f.file != Null && NeedsExtension(f, filesize, bytesToMap) && ExtensionFails(f, os, filesize, out) ==>
      r == MapResult(CloseHandle(os, f.file), None, bytesToMap, None)
    ensures !(f.file != Null && NeedsExtension(f, filesize, bytesToMap) && ExtensionFails(f, os, filesize, out)) ==>
      os.live <= r.os.live && r.os.staleReleases == os.staleReleases
    ensures !NeedsExtension(f, filesize, bytesToMap) || filesize != 0 ==> r.os.file == os.file
    ensures r.view.Some? && NeedsExtension(f, filesize, bytesToMap) && filesize == 0 ==>
      r.os.file == PutByte(os.file, bytesToMap - 1, 0)
    ensures |os.file| < WordModulus ==> |r.os.file| < WordModulus
    ensures Sane(os) ==> Sane(r.os)
    ensures r.os.live <= os.live + {os.nextId}
    ensures r.os.nextId >= os.nextId
  {
    if f.file == Null then MapResult(os, None, bytesToMap, None)
    else
      var extended := if NeedsExtension(f, filesize, bytesToMap)
        then Extend(f, os, filesize, bytesToMap, out) else Ok(os);
      match extended
      case Err(closed) => MapResult(closed, None, bytesToMap, None)
      case Ok(os1) =>
        if !(out.mapOk && bytesToMap > 0 && aligned && IsOpen(os1, f.file) && MmapPermitted(f)) then
          MapResult(os1, None, 0, None)
        else
          var (id, os2) := Acquire(os1);
          MapResult(os2, Some(View(id, offset, bytesToMap)), bytesToMap, Some(AdviceFor(hint)))
  }

  /** `memMap` as evidently intended: when the extension fails, the
      descriptor field is zeroed after the descriptor is closed, as
      `closeMappedFile` does. The fields are returned with the result. */
  function MemMapClearingOnFailure(f: Fields, os: OsState, filesize: usize, hint: CacheHint, bytesToMap: usize,
                                   offset: usize, aligned: bool, out: Outcomes): (r: (Fields, MapResult))
    ensures f.file != Null && NeedsExtension(f, filesize, bytesToMap) && ExtensionFails(f, os, filesize, out) ==>
      && r.0 == f.(file := Null)
      && r.1 == MapResult(CloseHandle(os, f.file), None, bytesToMap, None)
    ensures !(f.file != Null && NeedsExtension(f, filesize, bytesToMap) && ExtensionFails(f, os, filesize, out)) ==>
      r == (f, MemMap(f, os, filesize, hint, bytesToMap, offset, aligned, out))
  {
    var m := MemMap(f, os, filesize, hint, bytesToMap, offset, aligned, out);
    if f.file != Null && NeedsExtension(f, filesize, bytesToMap) && ExtensionFails(f, os, filesize, out)
    then (f.(file := Null), m)
    else (f, m)
  }

  /** As written, a failed extension closes the descriptor but keeps it in
      the field, so the teardown that follows closes it a second time. */
  lemma FailedExtensionClosesTwice(f: Fields, os: OsState, filesize: usize, hint: CacheHint, bytesToMap: usize,
                                   offset: usize, aligned: bool, out: Outcomes, k: PageShift)
    requires IsOpen(os, f.file) && NeedsExtension(f, filesize, bytesToMap) && ExtensionFails(f, os, filesize, out)
    ensures var m := MemMap(f, os, filesize, hint, bytesToMap, offset, aligned, out);
      CloseMappedFile(f, m.os, m.view, filesize, k).1.staleReleases == os.staleReleases + 1
  {
    var m := MemMap(f, os, filesize, hint, bytesToMap, offset, aligned, out);
    assert m.os == CloseHandle(os, f.file) && m.view.None?;
    assert f.file.id !in m.os.live;
  }

  /** With the field cleared, the teardown after `memMap` never closes
      anything twice, whatever the calls' outcomes. */
  lemma ClearedTeardownNeverRepeats(f: Fields, os: OsState, filesize: usize, hint: CacheHint, bytesToMap: usize,
                                    offset: usize, aligned: bool, out: Outcomes, k: PageShift)
    requires Sane(os) && IsOpen(os, f.file)
    ensures var (g, m) := MemMapClearingOnFailure(f, os, filesize, hint, bytesToMap, offset, aligned, out);
      CloseMappedFile(g, m.os, m.view, filesize, k).1.staleReleases == os.staleReleases
  {
    var (g, m) := MemMapClearingOnFailure(f, os, filesize, hint, bytesToMap, offset, aligned, out);
    if !(NeedsExtension(f, filesize, bytesToMap) && ExtensionFails(f, os, filesize, out)) {
      assert g == f && IsOpen(m.os, f.file);
      assert m.view.Some? ==> m.view.value.id == os.nextId != f.file.id;
    }
  }

  /** `munmap(addr, length)` removes every page that the first `length`
      bytes from `addr` touch, and refuses a length of 0. A view is gone
      only when no page of it is left: the length is non-zero and, rounded
      up to whole pages, reaches the view's end. A view left partly mapped
      stays live. */
  predicate UnmapCovers(v: View, length: nat, k: PageShift)
  {
    length > 0 && v.length <= RoundUp(length, k)
  }

  /** `closeMappedFile`: `munmap` the view, if there is one, with the
      stream's file size as the length; close the descriptor if the field
      is non-zero; then zero the field. */
  function CloseMappedFile(f: Fields, os: OsState, view: Option<View>, filesize: usize, k: PageShift): (r: (Fields, OsState))
    ensures r.0 == f.(file := Null)
    ensures r.1.file == os.file && r.1.nextId == os.nextId
    ensures r.1.live ==
      os.live - (if view.Some? && UnmapCovers(view.value, filesize, k) then {view.value.id} else {}) - HandleIds(f.file)
    ensures view.Some? && view.value.id in os.live && (f.file.Resource? ==> view.value.id != f.file.id) ==>
      (view.value.id in r.1.live <==> filesize == 0 || RoundUp(filesize, k) < view.value.length)
    ensures ((view.Some? ==> view.value.id in os.live) && (f.file.Resource? ==> f.file.id in os.live)
             && (view.Some? && f.file.Resource? ==> view.value.id != f.file.id)) ==>
      r.1.staleReleases == os.staleReleases
    ensures f.file.Resource? && f.file.id !in os.live && (view.Some? ==> view.value.id != f.file.id) ==>
      r.1.staleReleases > os.staleReleases
  {
    var os1 := if view.Some? && UnmapCovers(view.value, filesize, k) then Unmap(os, view.value) else os;
    var os2 := if f.file != Null then CloseHandle(os1, f.file) else os1;
    (f.(file := Null), os2)
  }

  /** `closeMappedFile` as evidently intended: `munmap` with the mapped
      size, as `memUnmap` does, so that no page of the view outlives the
      teardown. */
  function CloseMappedFileWholeView(f: Fields, os: OsState, view: Option<View>, mappedBytes: usize, k: PageShift): (r: (Fields, OsState))
    ensures r.0 == f.(file := Null)
    ensures r.1.file == os.file && r.1.nextId == os.nextId
    ensures view.Some? && 0 < view.value.length <= mappedBytes ==>
      r.1.live == os.live - {view.value.id} - HandleIds(f.file)
    ensures view.None? ==> r.1.live == os.live - HandleIds(f.file)
    ensures ((view.Some? ==> view.value.id in os.live) && (f.file.Resource? ==> f.file.id in os.live)
             && (view.Some? && f.file.Resource? ==> view.value.id != f.file.id)) ==>
      r.1.staleReleases == os.staleReleases
  {
    CloseMappedFile(f, os, view, mappedBytes, k)
  }
}
