/** The Windows back end: `CreateFile`/`GetFileSizeEx`/`CreateFileMapping`/
    `MapViewOfFile`/`UnmapViewOfFile`/`CloseHandle`. Flag words are sets of
    symbolic flags; an unset disposition or protection is the zero the
    field starts with. */
module Win32 {
  import opened Wrappers
  import opened Word
  import opened Modes
  import opened OsModel

  datatype GenericAccess = GenericRead | GenericWrite
  datatype ShareFlag = FileShareRead | FileShareWrite
  datatype Disposition = NoDisposition | OpenExisting | OpenAlways
  datatype MapAccess = FileMapRead | FileMapWrite
  datatype PageProtection = NoProtection | PageReadOnly | PageReadWrite

  /** `memMapPlatformFields`: the file handle, the file-mapping handle and
      the five option words (`prot` holds the creation disposition). */
  datatype Fields = Fields(
    file: Handle,
    mappedFile: Handle,
    fileOpenMode: set<GenericAccess>,
    sharedMode: set<ShareFlag>,
    prot: Disposition,
    mmapMode: set<MapAccess>,
    protectionMode: PageProtection)

  /** `new memMapPlatformFields()`: value-initialised, every member zero. */
  const Initial: Fields := Fields(Null, Null, {}, {}, NoDisposition, {}, NoProtection)

  /** The statements of the APPEND case. */
  function AppendOptions(f: Fields): (r: Fields)
  {
    f.(fileOpenMode := {GenericRead, GenericWrite}, sharedMode := {}, prot := OpenExisting,
       mmapMode := {FileMapWrite}, protectionMode := PageReadWrite)
  }

  /** `initFileOptions`. The WRITE case has no `break`: its five
      assignments are followed by the five of APPEND, which overwrite them. */
  function InitFileOptions(f: Fields, mode: FileMode): (r: Fields)
    ensures r.file == f.file && r.mappedFile == f.mappedFile
  {
    match mode
    case Read =>
      f.(fileOpenMode := {GenericRead}, sharedMode := {FileShareRead}, prot := OpenExisting,
         mmapMode := {FileMapRead}, protectionMode := PageReadOnly)
    case ReadWrite =>
      f.(fileOpenMode := {GenericRead, GenericWrite}, sharedMode := {}, prot := OpenAlways,
         mmapMode := {FileMapWrite, FileMapRead}, protectionMode := PageReadWrite)
    case Write =>
      var w := f.(fileOpenMode := {GenericWrite}, sharedMode := {FileShareWrite}, prot := OpenAlways,
                  mmapMode := {FileMapWrite}, protectionMode := PageReadWrite);
      AppendOptions(w)
    case Append => AppendOptions(f)
  }

  /** Because of the fall-through, WRITE ends with APPEND's options:
      read-write access, no sharing, and the file must already exist. */
  lemma WriteFallsIntoAppend(f: Fields)
    ensures InitFileOptions(f, Write) == InitFileOptions(f, Append)
    ensures InitFileOptions(f, Write).prot == OpenExisting
    ensures InitFileOptions(f, Write).fileOpenMode == {GenericRead, GenericWrite}
  {
  }

  /** For every mode the view access and the page protection are granted
      by the access the file is opened with, and only READ_WRITE creates a
      missing file. */
  lemma OptionsAreConsistent(f: Fields, mode: FileMode)
    ensures var r := InitFileOptions(f, mode);
      && (FileMapRead in r.mmapMode ==> GenericRead in r.fileOpenMode)
      && (FileMapWrite in r.mmapMode ==> GenericWrite in r.fileOpenMode && r.protectionMode == PageReadWrite)
      && (r.protectionMode == PageReadWrite <==> GenericWrite in r.fileOpenMode)
      && (r.prot == OpenAlways <==> mode == ReadWrite)
  {
  }

  datatype FileAttribute = FileAttributeNormal | FileFlagSequentialScan | FileFlagRandomAccess

  /** The flags-and-attributes argument `fileOpen` passes to `CreateFile`
      for a cache hint. */
  function AttributeFor(h: CacheHint): (a: FileAttribute)
  {
    match h
    case Normal => FileAttributeNormal
    case SequentialScan => FileFlagSequentialScan
    case RandomAccess => FileFlagRandomAccess
  }

  /** Every hint has its own attribute, and every attribute comes from a
      hint. */
  lemma AttributeIsBijective(h1: CacheHint, h2: CacheHint, a: FileAttribute)
    ensures AttributeFor(h1) == AttributeFor(h2) <==> h1 == h2
    ensures exists h :: AttributeFor(h) == a
  {
    match a
    case FileAttributeNormal => assert AttributeFor(Normal) == a;
    case FileFlagSequentialScan => assert AttributeFor(SequentialScan) == a;
    case FileFlagRandomAccess => assert AttributeFor(RandomAccess) == a;
  }

  /** `fileOpen`: `CreateFile` with the hint's attribute; a failure leaves
      `INVALID_HANDLE_VALUE` in the field. The third component is the
      attribute passed. */
  function FileOpen(f: Fields, os: OsState, hint: CacheHint, ok: bool): (r: (Fields, OsState, FileAttribute))
    ensures ok ==> r.0 == f.(file := Resource(os.nextId)) && IsOpen(r.1, r.0.file)
    ensures !ok ==> r.0 == f.(file := Invalid) && r.1 == os
    ensures r.1.file == os.file && r.1.staleReleases == os.staleReleases
    ensures Sane(os) ==> Sane(r.1)
    ensures r.2 == AttributeFor(hint)
  {
    var attribute := AttributeFor(hint);
    if ok then
      var (id, os1) := Acquire(os);
      (f.(file := Resource(id)), os1, attribute)
    else
      (f.(file := Invalid), os, attribute)
  }

  /** `getFileSize`: `GetFileSizeEx` of the file handle, 0 when it fails. */
  function GetFileSize(f: Fields, os: OsState): (n: usize)
    requires |os.file| < WordModulus
  {
    if IsOpen(os, f.file) then |os.file| else 0
  }

  /** The result of `memMap`: the platform fields, the OS state, the view
      (`None` is `nullptr`) and the final value of the in-out
      `bytesToMap`. */
  datatype MapResult = MapResult(fields: Fields, os: OsState, view: Option<View>, bytesToMap: usize)

  /** Whether `CreateFileMapping` can succeed on the file handle. An open
      file can be mapped, unless both it and the requested size are empty:
      a maximum size of 0 means the file's size, and an empty file cannot
      be mapped. `INVALID_HANDLE_VALUE`, which a failed `fileOpen`
      leaves behind, passes the null test of `memMap`, and given it
      `CreateFileMapping` creates a section backed by the paging file, which
      needs a non-zero size. A handle that is not open fails. */
  predicate MappingSource(os: OsState, file: Handle, bytesToMap: usize)
  {
    || (IsOpen(os, file) && (bytesToMap > 0 || |os.file| > 0))
    || (file == Invalid && bytesToMap > 0)
  }

  /** `memMap`, control flow only: give up without a file handle; close the
      previous file-mapping handle; create a new one; map a view of it. A
      view that cannot be mapped leaves the new file-mapping handle open.
      `MapViewOfFile` fails, besides when the outcome says so, for an
      offset that is not a multiple of the allocation granularity
      (`aligned` is false). */
  function MemMap(f: Fields, os: OsState, bytesToMap: usize, offset: usize, aligned: bool, out: Outcomes): (r: MapResult)
    ensures f.file == Null ==> r == MapResult(f, os, None, bytesToMap)
    ensures f.file != Null && f.mappedFile.Resource? && f.mappedFile.id < os.nextId ==> f.mappedFile.id !in r.os.live
    ensures r.view.Some? ==>
      && r.view.value == View(os.nextId + 1, offset, bytesToMap)
      && r.fields.mappedFile == Resource(os.nextId)
      && r.bytesToMap == bytesToMap && IsOpen(r.os, r.fields.mappedFile)
      && out.mapOk && out.viewOk && aligned
    ensures r.view.Some? && f.mappedFile == Null ==> MappingSource(os, f.file, bytesToMap)
    ensures f.file == Invalid && bytesToMap > 0 && out.mapOk && out.viewOk && aligned ==> r.view.Some?
    ensures (IsOpen(os, f.file) && (f.mappedFile.Resource? ==> f.mappedFile.id != f.file.id)
             && (bytesToMap > 0 || |os.file| > 0) && out.mapOk && out.viewOk && aligned) ==>
      r.view.Some?
    ensures f.file != Null ==> r.fields.mappedFile in {Null, Resource(os.nextId)}
    ensures f.file != Null && r.view.None? && r.fields.mappedFile.Resource? ==> r.bytesToMap == 0
    ensures r.fields == f.(mappedFile := r.fields.mappedFile)
    ensures r.os.file == os.file
    ensures f.mappedFile == Null ==> os.live <= r.os.live && r.os.staleReleases == os.staleReleases
    ensures f.file != Null ==> r.os.live <= os.live - HandleIds(f.mappedFile) + {os.nextId, os.nextId + 1}
    ensures r.os.nextId >= os.nextId
    ensures Sane(os) ==> Sane(r.os)
  {
    if f.file == Null then MapResult(f, os, None, bytesToMap)
    else
      var os1 := if f.mappedFile != Null then CloseHandle(os, f.mappedFile) else os;
      var f1 := f.(mappedFile := Null);
      if !(out.mapOk && MappingSource(os1, f1.file, bytesToMap)) then MapResult(f1, os1, None, bytesToMap)
      else
        var (mid, os2) := Acquire(os1);
        var f2 := f1.(mappedFile := Resource(mid));
        if !(out.viewOk && aligned) then MapResult(f2, os2, None, 0)
        else
          var (vid, os3) := Acquire(os2);
          MapResult(f2, os3, Some(View(vid, offset, bytesToMap)), bytesToMap)
  }

  /** `closeMappedFile`: unmap the view if there is one, then close and
      null each handle that is not null. */
  function CloseMappedFile(f: Fields, os: OsState, view: Option<View>): (r: (Fields, OsState))
    ensures r.0 == f.(file := Null, mappedFile := Null)
    ensures r.1.file == os.file && r.1.nextId == os.nextId
    ensures r.1.live == os.live - (if view.Some? then {view.value.id} else {}) - HandleIds(f.mappedFile) - HandleIds(f.file)
    ensures ((view.Some? ==> view.value.id in os.live)
             && (f.mappedFile.Resource? ==> f.mappedFile.id in os.live)
             && (f.file.Resource? ==> f.file.id in os.live)
             && (view.Some? && f.mappedFile.Resource? ==> view.value.id != f.mappedFile.id)
             && (view.Some? && f.file.Resource? ==> view.value.id != f.file.id)
             && (f.mappedFile.Resource? && f.file.Resource? ==> f.mappedFile.id != f.file.id)) ==>
      r.1.staleReleases == os.staleReleases
  {
    var os1 := if view.Some? then Unmap(os, view.value) else os;
    var os2 := if f.mappedFile != Null then CloseHandle(os1, f.mappedFile) else os1;
    var os3 := if f.file != Null then CloseHandle(os2, f.file) else os2;
    (f.(file := Null, mappedFile := Null), os3)
  }
}
