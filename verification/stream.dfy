/** `MemoryDataStream`: a stream over one memory mapping of a file. The
    stream is an immutable record and every member function of the class
    is a function from the record (and its arguments) to the new record
    and the result. Platform-specific members dispatch on the back end the
    stream was built for; the page size is `PageSize(k)`. */
module Stream {
  import opened Wrappers
  import opened Word
  import opened Modes
  import opened OsModel
  import opened Paging
  import Posix
  import Win32

  datatype PlatformFields = PosixFields(posix: Posix.Fields) | Win32Fields(win32: Win32.Fields)

  /** The fields of `MemoryDataStream`. `view` is `mappedView` (`None` is
      `nullptr`); `os` is the state of the OS objects the stream owns and of
      its file's bytes. `path()`, `tell()`, `getSize()` and `mappedSize()`
      return `filename`, `curPos`, `filesize` and `mappedBytes`. */
  datatype Stream = Stream(
    filename: string,
    filesize: usize,
    hint: CacheHint,
    mappedBytes: usize,
    curPos: usize,
    referenceCount: int32,
    fields: PlatformFields,
    view: Option<View>,
    os: OsState)

  /** `isValid()` */
  predicate IsValid(s: Stream)
  {
    s.view.Some?
  }

  /** `eof()` */
  predicate Eof(s: Stream)
  {
    s.curPos >= s.filesize
  }

  /** `hasRef()` */
  predicate HasRef(s: Stream)
  {
    s.referenceCount > 0
  }

  /** The file descriptor or file handle. */
  function FileHandle(f: PlatformFields): (h: Handle)
  {
    match f
    case PosixFields(p) => p.file
    case Win32Fields(w) => w.file
  }

  /** The resources named by the stream's handle fields. */
  function Handles(f: PlatformFields): (ids: set<nat>)
  {
    match f
    case PosixFields(p) => HandleIds(p.file)
    case Win32Fields(w) => HandleIds(w.file) + HandleIds(w.mappedFile)
  }

  /** Every OS resource the stream refers to. */
  function Owned(s: Stream): (ids: set<nat>)
  {
    Handles(s.fields) + (if s.view.Some? then {s.view.value.id} else {})
  }

  /** The stream's handle fields and its view name different resources. */
  predicate Distinct(s: Stream)
  {
    match s.fields
    case PosixFields(p) =>
      s.view.Some? && p.file.Resource? ==> s.view.value.id != p.file.id
    case Win32Fields(w) =>
      && (s.view.Some? && w.mappedFile.Resource? ==> s.view.value.id != w.mappedFile.id)
      && (s.view.Some? && w.file.Resource? ==> s.view.value.id != w.file.id)
      && (w.mappedFile.Resource? && w.file.Resource? ==> w.mappedFile.id != w.file.id)
  }

  /** Every resource the stream refers to is its own and still live: a
      teardown releases each once and nothing twice. */
  ghost predicate HandlesLive(s: Stream)
  {
    Sane(s.os) && Owned(s) <= s.os.live && Distinct(s)
  }

  /** Bytes `[pos, pos + n)` of the view are mapped and backed by the file:
      what `memcpy` through the view needs. */
  predicate Accessible(s: Stream, pos: nat, n: nat)
  {
    && s.view.Some?
    && pos + n <= s.view.value.length
    && s.view.value.offset + pos + n <= |s.os.file|
  }

  /** The whole recorded size is covered by the view and by the file. */
  predicate Coherent(s: Stream)
  {
    s.view.Some? ==>
      && s.filesize <= s.view.value.length
      && s.view.value.offset + s.filesize <= |s.os.file|
  }

  /** A mapped, coherent stream whose cursor is inside the file: every read
      and write the stream clamps stays inside the view. */
  predicate Usable(s: Stream)
  {
    IsValid(s) && Coherent(s) && s.curPos <= s.filesize
  }

  /** The view's protection allows writes through it. */
  predicate WritableFields(f: PlatformFields)
  {
    match f
    case PosixFields(p) => Posix.ProtWrite in p.prot
    case Win32Fields(w) => Win32.FileMapWrite in w.mmapMode
  }

  predicate Writable(s: Stream)
  {
    WritableFields(s.fields)
  }

  /** `std::min(size, filesize - curPos)`, the subtraction done in
      `size_t`. */
  function Amount(s: Stream, size: usize): (n: usize)
  {
    var avail := ToUsize(s.filesize - s.curPos);
    if size < avail then size else avail
  }

  // ---------------------------------------------------------------------
  // Reading, writing, seeking.

  /** `read`: copy `min(size, filesize - curPos)` bytes at the cursor out of
      the view and advance the cursor. */
  function Read(s: Stream, size: usize): (r: (Stream, seq<bv8>))
    requires Amount(s, size) > 0 ==> Accessible(s, s.curPos, Amount(s, size))
    ensures |r.1| == Amount(s, size) <= size
    ensures |r.1| > 0 ==> r.1 == s.os.file[s.view.value.offset + s.curPos .. s.view.value.offset + s.curPos + |r.1|]
    ensures r.0 == s.(curPos := ToUsize(s.curPos + |r.1|))
    ensures s.curPos <= s.filesize ==> r.0.curPos == s.curPos + |r.1| <= s.filesize
    ensures s.curPos <= s.filesize ==> (|r.1| == size || Eof(r.0))
    ensures Usable(s) ==> Usable(r.0)
  {
    var n := Amount(s, size);
    var bytes := if n == 0 then [] else
      var start := s.view.value.offset + s.curPos;
      s.os.file[start .. start + n];
    (s.(curPos := ToUsize(s.curPos + n)), bytes)
  }

  /** `write`: copy `min(size, filesize - curPos)` bytes of the buffer to
      the view at the cursor and advance the cursor. The clamp is the
      recorded file size, not the mapped size. */
  function Write(s: Stream, buf: seq<bv8>): (r: (Stream, usize))
    requires |buf| < WordModulus
    requires Amount(s, |buf|) > 0 ==> Accessible(s, s.curPos, Amount(s, |buf|)) && Writable(s)
    ensures r.1 == Amount(s, |buf|) <= |buf|
    ensures |r.0.os.file| == |s.os.file|
    ensures r.1 > 0 ==> forall i | 0 <= i < |s.os.file| ::
      r.0.os.file[i] == if s.view.value.offset + s.curPos <= i < s.view.value.offset + s.curPos + r.1
                        then buf[i - s.view.value.offset - s.curPos] else s.os.file[i]
    ensures r.1 == 0 ==> r.0.os.file == s.os.file
    ensures r.0 == s.(curPos := ToUsize(s.curPos + r.1), os := s.os.(file := r.0.os.file))
    ensures s.curPos <= s.filesize ==> r.0.curPos == s.curPos + r.1 <= s.filesize
    ensures Usable(s) ==> Usable(r.0)
  {
    var n := Amount(s, |buf|);
    var file := if n == 0 then s.os.file else
      var start := s.view.value.offset + s.curPos;
      s.os.file[..start] + buf[..n] + s.os.file[start + n..];
    (s.(curPos := ToUsize(s.curPos + n), os := s.os.(file := file)), n)
  }

  /** `seek`. The signed offset meets the unsigned size and cursor in 64-bit
      unsigned arithmetic. A relative seek moves the cursor when the target
      is inside the file, but reports `false` whether or not it moved. */
  function Seek(s: Stream, offset: streamoff, fromCurrent: bool): (r: (Stream, bool))
    ensures fromCurrent ==> !r.1
    ensures !fromCurrent ==> (r.1 <==> ToUsize(offset) < s.filesize)
    ensures r.1 ==> r.0 == s.(curPos := ToUsize(offset))
    ensures r.0 == s || (r.0 == s.(curPos := r.0.curPos) && r.0.curPos < s.filesize)
    ensures Usable(s) ==> Usable(r.0)
  {
    if !fromCurrent then
      if ToUsize(offset) < s.filesize then (s.(curPos := ToUsize(offset)), true) else (s, false)
    else
      if ToUsize(s.curPos + offset) < s.filesize then (s.(curPos := ToUsize(s.curPos + offset)), false)
      else (s, false)
  }

  /** For files no larger than a `streamoff` can address, an absolute seek
      succeeds exactly for offsets inside the file and then `tell()` is the
      offset; otherwise nothing changes. */
  lemma AbsoluteSeek(s: Stream, offset: streamoff)
    requires s.filesize <= MaxOff
    ensures var (t, ok) := Seek(s, offset, false);
      && (ok <==> 0 <= offset < s.filesize)
      && (ok ==> t == s.(curPos := offset))
      && (!ok ==> t == s)
  {
  }

  /** For a file and a cursor no larger than a `streamoff` can address, a
      relative seek moves the cursor by the offset exactly when the target
      lies in `[0, filesize)`, leaves it alone otherwise (a negative target
      wraps to a huge unsigned value and is rejected) and always reports
      `false`. */
  lemma RelativeSeek(s: Stream, offset: streamoff)
    requires s.filesize <= MaxOff && s.curPos <= MaxOff + 1
    ensures var (t, ok) := Seek(s, offset, true);
      && !ok
      && (0 <= s.curPos + offset < s.filesize ==> t == s.(curPos := s.curPos + offset))
      && (!(0 <= s.curPos + offset < s.filesize) ==> t == s)
  {
  }

  /** The amounts of two consecutive reads add up to the amount of one read
      of the combined size, and both end at the same cursor. */
  lemma ReadAmountsAdd(s: Stream, a: usize, b: usize)
    requires Usable(s) && a + b < WordModulus
    ensures var s1 := Read(s, a).0;
      && Amount(s, a + b) == Amount(s, a) + Amount(s1, b)
      && Read(s1, b).0 == Read(s, a + b).0
  {
    var s1 := Read(s, a).0;
    assert s1.curPos == s.curPos + Amount(s, a) <= s.filesize;
    assert ToUsize(s.filesize - s.curPos) == s.filesize - s.curPos;
    assert ToUsize(s1.filesize - s1.curPos) == s.filesize - s1.curPos;
  }

  /** Two adjacent slices of a sequence make up the slice that spans both. */
  lemma AdjacentSlices<T>(f: seq<T>, i: nat, j: nat, k: nat)
    requires i <= j <= k <= |f|
    ensures f[i..j] + f[j..k] == f[i..k]
  {
    assert forall n | 0 <= n < k - i :: (f[i..j] + f[j..k])[n] == f[i + n];
  }

  /** Two consecutive reads return what one read of the combined size
      returns, and leave the stream in the same state. */
  lemma {:induction false} ReadConcat(s: Stream, a: usize, b: usize)
    requires Usable(s) && a + b < WordModulus
    ensures var (s1, x) := Read(s, a);
      var (s2, y) := Read(s1, b);
      Read(s, a + b) == (s2, x + y)
  {
    var (s1, x) := Read(s, a);
    var (s2, y) := Read(s1, b);
    var (s3, z) := Read(s, a + b);
    var start := s.view.value.offset + s.curPos;
    ReadAmountsAdd(s, a, b);
    assert |z| == |x| + |y| && s3 == s2;
    if |x| > 0 && |y| > 0 {
      AdjacentSlices(s.os.file, start, start + |x|, start + |x| + |y|);
    } else if |x| > 0 {
      assert z == x && x + y == x;
    } else if |y| > 0 {
      assert a == 0 && s1 == s;
      assert z == y && x + y == y;
    } else {
      assert z == [] && x + y == [];
    }
  }

  /** A read of at least the remaining size returns the rest of the file
      and reaches end of file. */
  lemma ReadToEnd(s: Stream, size: usize)
    requires Usable(s) && size >= s.filesize - s.curPos
    ensures var (t, bytes) := Read(s, size);
      && Eof(t) && t.curPos == s.filesize
      && bytes == s.os.file[s.view.value.offset + s.curPos .. s.view.value.offset + s.filesize]
  {
  }

  /** Writing a buffer, seeking back to where the write started and reading
      the amount written returns the written prefix of the buffer. */
  lemma WriteThenReadBack(s: Stream, buf: seq<bv8>)
    requires Usable(s) && Writable(s) && |buf| < WordModulus && s.curPos <= MaxOff
    ensures var (t, n) := Write(s, buf);
      var (u, _) := Seek(t, s.curPos, false);
      Read(u, n).1 == buf[..n]
  {
    var (t, n) := Write(s, buf);
    var (u, _) := Seek(t, s.curPos, false);
    if n > 0 {
      assert u.curPos == s.curPos;
      var start := s.view.value.offset + s.curPos;
      var bytes := Read(u, n).1;
      assert forall i | 0 <= i < n :: bytes[i] == t.os.file[start + i] == buf[i];
    }
  }

  /** The exceptions `at` throws. */
  datatype AccessError = InvalidArgument | OutOfRange

  /** `at`: checked access to one byte of the view. */
  function At(s: Stream, offset: usize): (r: Result<bv8, AccessError>)
    requires IsValid(s) && offset < s.filesize ==> Accessible(s, offset, 1)
    ensures !IsValid(s) <==> r == Err(InvalidArgument)
    ensures IsValid(s) && offset >= s.filesize <==> r == Err(OutOfRange)
    ensures r.Ok? ==> r.value == s.os.file[s.view.value.offset + offset]
  {
    if s.view.None? then Err(InvalidArgument)
    else if offset >= s.filesize then Err(OutOfRange)
    else Ok(s.os.file[s.view.value.offset + offset])
  }

  /** `at(i)` is the byte a one-byte read at position `i` returns. */
  lemma AtAgreesWithRead(s: Stream, offset: usize)
    requires Usable(s) && offset < s.filesize
    ensures Read(s.(curPos := offset), 1).1 == [At(s, offset).value]
  {
  }

  // ---------------------------------------------------------------------
  // Reference counting and teardown.

  /** `addRef` */
  function AddRef(s: Stream): (r: Stream)
    requires s.referenceCount < MaxInt32
    ensures r.referenceCount == s.referenceCount + 1 && HasRef(r) == (s.referenceCount >= 0)
    ensures r == s.(referenceCount := r.referenceCount)
  {
    s.(referenceCount := s.referenceCount + 1)
  }

  /** The teardown unmaps the whole view: always on Windows, where
      `UnmapViewOfFile` takes no length; on POSIX only when
      `munmap(view, filesize)` reaches every page of it. */
  predicate TeardownUnmapsView(s: Stream, k: PageShift)
  {
    s.view.Some? && (s.fields.Win32Fields? || Posix.UnmapCovers(s.view.value, s.filesize, k))
  }

  /** The resources the teardown releases: the handles, and the view when
      it is unmapped whole. */
  function Released(s: Stream, k: PageShift): (ids: set<nat>)
  {
    Handles(s.fields) + (if TeardownUnmapsView(s, k) then {s.view.value.id} else {})
  }

  /** `closeMappedFile` of the stream's back end. */
  function CloseMappedFile(s: Stream, k: PageShift): (r: (PlatformFields, OsState))
    ensures Handles(r.0) == {} && r.0.PosixFields? == s.fields.PosixFields?
    ensures r.1.live == s.os.live - Released(s, k)
    ensures HandlesLive(s) && s.view.Some? ==>
      (s.view.value.id in r.1.live <==>
         s.fields.PosixFields? && (s.filesize == 0 || RoundUp(s.filesize, k) < s.view.value.length))
    ensures r.1.file == s.os.file && r.1.nextId == s.os.nextId
    ensures HandlesLive(s) ==> r.1.staleReleases == s.os.staleReleases
  {
    match s.fields
    case PosixFields(p) =>
      var (p1, os1) := Posix.CloseMappedFile(p, s.os, s.view, s.filesize, k);
      (PosixFields(p1), os1)
    case Win32Fields(w) =>
      var (w1, os1) := Win32.CloseMappedFile(w, s.os, s.view);
      (Win32Fields(w1), os1)
  }

  /** `close`: drop one reference; when none remains, tear down the view
      and the handles, forget the view and zero the size. */
  function Close(s: Stream, k: PageShift): (r: Stream)
    requires s.referenceCount > MinInt32
    ensures r.referenceCount == s.referenceCount - 1
    ensures HasRef(r) ==> r == s.(referenceCount := r.referenceCount)
    ensures !HasRef(r) ==>
      && !IsValid(r) && r.filesize == 0 && Owned(r) == {}
      && r.os.live == s.os.live - Released(s, k)
      && (HandlesLive(s) ==> r.os.staleReleases == s.os.staleReleases)
      && r.curPos == s.curPos && r.mappedBytes == s.mappedBytes
    ensures !HasRef(r) && HandlesLive(s) && s.view.Some? ==>
      (s.view.value.id in r.os.live <==>
         s.fields.PosixFields? && (s.filesize == 0 || RoundUp(s.filesize, k) < s.view.value.length))
  {
    var rc := s.referenceCount - 1;
    if rc > 0 then s.(referenceCount := rc)
    else
      var (f, os) := CloseMappedFile(s, k);
      s.(referenceCount := rc, fields := f, os := os, view := None, filesize := 0)
  }

  /** After the last `close` the view is gone and the size is 0, yet the
      cursor keeps its value: a later `read` or `write` of a non-zero size
      computes `filesize - curPos` with wrap-around, gets a non-zero amount
      and would copy through `nullptr + curPos`. */
  lemma AccessAfterLastClose(s: Stream, size: usize, k: PageShift)
    requires MinInt32 < s.referenceCount <= 1 && s.curPos > 0 && size > 0
    ensures var t := Close(s, k);
      && !IsValid(t) && t.curPos == s.curPos
      && Amount(t, size) > 0 && !Accessible(t, t.curPos, Amount(t, size))
  {
  }

  /** Taking a reference and dropping it again restores the stream. */
  lemma AddRefThenClose(s: Stream, k: PageShift)
    requires 1 <= s.referenceCount < MaxInt32
    ensures Close(AddRef(s), k) == s
  {
  }

  /** A second teardown (the destructor's `close()` after the last
      `close()`) releases nothing and leaves the stream invalid. */
  lemma SecondTeardownIsNoOp(s: Stream, k: PageShift)
    requires MinInt32 + 1 < s.referenceCount <= 1
    ensures Close(Close(s, k), k).os == Close(s, k).os
    ensures !IsValid(Close(Close(s, k), k)) && Close(Close(s, k), k).filesize == 0
  {
    var r := Close(s, k);
    assert Owned(r) == {};
    match r.fields
    case PosixFields(p) =>
    case Win32Fields(w) =>
  }

  // ---------------------------------------------------------------------
  // Mapping.

  /** `initPlatformFields`: fresh, zeroed fields for the back end. */
  function InitPlatformFields(platform: Platform): (r: PlatformFields)
    ensures r.PosixFields? <==> platform == Posix
    ensures Handles(r) == {} && FileHandle(r) == Null
  {
    match platform
    case Posix => PosixFields(Posix.Initial)
    case Win32 => Win32Fields(Win32.Initial)
  }

  /** `initFileOptions` of the back end. */
  function InitFileOptions(f: PlatformFields, mode: FileMode): (r: PlatformFields)
    ensures r.PosixFields? == f.PosixFields? && Handles(r) == Handles(f) && FileHandle(r) == FileHandle(f)
    ensures WritableFields(r) <==> mode != FileMode.Read
  {
    match f
    case PosixFields(p) => PosixFields(Posix.InitFileOptions(p, mode))
    case Win32Fields(w) => Win32Fields(Win32.InitFileOptions(w, mode))
  }

  /** `fileOpen` of the back end. */
  function FileOpen(s: Stream, ok: bool): (r: Stream)
    ensures ok ==> FileHandle(r.fields) == Resource(s.os.nextId) && IsOpen(r.os, FileHandle(r.fields))
    ensures ok ==> r.os.live == s.os.live + {s.os.nextId} && r.os.nextId == s.os.nextId + 1
    ensures !ok ==> FileHandle(r.fields) == Invalid && r.os == s.os
    ensures r == s.(fields := r.fields, os := r.os)
    ensures r.fields == match s.fields
      case PosixFields(p) => PosixFields(p.(file := FileHandle(r.fields)))
      case Win32Fields(w) => Win32Fields(w.(file := FileHandle(r.fields)))
    ensures r.os.file == s.os.file && r.os.staleReleases == s.os.staleReleases
    ensures Sane(s.os) ==> Sane(r.os)
  {
    match s.fields
    case PosixFields(p) =>
      var (p1, os1) := Posix.FileOpen(p, s.os, ok);
      s.(fields := PosixFields(p1), os := os1)
    case Win32Fields(w) =>
      var (w1, os1, _) := Win32.FileOpen(w, s.os, s.hint, ok);
      s.(fields := Win32Fields(w1), os := os1)
  }

  /** `getFileSize` of the back end: the size of the open file, else 0. */
  function GetFileSize(s: Stream): (r: usize)
    requires |s.os.file| < WordModulus
    ensures IsOpen(s.os, FileHandle(s.fields)) ==> r == |s.os.file|
    ensures !IsOpen(s.os, FileHandle(s.fields)) ==> r == 0
  {
    match s.fields
    case PosixFields(p) => Posix.GetFileSize(p, s.os)
    case Win32Fields(w) => Win32.GetFileSize(w, s.os)
  }

  /** What `memMap` leaves behind: the platform fields, the OS state, the
      view and the final value of the in-out `bytesToMap`. */
  datatype Mapped = Mapped(fields: PlatformFields, os: OsState, view: Option<View>, bytesToMap: usize)

  /** The calls `memMap` makes all succeed: the offset is a multiple of the
      page size, which `mmap` and `MapViewOfFile` demand; on POSIX the
      descriptor is open and mappable, the length is non-zero, any
      extension succeeds and `mmap` succeeds; on Windows the file handle
      is open and distinct from a previous file-mapping handle, the file
      or the requested size is non-empty, and both mapping calls
      succeed. */
  predicate MapSucceeds(s: Stream, bytesToMap: usize, offset: usize, k: PageShift, out: Outcomes)
  {
    && offset % PageSize(k) == 0
    && match s.fields
       case PosixFields(p) =>
         && IsOpen(s.os, p.file) && Posix.MmapPermitted(p) && out.mapOk && bytesToMap > 0
         && !(Posix.NeedsExtension(p, s.filesize, bytesToMap) && Posix.ExtensionFails(p, s.os, s.filesize, out))
       case Win32Fields(w) =>
         && IsOpen(s.os, w.file) && (w.mappedFile.Resource? ==> w.mappedFile.id != w.file.id)
         && (bytesToMap > 0 || |s.os.file| > 0) && out.mapOk && out.viewOk
  }

  /** `memMap` of the back end. The source's `memMap` does not inspect the
      offset; the model hands the back end whether `mmap` or
      `MapViewOfFile` would accept it, a multiple of the page size, which
      `OFFSET_INTO_PAGE` decides. */
  function MemMap(s: Stream, bytesToMap: usize, offset: usize, k: PageShift, out: Outcomes): (r: Mapped)
    ensures r.view.Some? ==>
      && r.view.value.offset == offset && r.view.value.length == bytesToMap == r.bytesToMap
      && offset % PageSize(k) == 0
    ensures r.fields.PosixFields? == s.fields.PosixFields? && FileHandle(r.fields) == FileHandle(s.fields)
    ensures MapSucceeds(s, bytesToMap, offset, k, out) ==> r.view.Some?
    ensures s.fields.PosixFields? ==> (r.view.Some? <==> MapSucceeds(s, bytesToMap, offset, k, out))
    ensures r.os.live <= s.os.live + {s.os.nextId, s.os.nextId + 1}
    ensures Sane(s.os) ==> Sane(r.os)
  {
    OffsetIsRemainder(offset, k);
    var aligned := OffsetIntoPage(offset, k) == 0;
    match s.fields
    case PosixFields(p) =>
      var m := Posix.MemMap(p, s.os, s.filesize, s.hint, bytesToMap, offset, aligned, out);
      Mapped(s.fields, m.os, m.view, m.bytesToMap)
    case Win32Fields(w) =>
      var m := Win32.MemMap(w, s.os, bytesToMap, offset, aligned, out);
      Mapped(Win32Fields(m.fields), m.os, m.view, m.bytesToMap)
  }

  /** The first step of `remap`: unmap the current view, if any. */
  function Unmapped(s: Stream): (r: Stream)
    ensures r.view.None? && r.os.file == s.os.file && r.os.nextId == s.os.nextId
    ensures s.view.Some? ==> r.os.live == s.os.live - {s.view.value.id}
    ensures r == s.(os := r.os, view := None)
  {
    if s.view.Some? then s.(os := Unmap(s.os, s.view.value), view := None) else s
  }

  /** The part of `remap` both versions share: unmap the current view,
      refuse an offset past the end of the file, map the new window. The
      second component is the final value of `bytesToMap`. */
  function MapWindow(s: Stream, offset: usize, bytesToMap: usize, k: PageShift, out: Outcomes): (r: (Stream, usize))
    ensures s.view.Some? && s.view.value.id < s.os.nextId ==> s.view.value.id !in r.0.os.live
    ensures offset > s.filesize ==> !IsValid(r.0)
    ensures offset <= s.filesize && MapSucceeds(Unmapped(s), bytesToMap, offset, k, out) ==> IsValid(r.0)
    ensures IsValid(r.0) ==>
      && offset <= s.filesize && offset % PageSize(k) == 0
      && r.0.view.value.offset == offset && r.0.view.value.length == bytesToMap == r.1
    ensures r.0 == s.(fields := r.0.fields, os := r.0.os, view := r.0.view)
    ensures Sane(s.os) ==> Sane(r.0.os)
  {
    var s1 := Unmapped(s);
    if offset > s1.filesize then (s1, bytesToMap)
    else
      var m := MemMap(s1, bytesToMap, offset, k, out);
      (s1.(fields := m.fields, os := m.os, view := m.view), m.bytesToMap)
  }

  /** `remap` as written: on success it records `bytesToMap - offset`,
      computed in `size_t`, as the mapped size. */
  function RemapAsWritten(s: Stream, offset: usize, bytesToMap: usize, k: PageShift, out: Outcomes): (r: (Stream, bool))
    ensures r.1 <==> IsValid(r.0)
    ensures r.1 ==> r.0.mappedBytes == ToUsize(r.0.view.value.length - r.0.view.value.offset)
    ensures !r.1 ==> r.0.mappedBytes == s.mappedBytes
    ensures r.0 == MapWindow(s, offset, bytesToMap, k, out).0.(mappedBytes := r.0.mappedBytes)
  {
    var (t, n) := MapWindow(s, offset, bytesToMap, k, out);
    if t.view.Some? then (t.(mappedBytes := ToUsize(n - offset)), true) else (t, false)
  }

  /** `remap` with the mapped size it evidently means to record: the number
      of bytes the new view holds. */
  function Remap(s: Stream, offset: usize, bytesToMap: usize, k: PageShift, out: Outcomes): (r: (Stream, bool))
    ensures r.1 <==> IsValid(r.0)
    ensures r.1 ==> r.0.mappedBytes == r.0.view.value.length == bytesToMap
    ensures r.1 ==> offset <= s.filesize && offset % PageSize(k) == 0 && r.0.view.value.offset == offset
    ensures !r.1 ==> r.0.mappedBytes == s.mappedBytes
    ensures offset > s.filesize ==> !r.1
    ensures offset <= s.filesize && MapSucceeds(Unmapped(s), bytesToMap, offset, k, out) ==> r.1
    ensures r.0 == s.(fields := r.0.fields, os := r.0.os, view := r.0.view, mappedBytes := r.0.mappedBytes)
    ensures Sane(s.os) ==> Sane(r.0.os)
  {
    var (t, n) := MapWindow(s, offset, bytesToMap, k, out);
    if t.view.Some? then (t.(mappedBytes := n), true) else (t, false)
  }

  /** At offset 0, the only offset the constructor uses, the two versions
      agree. */
  lemma RemapAgreesAtOffsetZero(s: Stream, bytesToMap: usize, k: PageShift, out: Outcomes)
    ensures RemapAsWritten(s, 0, bytesToMap, k, out) == Remap(s, 0, bytesToMap, k, out)
  {
  }

  /** At any other offset the recorded size is not the size of the view, and
      past the view's length it wraps around to a huge value. */
  lemma RemapAsWrittenMisrecords(s: Stream, offset: usize, bytesToMap: usize, k: PageShift, out: Outcomes)
    requires offset != 0
    ensures var (t, ok) := RemapAsWritten(s, offset, bytesToMap, k, out);
      ok ==> && t.mappedBytes != t.view.value.length
             && (offset > bytesToMap ==> t.mappedBytes == WordModulus + bytesToMap - offset > bytesToMap)
  {
  }

  /** A concrete case: remapping the second 4096-byte page of an
      8192-byte file with 4096-byte pages maps 4096 bytes, yet the recorded
      mapped size is 0, while the corrected version records 4096. */
  lemma RemapAsWrittenWitness()
    ensures var f := Posix.InitFileOptions(Posix.Initial, FileMode.Read).(file := Resource(0));
      var s := Stream("data.bin", 8192, Normal, 8192, 0, 1, PosixFields(f), None,
                      OsState(seq(8192, _ => 0 as bv8), {0}, 1, 0));
      var out := Outcomes(true, true, true, true, true);
      && RemapAsWritten(s, 4096, 4096, 12, out).1
      && RemapAsWritten(s, 4096, 4096, 12, out).0.view.value.length == 4096
      && RemapAsWritten(s, 4096, 4096, 12, out).0.mappedBytes == 0
      && Remap(s, 4096, 4096, 12, out).0.mappedBytes == 4096
  {
    assert Pow2(4) == 16 && Pow2(8) == 256;
    Pow2Split(4, 8);
    OffsetIsRemainder(4096, 12);
    assert OffsetIntoPage(4096, 12) == 0;
  }

  // ---------------------------------------------------------------------
  // Construction.

  /** The constructor up to its first `getFileSize()`: zeroed fields and
      one reference, the options for the mode, the file opened, its size
      taken. */
  function Prepare(filename: string, mode: FileMode, platform: Platform, os: OsState, out: Outcomes): (r: Stream)
    requires Sane(os)
    ensures r.filename == filename && r.hint == Normal && r.curPos == 0 && r.referenceCount == 1
    ensures r.mappedBytes == 0 && r.view == None
    ensures out.openOk ==>
      && FileHandle(r.fields) == Resource(os.nextId) && r.filesize == |os.file|
      && r.os.live == os.live + {os.nextId} && r.os.nextId == os.nextId + 1
    ensures !out.openOk ==> FileHandle(r.fields) == Invalid && r.os == os && r.filesize == 0
    ensures r.os.file == os.file && r.os.staleReleases == os.staleReleases && Sane(r.os)
    ensures platform == Posix ==>
      r.fields == PosixFields(Posix.InitFileOptions(Posix.Initial, mode).(file := FileHandle(r.fields)))
    ensures platform == Win32 ==>
      r.fields == Win32Fields(Win32.InitFileOptions(Win32.Initial, mode).(file := FileHandle(r.fields)))
  {
    var s0 := Stream(filename, 0, Normal, 0, 0, 1, InitPlatformFields(platform), None, os);
    var s1 := s0.(fields := InitFileOptions(s0.fields, mode));
    var s2 := FileOpen(s1, out.openOk);
    s2.(filesize := GetFileSize(s2))
  }

  /** The constructor: prepare, map `max(size, dataSize)` bytes from offset
      0, and take the size again. */
  function Construct(filename: string, mode: FileMode, dataSize: usize, platform: Platform, k: PageShift, os: OsState, out: Outcomes): (r: Stream)
    requires Sane(os)
    ensures r.filename == filename && r.hint == Normal && r.curPos == 0 && r.referenceCount == 1
    ensures Sane(r.os) && r.filesize <= |r.os.file|
  {
    var s3 := Prepare(filename, mode, platform, os, out);
    var bytesToMap := if s3.filesize < dataSize then dataSize else s3.filesize;
    var (s4, _) := RemapAsWritten(s3, 0, bytesToMap, k, out);
    s4.(filesize := GetFileSize(s4))
  }

  /** The POSIX constructor closes the descriptor early: the file was
      opened writable, must grow to `dataSize`, and `lseek` (or, for an
      empty file, the one-byte `write`) fails. */
  predicate ClosesEarly(platform: Platform, mode: FileMode, dataSize: usize, os: OsState, out: Outcomes)
  {
    && platform == Posix && out.openOk && mode != FileMode.Read && dataSize > |os.file|
    && !(out.seekOk && (|os.file| == 0 ==> out.writeOk))
  }

  /** The view of a constructed stream is backed by the file it names: the
      file was opened, or the back end is POSIX, where `mmap` needs an open
      descriptor. On Windows a failed `CreateFile` leaves
      `INVALID_HANDLE_VALUE`, which `memMap` maps as a paging-file section
      with no file behind it. */
  predicate FileBacked(platform: Platform, out: Outcomes)
  {
    platform == Posix || out.openOk
  }

  /** What a valid constructed stream looks like: it maps
      `max(size, dataSize)` bytes from offset 0, records that as its mapped
      size, its size is the file's (re-read) size, and it is usable. */
  predicate WellConstructed(s: Stream, os: OsState, dataSize: usize)
  {
    && Usable(s) && s.filesize == |s.os.file|
    && s.view.value.offset == 0
    && s.mappedBytes == s.view.value.length == (if |os.file| < dataSize then dataSize else |os.file|)
  }

  lemma PosixConstructUsable(filename: string, mode: FileMode, dataSize: usize, k: PageShift, os: OsState, out: Outcomes)
    requires Sane(os)
    ensures var s := Construct(filename, mode, dataSize, Posix, k, os, out);
      IsValid(s) ==> WellConstructed(s, os, dataSize)
  {
    var s3 := Prepare(filename, mode, Posix, os, out);
    var bytesToMap := if s3.filesize < dataSize then dataSize else s3.filesize;
    RemapAgreesAtOffsetZero(s3, bytesToMap, k, out);
    var (s4, ok) := Remap(s3, 0, bytesToMap, k, out);
    var s := s4.(filesize := GetFileSize(s4));
    if ok {
      var p := s3.fields.posix;
      var m := Posix.MemMap(p, s3.os, s3.filesize, Normal, bytesToMap, 0, OffsetIntoPage(0, k) == 0, out);
      assert s4.os == m.os && s4.fields == s3.fields;
      assert IsOpen(s3.os, p.file) && out.openOk;
      assert IsOpen(s4.os, p.file);
      if Posix.NeedsExtension(p, s3.filesize, bytesToMap) && s3.filesize == 0 {
        assert |s4.os.file| == bytesToMap;
      } else {
        assert s4.os.file == os.file;
      }
    }
  }

  lemma Win32ConstructUsable(filename: string, mode: FileMode, dataSize: usize, k: PageShift, os: OsState, out: Outcomes)
    requires Sane(os)
    ensures var s := Construct(filename, mode, dataSize, Win32, k, os, out);
      IsValid(s) && out.openOk ==> WellConstructed(s, os, dataSize)
  {
    var s3 := Prepare(filename, mode, Win32, os, out);
    var bytesToMap := if s3.filesize < dataSize then dataSize else s3.filesize;
    RemapAgreesAtOffsetZero(s3, bytesToMap, k, out);
    var (s4, ok) := Remap(s3, 0, bytesToMap, k, out);
    if ok && out.openOk {
      var w := s3.fields.win32;
      var m := Win32.MemMap(w, s3.os, bytesToMap, 0, OffsetIntoPage(0, k) == 0, out);
      assert s4.os == m.os && s4.fields == Win32Fields(m.fields);
      assert w.mappedFile == Null;
      assert IsOpen(s3.os, w.file) && out.openOk;
      assert IsOpen(s4.os, w.file);
    }
  }

  /** A valid constructed stream over an opened file maps the whole file
      from offset 0, its recorded mapped size is the view's size, and it is
      usable. */
  lemma ConstructUsable(filename: string, mode: FileMode, dataSize: usize, platform: Platform, k: PageShift, os: OsState, out: Outcomes)
    requires Sane(os)
    ensures var s := Construct(filename, mode, dataSize, platform, k, os, out);
      IsValid(s) && FileBacked(platform, out) ==> WellConstructed(s, os, dataSize)
  {
    match platform
    case Posix => PosixConstructUsable(filename, mode, dataSize, k, os, out);
    case Win32 => Win32ConstructUsable(filename, mode, dataSize, k, os, out);
  }

  /** On Windows, a file that cannot be opened still yields a valid stream
      whenever `dataSize` is non-zero and the mapping calls succeed: the
      view is a paging-file section of `dataSize` bytes, the stream reports
      size 0 and holds `INVALID_HANDLE_VALUE` as its file. */
  lemma Win32PagingFileStream(filename: string, mode: FileMode, dataSize: usize, k: PageShift, os: OsState, out: Outcomes)
    requires Sane(os)
    ensures var s := Construct(filename, mode, dataSize, Win32, k, os, out);
      !out.openOk ==>
        && (IsValid(s) <==> dataSize > 0 && out.mapOk && out.viewOk)
        && (IsValid(s) ==>
              && Usable(s) && s.filesize == 0 && FileHandle(s.fields) == Invalid
              && s.mappedBytes == s.view.value.length == dataSize && s.view.value.offset == 0)
  {
    if out.openOk { return; }
    var s3 := Prepare(filename, mode, Win32, os, out);
    assert s3.filesize == 0;
    var bytesToMap := if s3.filesize < dataSize then dataSize else s3.filesize;
    assert bytesToMap == dataSize;
    RemapAgreesAtOffsetZero(s3, bytesToMap, k, out);
    var (s4, ok) := Remap(s3, 0, bytesToMap, k, out);
    OffsetIsRemainder(0, k);
    var w := s3.fields.win32;
    assert w.file == Invalid && w.mappedFile == Null;
    var m := Win32.MemMap(w, s3.os, bytesToMap, 0, OffsetIntoPage(0, k) == 0, out);
    assert s4.view == m.view && s4.fields == Win32Fields(m.fields);
    assert m.view.Some? <==> dataSize > 0 && out.mapOk && out.viewOk;
  }

  /** When the POSIX constructor yields a valid stream: the file opens in a
      mode `mmap` accepts, there is at least one byte to map, no early
      close, and `mmap` succeeds. */
  predicate PosixOpens(mode: FileMode, dataSize: usize, os: OsState, out: Outcomes)
  {
    && out.openOk && out.mapOk && (mode == FileMode.Read || mode == ReadWrite)
    && (|os.file| > 0 || dataSize > 0)
    && !ClosesEarly(Posix, mode, dataSize, os, out)
  }

  lemma PosixConstructValid(filename: string, mode: FileMode, dataSize: usize, k: PageShift, os: OsState, out: Outcomes)
    requires Sane(os)
    ensures IsValid(Construct(filename, mode, dataSize, Posix, k, os, out)) <==> PosixOpens(mode, dataSize, os, out)
  {
    var s3 := Prepare(filename, mode, Posix, os, out);
    var bytesToMap := if s3.filesize < dataSize then dataSize else s3.filesize;
    RemapAgreesAtOffsetZero(s3, bytesToMap, k, out);
    var (s4, ok) := Remap(s3, 0, bytesToMap, k, out);
    OffsetIsRemainder(0, k);
    Posix.MappableModes(mode);
    var p := s3.fields.posix;
    assert s3 == Unmapped(s3);
    if out.openOk {
      assert IsOpen(s3.os, p.file);
      assert Posix.IsReadOnly(p.fileOpenMode) <==> mode == FileMode.Read;
      assert Posix.NeedsExtension(p, s3.filesize, bytesToMap) && Posix.ExtensionFails(p, s3.os, s3.filesize, out)
         <==> ClosesEarly(Posix, mode, dataSize, os, out);
      assert ok <==> MapSucceeds(s3, bytesToMap, 0, k, out);
    }
  }

  lemma Win32ConstructValid(filename: string, mode: FileMode, dataSize: usize, k: PageShift, os: OsState, out: Outcomes)
    requires Sane(os)
    ensures out.openOk ==>
      (IsValid(Construct(filename, mode, dataSize, Win32, k, os, out)) <==>
         out.mapOk && out.viewOk && (|os.file| > 0 || dataSize > 0))
  {
    if !out.openOk { return; }
    var s3 := Prepare(filename, mode, Win32, os, out);
    var bytesToMap := if s3.filesize < dataSize then dataSize else s3.filesize;
    RemapAgreesAtOffsetZero(s3, bytesToMap, k, out);
    var (s4, ok) := Remap(s3, 0, bytesToMap, k, out);
    OffsetIsRemainder(0, k);
    var w := s3.fields.win32;
    assert w.mappedFile == Null && IsOpen(s3.os, w.file);
    assert s3 == Unmapped(s3);
    assert out.mapOk && out.viewOk && (|os.file| > 0 || dataSize > 0) ==> MapSucceeds(s3, bytesToMap, 0, k, out);
  }

  /** The POSIX constructor after an early close. */
  lemma PosixEarlyClose(filename: string, mode: FileMode, dataSize: usize, k: PageShift, os: OsState, out: Outcomes)
    requires Sane(os) && ClosesEarly(Posix, mode, dataSize, os, out)
    ensures var s := Construct(filename, mode, dataSize, Posix, k, os, out);
      !IsValid(s) && FileHandle(s.fields) == Resource(os.nextId) && os.nextId !in s.os.live
  {
    var s3 := Prepare(filename, mode, Posix, os, out);
    var bytesToMap := if s3.filesize < dataSize then dataSize else s3.filesize;
    var p := s3.fields.posix;
    assert p.file == Resource(os.nextId) && IsOpen(s3.os, p.file);
    assert Posix.NeedsExtension(p, s3.filesize, bytesToMap);
    assert Posix.ExtensionFails(p, s3.os, s3.filesize, out);
    var m := Posix.MemMap(p, s3.os, s3.filesize, Normal, bytesToMap, 0, OffsetIntoPage(0, k) == 0, out);
    assert m.os == CloseHandle(s3.os, p.file) && m.view.None?;
    RemapAgreesAtOffsetZero(s3, bytesToMap, k, out);
    var (s4, ok) := Remap(s3, 0, bytesToMap, k, out);
    assert s4.os == m.os && s4.fields == s3.fields;
  }

  /** The POSIX constructor without an early close. */
  lemma PosixNoEarlyClose(filename: string, mode: FileMode, dataSize: usize, k: PageShift, os: OsState, out: Outcomes)
    requires Sane(os) && !ClosesEarly(Posix, mode, dataSize, os, out)
    ensures HandlesLive(Construct(filename, mode, dataSize, Posix, k, os, out))
  {
    var s3 := Prepare(filename, mode, Posix, os, out);
    var bytesToMap := if s3.filesize < dataSize then dataSize else s3.filesize;
    var p := s3.fields.posix;
    if out.openOk {
      assert Posix.IsReadOnly(p.fileOpenMode) <==> mode == FileMode.Read;
      assert !(Posix.NeedsExtension(p, s3.filesize, bytesToMap) && Posix.ExtensionFails(p, s3.os, s3.filesize, out));
    }
    var m := Posix.MemMap(p, s3.os, s3.filesize, Normal, bytesToMap, 0, OffsetIntoPage(0, k) == 0, out);
    assert out.openOk ==> s3.os.live <= m.os.live;
    RemapAgreesAtOffsetZero(s3, bytesToMap, k, out);
    var (s4, ok) := Remap(s3, 0, bytesToMap, k, out);
    assert s4.os == m.os && s4.view == m.view && s4.fields == s3.fields;
  }

  lemma PosixConstructHandlesLive(filename: string, mode: FileMode, dataSize: usize, k: PageShift, os: OsState, out: Outcomes)
    requires Sane(os)
    ensures var s := Construct(filename, mode, dataSize, Posix, k, os, out);
      && (HandlesLive(s) <==> !ClosesEarly(Posix, mode, dataSize, os, out))
      && (ClosesEarly(Posix, mode, dataSize, os, out) ==>
            !IsValid(s) && FileHandle(s.fields) == Resource(os.nextId) && os.nextId !in s.os.live)
  {
    if ClosesEarly(Posix, mode, dataSize, os, out) {
      PosixEarlyClose(filename, mode, dataSize, k, os, out);
    } else {
      PosixNoEarlyClose(filename, mode, dataSize, k, os, out);
    }
  }

  lemma Win32ConstructHandlesLive(filename: string, mode: FileMode, dataSize: usize, k: PageShift, os: OsState, out: Outcomes)
    requires Sane(os)
    ensures HandlesLive(Construct(filename, mode, dataSize, Win32, k, os, out))
  {
    var s3 := Prepare(filename, mode, Win32, os, out);
    var bytesToMap := if s3.filesize < dataSize then dataSize else s3.filesize;
    RemapAgreesAtOffsetZero(s3, bytesToMap, k, out);
    var (s4, ok) := Remap(s3, 0, bytesToMap, k, out);
    var n := os.nextId;
    var w := s3.fields.win32;
    var m := Win32.MemMap(w, s3.os, bytesToMap, 0, OffsetIntoPage(0, k) == 0, out);
    assert s4.os == m.os && s4.view == m.view && s4.fields == Win32Fields(m.fields);
    assert w.mappedFile == Null;
    assert s3.os.live <= s4.os.live;
  }

  /** Every resource a constructed stream holds is live and its own, except
      when the POSIX constructor closed the descriptor early: the stream
      then still names the closed descriptor. */
  lemma ConstructHandlesLive(filename: string, mode: FileMode, dataSize: usize, platform: Platform, k: PageShift, os: OsState, out: Outcomes)
    requires Sane(os)
    ensures var s := Construct(filename, mode, dataSize, platform, k, os, out);
      && (HandlesLive(s) <==> !ClosesEarly(platform, mode, dataSize, os, out))
      && (ClosesEarly(platform, mode, dataSize, os, out) ==>
            !IsValid(s) && FileHandle(s.fields) == Resource(os.nextId) && os.nextId !in s.os.live)
  {
    match platform
    case Posix => PosixConstructHandlesLive(filename, mode, dataSize, k, os, out);
    case Win32 => Win32ConstructHandlesLive(filename, mode, dataSize, k, os, out);
  }

  /** When the POSIX constructor closed the descriptor early, the teardown
      closes it a second time. */
  lemma EarlyCloseIsRepeated(filename: string, mode: FileMode, dataSize: usize, k: PageShift, os: OsState, out: Outcomes)
    requires Sane(os) && ClosesEarly(Posix, mode, dataSize, os, out)
    ensures var s := Construct(filename, mode, dataSize, Posix, k, os, out);
      Close(s, k).os.staleReleases == s.os.staleReleases + 1
  {
    ConstructHandlesLive(filename, mode, dataSize, Posix, k, os, out);
  }

  /** Opening a new, empty file for reading and writing on POSIX with a
      `dataSize` gives a stream over `dataSize` zero bytes, which
      `getSize()` reports. */
  lemma NewFileScenario(filename: string, dataSize: usize, k: PageShift, os: OsState)
    requires Sane(os) && os.file == [] && 0 < dataSize
    ensures var s := Construct(filename, ReadWrite, dataSize, Posix, k, os, Outcomes(true, true, true, true, true));
      && IsValid(s) && s.filesize == dataSize && s.mappedBytes == dataSize
      && s.os.file == seq(dataSize, _ => 0 as bv8)
  {
    var out := Outcomes(true, true, true, true, true);
    var s := Construct(filename, ReadWrite, dataSize, Posix, k, os, out);
    PosixConstructUsable(filename, ReadWrite, dataSize, k, os, out);
    OffsetIsRemainder(0, k);
    var s3 := Prepare(filename, ReadWrite, Posix, os, out);
    assert Posix.MmapPermitted(s3.fields.posix);
    assert IsValid(s);
    assert s.os.file == PutByte([], dataSize - 1, 0);
    assert forall i | 0 <= i < dataSize :: s.os.file[i] == 0;
  }

  /** `open`: construct a stream and hand it out only when a view is
      mapped. */
  function Open(filename: string, mode: FileMode, dataSize: usize, platform: Platform, k: PageShift, os: OsState, out: Outcomes): (r: Option<Stream>)
    requires Sane(os)
    ensures r.Some? <==> IsValid(Construct(filename, mode, dataSize, platform, k, os, out))
    ensures r.Some? ==> r.value == Construct(filename, mode, dataSize, platform, k, os, out)
    ensures r.Some? ==> HandlesLive(r.value) && Usable(r.value)
    ensures r.Some? && FileBacked(platform, out) ==> WellConstructed(r.value, os, dataSize)
    ensures r.Some? && !FileBacked(platform, out) ==>
      r.value.filesize == 0 && FileHandle(r.value.fields) == Invalid && r.value.mappedBytes == dataSize
    ensures r.Some? ==> r.value.referenceCount == 1 && r.value.curPos == 0
    ensures platform == Posix ==> (r.Some? <==> PosixOpens(mode, dataSize, os, out))
    ensures platform == Win32 && out.openOk ==> (r.Some? <==> out.mapOk && out.viewOk && (|os.file| > 0 || dataSize > 0))
  {
    var s := Construct(filename, mode, dataSize, platform, k, os, out);
    PosixConstructValid(filename, mode, dataSize, k, os, out);
    Win32ConstructValid(filename, mode, dataSize, k, os, out);
    ConstructUsable(filename, mode, dataSize, platform, k, os, out);
    ConstructHandlesLive(filename, mode, dataSize, platform, k, os, out);
    Win32PagingFileStream(filename, mode, dataSize, k, os, out);
    if IsValid(s) then Some(s) else None
  }

  /** On POSIX, a stream mapped past the last page of a file it does not
      grow keeps its view after the last `close`: the teardown unmaps only
      the pages `filesize` reaches, and nothing at all for an empty file.
      READ never grows the file; READ_WRITE grows only an empty one, since
      `lseek` alone does not. */
  lemma PosixMapPastFileLeaks(filename: string, mode: FileMode, dataSize: usize, k: PageShift, os: OsState, out: Outcomes)
    requires Sane(os) && out.openOk && out.mapOk && RoundUp(|os.file|, k) < dataSize
    requires mode == FileMode.Read || (mode == ReadWrite && |os.file| > 0 && out.seekOk)
    ensures var r := Open(filename, mode, dataSize, Posix, k, os, out);
      && r.Some? && r.value.view.value.length == dataSize && r.value.filesize == |os.file|
      && r.value.view.value.id in Close(r.value, k).os.live
  {
    var s3 := Prepare(filename, mode, Posix, os, out);
    var bytesToMap := if s3.filesize < dataSize then dataSize else s3.filesize;
    assert bytesToMap == dataSize;
    RemapAgreesAtOffsetZero(s3, bytesToMap, k, out);
    var (s4, ok) := Remap(s3, 0, bytesToMap, k, out);
    OffsetIsRemainder(0, k);
    var p := s3.fields.posix;
    assert Posix.IsReadOnly(p.fileOpenMode) <==> mode == FileMode.Read;
    var m := Posix.MemMap(p, s3.os, s3.filesize, Normal, bytesToMap, 0, OffsetIntoPage(0, k) == 0, out);
    assert s4.os == m.os && m.os.file == os.file;
    var r := Open(filename, mode, dataSize, Posix, k, os, out);
    assert PosixOpens(mode, dataSize, os, out);
    assert r.value.os.file == os.file;
  }

  /** The teardown as evidently intended, `munmap` with the mapped size,
      releases every resource of any stream `open` hands out on POSIX. */
  lemma WholeViewTeardownReleasesAll(filename: string, mode: FileMode, dataSize: usize, k: PageShift, os: OsState, out: Outcomes)
    requires Sane(os)
    ensures var r := Open(filename, mode, dataSize, Posix, k, os, out);
      r.Some? ==>
        var s := r.value;
        && s.fields.PosixFields? && s.view.Some?
        && Posix.CloseMappedFileWholeView(s.fields.posix, s.os, s.view, s.mappedBytes, k).1.live == s.os.live - Owned(s)
  {
  }

  /** On POSIX a stream opened for WRITE or APPEND is never valid: the
      descriptor is write-only, which `mmap` refuses. */
  lemma PosixWriteOnlyNeverOpens(filename: string, mode: FileMode, dataSize: usize, k: PageShift, os: OsState, out: Outcomes)
    requires Sane(os) && (mode == FileMode.Write || mode == Append)
    ensures !IsValid(Construct(filename, mode, dataSize, Posix, k, os, out))
    ensures Open(filename, mode, dataSize, Posix, k, os, out).None?
  {
    Posix.MappableModes(mode);
    var s3 := Prepare(filename, mode, Posix, os, out);
    assert !Posix.MmapPermitted(s3.fields.posix);
  }
}
