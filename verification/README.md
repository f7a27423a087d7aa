# Memory-mapped file stream and pool, modelled in Dafny

`MemoryDataStream` is a `DataStream` over one memory mapping of a file. The
constructor opens the file with the options of a `FileMode`, takes its size
and maps `max(size, dataSize)` bytes from offset 0. `read`, `write`, `seek`
and `at` then work on the mapped view, with a cursor clamped by the recorded
file size. A reference count decides when `close` tears down the view and the
handles. Two back ends supply the OS calls: POSIX (`open`, `fstat`, `lseek`,
`write`, `mmap`, `madvise`, `munmap`, `close`) and Windows (`CreateFile`,
`GetFileSizeEx`, `CreateFileMapping`, `MapViewOfFile`, `UnmapViewOfFile`,
`CloseHandle`).

`MemoryFilePool` caches streams under a `MemoryFileId`. The identity is made
of the device and file serial number from `stat`, plus the access mode. A
second `openFile` of an identity returns the cached stream with one more
reference. `closeFile` drops a reference and forgets the stream when none
remains.

## How the model is built

- **Machine integers.**
  - `size_t` and `uint64_t` are `Word.usize`; `std::streamoff` is `Word.streamoff`; the `int` reference count is `Word.int32`.
  - Every wrap-around the C++ arithmetic performs is written out with `Word.ToUsize` (reduction modulo 2^64). Examples are `filesize - curPos` and the signed-to-unsigned comparison in `seek`.
- **Page-alignment macros.**
  - The page size is `2^k`. The bit masks of `ALIGN_TO_PAGE`, `OFFSET_INTO_PAGE` and `UPPER_ALIGN_TO_PAGE` are computed digit by digit (`Paging.BitAnd`).
  - The masks are proved to equal round-down, remainder and round-up, including the wrap-around of `x + P - 1`.
- **The operating system** (`OsModel`).
  - It is a state holding the file's bytes, the set of live resources (descriptors, handles, views), the next resource number, and a count of releases of resources that were no longer live (a second `close` of a descriptor).
  - A call on a handle that is not open fails. Whether any other call that may fail succeeds is an input (`Outcomes`).
  - `mmap` also refuses what mmap(2) refuses: a length of 0, an offset that is not page-aligned, a write-only descriptor, and a shared writable mapping of a descriptor not opened read-write. `MapViewOfFile` refuses an offset that is not a multiple of the allocation granularity.
- **The stream** (`Stream`).
  - It is an immutable record, and every member function is a function returning the new record.
  - `path()`, `tell()`, `getSize()` and `mappedSize()` are the fields `filename`, `curPos`, `filesize` and `mappedBytes`. `isValid()`, `eof()` and `hasRef()` are the predicates `IsValid`, `Eof` and `HasRef`.
  - Byte accesses through the view require what `memcpy` needs: the bytes lie inside the view and inside the file (`Accessible`), and a write needs a view mapped writable (`Writable`). `Usable` is the state in which every clamped access meets this.
  - The source does not always meet these requirements. After the last `close` the view is null and the size is 0, but the cursor keeps its value. A later `read` or `write` with the cursor above 0 computes `filesize - curPos` with wrap-around, gets a non-zero amount, and copies through `nullptr + curPos` (`Stream.AccessAfterLastClose`).
- **The pool** (`Pool`).
  - It is a map from `FileId` to an optional stream (`None` is a null `shared_ptr`).
  - `std::map` looks keys up by `operator<` equivalence. For this ordering equivalence is equality (`FileIdentity.EquivalentKeysAreSame`), so a Dafny map is faithful.

Where the class's documentation and the code differ, the model follows the
code:

- `write` clamps to the recorded file size, not to the mapped size.
- A relative `seek` always reports `false`, even when it moved the cursor.
- `openFile` of a file that does not exist throws from `stat` before any stream is built.
- After `close` the size is 0, but the cursor keeps its value, so `curPos <= filesize` no longer holds.
- The constructor reads the size again after mapping. On POSIX, a new empty READ_WRITE file with a `dataSize` therefore reports `dataSize` as its size (`Stream.NewFileScenario`).
- On Windows, a file that cannot be opened does not always give an invalid stream. A failed `CreateFile` leaves `INVALID_HANDLE_VALUE` in the field. `memMap` tests the field only against null, and `CreateFileMapping` given `INVALID_HANDLE_VALUE` creates a section backed by the paging file. With a non-zero `dataSize` the constructor therefore maps `dataSize` bytes that belong to no file, and the stream reports size 0 (`Stream.Win32PagingFileStream`). The model keeps this path; only a stream whose view is backed by the opened file is promised to map that file.
- The POSIX teardown unmaps `filesize` bytes, not the mapped size. `munmap` removes the pages those bytes touch and refuses a length of 0. A view longer than the file's last page therefore stays partly mapped after the last `close`, and the view of an empty file stays wholly mapped (`Stream.PosixMapPastFileLeaks`). A partly unmapped view is treated as still live.

## Model

| member | source | states |
|---|---|---|
| Word.ToUsize | examples/memory_file_data_stream.cpp:48 | converting an exact result to `size_t` is the identity in range, adds 2^64 to a negative value and subtracts 2^64 from one that overflowed |
| Modes.OrdinalInjective | examples/data_stream.h:8-14 | two modes have the same underlying value exactly when they are the same mode |
| Paging.PageSize | examples/memory_mapping_platform_posix.cpp:184-187 | the page size is at least 1 and at most half of 2^64, so a page mask fits a `size_t` |
| Paging.LowBits | examples/memory_file_data_stream.h:10 | masking with `P - 1` yields the remainder modulo `P` |
| Paging.HighBits | examples/memory_file_data_stream.h:8 | masking an n-digit value with `2^n - 2^k` clears exactly its k low digits |
| Paging.AlignIsRoundDown | examples/memory_file_data_stream.h:8 | `ALIGN_TO_PAGE(x)` is `x` rounded down to a multiple of the page size |
| Paging.OffsetIsRemainder | examples/memory_file_data_stream.h:10 | `OFFSET_INTO_PAGE(x)` is `x` modulo the page size |
| Paging.AlignBelow | examples/memory_file_data_stream.h:8 | the aligned value is at most `x` and a multiple of the page size |
| Paging.AlignPlusOffset | examples/memory_file_data_stream.h:8-10 | page start plus offset into the page gives back `x`, and the offset is less than a page |
| Paging.UpperAlignAbove | examples/memory_file_data_stream.h:9 | without overflow `UPPER_ALIGN_TO_PAGE(x)` is a multiple of the page size in `[x, x + P)` |
| Paging.RoundUp | examples/memory_mapping_platform_posix.cpp:112 | the page-rounded extent of a length is a multiple of the page size in `[n, n + P)`, with no word limit |
| Paging.UpperAlignIsRoundUp | examples/memory_file_data_stream.h:9 | without overflow `UPPER_ALIGN_TO_PAGE(x)` equals `x` rounded up to whole pages |
| Paging.UpperAlignOverflow | examples/memory_file_data_stream.h:9 | when `x + P - 1` overflows, `UPPER_ALIGN_TO_PAGE(x)` is 0 |
| Paging.PageDividesWord | examples/memory_file_data_stream.h:9 | the page size divides 2^64 |
| Paging.AlignIdempotent | examples/memory_file_data_stream.h:8 | aligning an aligned value changes nothing |
| Paging.AlignedUpperIsIdentity | examples/memory_file_data_stream.h:9 | the upper alignment of a page-aligned value is the value itself, with no overflow |
| FileIdentity.Copy | examples/memory_mapping_platform_posix.cpp:38-44 | the copy is equal to the original under `operator==` |
| FileIdentity.InitData | examples/memory_mapping_platform_win32.cpp:38-67 | an identity exists exactly when `stat` succeeds and then records device, serial number and mode; POSIX has one error, Windows reports "not found" exactly for `ENOENT` |
| FileIdentity.KeysSeparateModes | examples/memory_mapping_platform_posix.cpp:46-57 | one file opened in two modes gives two different identities, in one mode equal identities |
| FileIdentity.SameIsEquality | examples/memory_mapping_platform_posix.cpp:60-65 | `operator==` holds exactly for identical identities |
| FileIdentity.LessIrreflexive | examples/memory_mapping_platform_posix.cpp:67-73 | no identity is less than itself |
| FileIdentity.LessTransitive | examples/memory_mapping_platform_posix.cpp:67-73 | `operator<` is transitive |
| FileIdentity.LessTrichotomous | examples/memory_mapping_platform_win32.cpp:77-83 | of `a < b`, `b < a` and `a == b` exactly one holds |
| FileIdentity.EquivalentKeysAreSame | examples/memory_file_data_stream.cpp:34-42 | two identities neither of which is less than the other are equal, so a map lookup finds exactly the equal key |
| OsModel.PutByte | examples/memory_mapping_platform_posix.cpp:134-148 | a one-byte write past the end grows the file to that byte, zero-fills the gap, stores the byte and keeps every other byte |
| Posix.InitFileOptions | examples/memory_mapping_platform_posix.cpp:202-226 | every mode adds `MAP_SHARED` and leaves the descriptor alone; only READ opens `O_RDONLY`; every other mode creates the file |
| Posix.ProtectionMatchesAccess | examples/memory_mapping_platform_posix.cpp:202-226 | the page protection asks for reading exactly when the descriptor can read, and for writing exactly when it can write |
| Posix.WriteIsAppend | examples/memory_mapping_platform_posix.cpp:219-225 | WRITE falls through into APPEND and gets the same options |
| Posix.MappableModes | examples/memory_mapping_platform_posix.cpp:202-226 | `mmap` permits the options of READ and READ_WRITE only |
| Posix.AdviceIsBijective | examples/memory_mapping_platform_posix.cpp:158-172 | each cache hint gets its own `madvise` advice, and each advice comes from a hint |
| Posix.FileOpen | examples/memory_mapping_platform_posix.cpp:191-200 | a successful `open` stores a new live descriptor; a failed one stores -1 and changes nothing else |
| Posix.Extend | examples/memory_mapping_platform_posix.cpp:134-148 | the extension fails exactly when `lseek` or the one-byte `write` of an empty file fails, and then closes the descriptor; otherwise an empty file grows to `bytesToMap` bytes and a non-empty one is unchanged |
| Posix.MemMap | examples/memory_mapping_platform_posix.cpp:128-182 | no descriptor maps nothing; a view is new, covers `bytesToMap > 0` bytes from an aligned offset, and comes with the hint's advice; a failed extension closes the descriptor and maps nothing; otherwise nothing live is released; a failed `mmap` after a successful extension sets `bytesToMap` to 0; conversely an open, mappable descriptor, a non-zero length, an aligned offset, a successful extension when one is needed and a successful `mmap` always give a view |
| Posix.InitFileOptionsMappable | examples/memory_mapping_platform_posix.cpp:202-226 | the corrected options: every mode can be mapped; READ and READ_WRITE are unchanged; WRITE and APPEND differ only in opening the file read-write |
| Posix.MemMapClearingOnFailure | examples/memory_mapping_platform_posix.cpp:134-148 | the corrected `memMap`: a failed extension closes the descriptor and zeroes the field; otherwise it is `memMap` as written |
| Posix.FailedExtensionClosesTwice | examples/memory_mapping_platform_posix.cpp:108-148 | as written, a failed extension followed by the teardown closes the descriptor twice |
| Posix.ClearedTeardownNeverRepeats | examples/memory_mapping_platform_posix.cpp:108-148 | with the corrected `memMap`, the teardown after it closes nothing twice, whatever the calls' outcomes |
| Posix.CloseMappedFile | examples/memory_mapping_platform_posix.cpp:108-121 | the descriptor stops being live and the field is zeroed; the view is released only when `munmap(view, filesize)` reaches every page of it, so a live view distinct from the descriptor survives exactly when `filesize` is 0 or its page-rounded value is below the view's length; with both live and distinct nothing is released twice; a descriptor already closed is closed again |
| Posix.CloseMappedFileWholeView | examples/memory_mapping_platform_posix.cpp:108-126 | the corrected teardown, unmapping with the mapped size as `memUnmap` does, releases a non-empty view whose length the mapped size covers, along with the descriptor; with both live and distinct nothing is released twice |
| Win32.InitFileOptions | examples/memory_mapping_platform_win32.cpp:229-263 | setting the options leaves both handles alone |
| Win32.WriteFallsIntoAppend | examples/memory_mapping_platform_win32.cpp:247-259 | WRITE ends with APPEND's options: read-write access and an existing file |
| Win32.OptionsAreConsistent | examples/memory_mapping_platform_win32.cpp:229-263 | the view access and page protection are granted by the open access, and only READ_WRITE creates a missing file |
| Win32.AttributeIsBijective | examples/memory_mapping_platform_win32.cpp:198-213 | each cache hint gets its own `CreateFile` attribute, and each attribute comes from a hint |
| Win32.FileOpen | examples/memory_mapping_platform_win32.cpp:196-227 | a successful `CreateFile` stores a new live handle; a failed one stores `INVALID_HANDLE_VALUE`; the hint's attribute is passed |
| Win32.MemMap | examples/memory_mapping_platform_win32.cpp:149-186 | a null handle maps nothing; the previous file-mapping handle is released; a view is new, at the requested offset and length, over a live new file-mapping handle, whose source is an open file or `INVALID_HANDLE_VALUE` with a non-zero size; `INVALID_HANDLE_VALUE` with a non-zero size is mapped whenever both calls succeed and the offset is aligned; a view that fails after the mapping sets `bytesToMap` to 0; an open, empty file with a zero size is never mapped; conversely an open file handle distinct from the previous file-mapping handle, a non-empty file or size, an aligned offset and two successful calls always give a view; the file is untouched |
| Win32.CloseMappedFile | examples/memory_mapping_platform_win32.cpp:124-142 | the view and both handles stop being live and both fields are nulled; with all three live and distinct nothing is released twice |
| Stream.Read | examples/memory_file_data_stream.cpp:185-196 | returns `min(size, filesize - curPos)` bytes of the file at the cursor, advances the cursor by that many, stops short only at end of file, and keeps the stream usable |
| Stream.Write | examples/memory_file_data_stream.cpp:45-57 | copies `min(size, filesize - curPos)` bytes of the buffer into the file at the cursor, leaves every other byte and the file length alone, advances the cursor, and keeps the stream usable |
| Stream.Seek | examples/memory_file_data_stream.cpp:60-80 | a relative seek never reports success; an absolute one succeeds exactly when the converted offset is below the size; only the cursor changes, and only to a position inside the file |
| Stream.AbsoluteSeek | examples/memory_file_data_stream.cpp:62-69 | for a file a `streamoff` can address, an absolute seek succeeds exactly for offsets in `[0, filesize)` and then sets the cursor to the offset |
| Stream.RelativeSeek | examples/memory_file_data_stream.cpp:70-78 | a relative seek moves the cursor by the offset exactly when the target is in `[0, filesize)`, a negative target included, and always reports `false` |
| Stream.ReadAmountsAdd | examples/memory_file_data_stream.cpp:187 | the clamped amounts of two consecutive reads add up to the amount of one read of the combined size |
| Stream.ReadConcat | examples/memory_file_data_stream.cpp:185-196 | two consecutive reads return the bytes of one read of the combined size and leave the same stream |
| Stream.ReadToEnd | examples/memory_file_data_stream.cpp:92-95 | reading at least the rest of the file returns the rest and reaches end of file |
| Stream.WriteThenReadBack | examples/memory_file_data_stream.cpp:45-57 | after a write, seeking back and reading the amount written returns the written bytes |
| Stream.At | examples/memory_file_data_stream.cpp:168-176 | without a view the result is the invalid-argument error, past the size the out-of-range error, otherwise the file byte at that offset |
| Stream.AtAgreesWithRead | examples/memory_file_data_stream.cpp:163-176 | `at(i)` is the byte a one-byte read at `i` returns |
| Stream.AddRef | examples/memory_file_data_stream.cpp:82-85 | the count grows by one and nothing else changes |
| Stream.CloseMappedFile | examples/memory_file_data_stream.h:100 | its handle fields are cleared and every handle stops being live; the view is released always on Windows and on POSIX only when the file size, rounded up to pages, is non-zero and reaches the view's end, so a live POSIX view survives exactly otherwise; nothing is released twice when they were all live |
| Stream.Close | examples/memory_file_data_stream.cpp:151-161 | the count drops by one; while references remain nothing else changes; otherwise the view is forgotten, the size is 0, every handle stops being live, the view stops being live except on POSIX when the file size, rounded up to pages, is 0 or short of the view's end (none released twice when they were all live), and the cursor keeps its value |
| Stream.AccessAfterLastClose | examples/memory_file_data_stream.cpp:151-161 | after the last `close` with the cursor above 0, the view is gone yet a read or write of a non-zero size gets a non-zero amount, which no view can back |
| Stream.AddRefThenClose | examples/memory_file_data_stream.cpp:82-90 | `addRef` followed by `close` restores the stream |
| Stream.SecondTeardownIsNoOp | examples/memory_file_data_stream.cpp:118-122 | the destructor's `close` after the last `close` releases nothing |
| Stream.InitPlatformFields | examples/memory_mapping_platform_posix.cpp:75-79 | fresh fields hold no handle |
| Stream.InitFileOptions | examples/memory_file_data_stream.cpp:135 | the options leave the handles alone, and the view is writable exactly for modes other than READ |
| Stream.FileOpen | examples/memory_file_data_stream.cpp:136 | success stores a new live handle, failure an invalid one with the OS unchanged; the option words are kept, and nothing but the handle and the OS changes |
| Stream.GetFileSize | examples/memory_mapping_platform_posix.cpp:97-105 | the size of the file when its handle is open, otherwise 0 |
| Stream.MemMap | examples/memory_file_data_stream.h:94 | a view is at the requested offset, of the requested length, and the offset is page-aligned; when every call `memMap` makes succeeds (`Stream.MapSucceeds`) there is a view, and on POSIX only then; the handle is kept; only fresh resources become live |
| Stream.MapWindow | examples/memory_file_data_stream.cpp:216-231 | the old view is released; an offset past the size maps nothing; a new view starts at a page-aligned offset within the file and has the requested length; an offset within the file at which every mapping call succeeds always gives a view |
| Stream.RemapAsWritten | examples/memory_file_data_stream.cpp:216-238 | success exactly when a view is mapped, then recording the view's length minus its offset, wrapped to `size_t` |
| Stream.Remap | examples/memory_file_data_stream.cpp:216-238 | success exactly when a view is mapped; then the recorded mapped size is the view's length; an offset past the size fails, an offset within it at which every mapping call succeeds does not; on failure the recorded size is kept |
| Stream.RemapAgreesAtOffsetZero | examples/memory_file_data_stream.cpp:145 | at offset 0, the one the constructor uses, both versions of `remap` agree |
| Stream.RemapAsWrittenMisrecords | examples/memory_file_data_stream.cpp:234 | at any other offset the recorded size differs from the view's size, and past the view's length it wraps to a huge value |
| Stream.RemapAsWrittenWitness | examples/memory_file_data_stream.cpp:232-235 | remapping the second 4096-byte page of an 8192-byte file records 0 while mapping 4096 bytes |
| Stream.Prepare | examples/memory_file_data_stream.cpp:124-138 | the stream starts with one reference, no view and cursor 0; a successful open takes a new handle and the file's size; a failed one leaves size 0 and the OS unchanged |
| Stream.Construct | examples/memory_file_data_stream.cpp:124-148 | the constructor, with `remap` as written, gives a stream with one reference, cursor 0, the normal hint and a size within its file |
| Stream.PosixConstructUsable | examples/memory_mapping_platform_posix.cpp:128-182 | a valid POSIX stream is well constructed |
| Stream.Win32ConstructUsable | examples/memory_mapping_platform_win32.cpp:149-186 | a valid Windows stream over a file that opened is well constructed |
| Stream.Win32PagingFileStream | examples/memory_mapping_platform_win32.cpp:149-171 | on Windows, when `CreateFile` fails, the stream is valid exactly when `dataSize` is non-zero and both mapping calls succeed; it then holds `INVALID_HANDLE_VALUE`, reports size 0, maps `dataSize` bytes from offset 0, and is usable |
| Stream.ConstructUsable | examples/memory_file_data_stream.cpp:138-147 | a valid stream whose view is backed by the opened file maps `max(size, dataSize)` bytes from offset 0, records that as its mapped size, reports the file's size, and is usable |
| Stream.PosixEarlyClose | examples/memory_mapping_platform_posix.cpp:136-146 | a failed extension leaves an invalid stream still naming the closed descriptor |
| Stream.PosixNoEarlyClose | examples/memory_mapping_platform_posix.cpp:128-182 | otherwise every resource of the POSIX stream is live and its own |
| Stream.PosixConstructHandlesLive | examples/memory_mapping_platform_posix.cpp:134-156 | a POSIX stream holds only live resources of its own exactly when the extension did not fail |
| Stream.Win32ConstructHandlesLive | examples/memory_mapping_platform_win32.cpp:149-186 | a Windows stream always holds only live resources of its own |
| Stream.ConstructHandlesLive | examples/memory_file_data_stream.cpp:134-147 | a stream holds only live resources of its own exactly when the POSIX constructor did not close its descriptor early |
| Stream.EarlyCloseIsRepeated | examples/memory_mapping_platform_posix.cpp:108-121 | after an early close the teardown closes the descriptor a second time |
| Stream.NewFileScenario | examples/memory_file_data_stream.cpp:138-147 | a new empty READ_WRITE file opened on POSIX with a `dataSize` becomes `dataSize` zero bytes and reports that size |
| Stream.Open | examples/memory_file_data_stream.cpp:108-112 | a stream is handed out exactly when it is valid; it then holds one reference and only its own live resources and is usable; over an opened file it is well constructed, and over the Windows paging-file section it reports size 0 and maps `dataSize` bytes; on POSIX a stream is handed out exactly when `Stream.PosixOpens` holds, on Windows over an opened file exactly when both mapping calls succeed and the file or `dataSize` is non-empty |
| Stream.PosixConstructValid | examples/memory_mapping_platform_posix.cpp:128-182 | the POSIX constructor yields a valid stream exactly when the file opens READ or READ_WRITE, there is a byte to map, the descriptor is not closed early and `mmap` succeeds |
| Stream.Win32ConstructValid | examples/memory_mapping_platform_win32.cpp:149-186 | over an opened file, the Windows constructor yields a valid stream exactly when the file or `dataSize` is non-empty and `CreateFileMapping` and `MapViewOfFile` succeed |
| Stream.PosixMapPastFileLeaks | examples/memory_mapping_platform_posix.cpp:108-121 | a POSIX stream opened READ, or READ_WRITE over a non-empty file, with `dataSize` beyond the file's last page maps `dataSize` bytes, reports the file's size, and its view is still live after the last `close` |
| Stream.WholeViewTeardownReleasesAll | examples/memory_mapping_platform_posix.cpp:108-126 | with the corrected teardown, every resource of any stream `open` hands out on POSIX stops being live |
| Stream.PosixWriteOnlyNeverOpens | examples/memory_mapping_platform_posix.cpp:218-225 | on POSIX, WRITE and APPEND never yield a stream |
| Pool.OpenFile | examples/memory_file_data_stream.cpp:252-269 | a cached stream is returned with one more reference; a cached null is dereferenced; a miss caches the result of `open`, null included; other identities are untouched |
| Pool.CloseFile | examples/memory_file_data_stream.cpp:271-287 | an unknown identity is the not-in-pool error; a cached stream loses a reference and is forgotten exactly when none remains; other identities are untouched |
| Pool.OpenFileKeepsGood | examples/memory_file_data_stream.cpp:256-267 | `openFile` keeps every cached stream valid and referenced |
| Pool.CloseFileKeepsGood | examples/memory_file_data_stream.cpp:275-282 | `closeFile` keeps every cached stream valid and referenced |
| Pool.OpenThenCloseRestores | examples/memory_file_data_stream.cpp:252-287 | `openFile` followed by `closeFile` of a cached or openable identity restores the pool |
| Pool.ForgottenStreamDestroyedQuietly | examples/memory_file_data_stream.cpp:279-281 | when `closeFile` forgets a stream, its destruction releases nothing more |
| Pool.FailedOpenIsCached | examples/memory_file_data_stream.cpp:264-267 | a first `openFile` whose stream cannot be mapped caches a null pointer |
| Pool.NullEntryIsPermanent | examples/memory_file_data_stream.cpp:256-261 | once an identity maps to null, `openFile` and `closeFile` of it both go through the null pointer, and no operation removes the entry |
| Pool.OpenFileSkippingInvalid | examples/memory_file_data_stream.cpp:262-268 | the corrected `openFile` caches nothing for an unmappable stream, agrees with `openFile` otherwise, and keeps a pool free of null entries |
| Pool.FailedOpenLeavesNoTrace | examples/memory_file_data_stream.cpp:271-286 | with the correction a failed open leaves the identity unknown, and a later open that maps succeeds |

## Left out

- Error messages: the text of the exceptions and of the debug output is not modelled, only which error arises.
- `clone` always throws a logic error and is not modelled.
- `save` (`msync` / `FlushViewOfFile`) is not modelled.
- `operator[]` and `getData` are unchecked accessors, covered only through `Stream.At` and `Stream.Accessible`.
- The `instance()` singleton is not modelled; the pool is a value.
- `deletePlatformFields` is not modelled, because memory ownership of the platform fields is not modelled.
- Concurrency: the pool has no locking, and the model is sequential.
- The OS is abstract: whether a call succeeds is an input, and real errno values are not modelled.
- POSIX descriptor 0: a descriptor 0 is treated as "no descriptor" (`Null`), and an `fstat` on it reports size 0 instead of the size of standard input.
- `memUnmap`, called by `remap`, is modelled as releasing the whole view. Its length, `mappedBytes`, which `remap` as written can record short at a non-zero offset, is not modelled. The length `closeMappedFile` passes is modelled.
- Partly unmapped views: which pages of a view survive a short `munmap` is not modelled. Such a view counts as still live.
- Windows `CreateFileMapping` takes the maximum size from the low 32 bits of `bytesToMap`. This truncation is not modelled; only an empty file with a zero size is refused.
- Windows file growth: `CreateFileMapping` growing the file to the mapping size is not modelled, and the file is left unchanged.
- Windows paging-file sections: the content of a section `CreateFileMapping` creates for `INVALID_HANDLE_VALUE` is not modelled. A stream over one reports size 0, so no read, write or `at` reaches it.
- Windows `CreateFileMapping` receives the view offset as the high word of the maximum size. This is not modelled; the call's outcome is an input.
- Memory past the end of the file: bytes a view maps beyond the file's end are treated as inaccessible (`Stream.Accessible`) rather than as a bus error.
- Stream.AddRef: requires the count to be below `INT_MAX`, because `++referenceCount` overflowing is undefined behaviour.
- Stream.Close: requires the count to be above `INT_MIN`, for the same reason.
- Pool.OpenFile: a call through a cached null pointer is undefined behaviour in the source, and is modelled as the error `NullEntry`.
- Each stream carries its own OS state; the pool does not model streams that share the OS.
- Pool.OpenFile: in the source the stream handed out and the cached entry are one shared object. The model returns a copy, so a holder's `read`, `write`, `seek` or direct `close()` (which is public) never reaches the cached entry. `Pool.Good` and the pool lemmas assume that no holder closes a cached stream except through `closeFile`.
- Stream.Write: requires a view mapped writable (`Writable`). A write through a READ view (`PROT_READ` / `FILE_MAP_READ`) faults in the source, and the model excludes it instead of modelling the fault.
- `ThreadPool` and `StreamLineReader` lie outside the modelled core.
- `getPageSize` is not modelled: the page size is the parameter `k` (size `2^k`). On Windows that value is the allocation granularity, which is what `MapViewOfFile` offsets must be multiples of.
- Access control: `remap`, `addRef` and `hasRef` are private, with the pool as a friend. Dafny functions have no such visibility, so the model does not enforce that only the pool changes reference counts.
- The `SQ_BEGIN_OBJECT` / `SQ_DECLARE_OBJECT` reflection macros declare nothing the stream's behaviour depends on.
- `remap` offsets: the header requires the offset to be a multiple of the page size. The model does not turn that into a precondition; an unaligned offset makes the map call fail, as `mmap` and `MapViewOfFile` do.

## Findings

| source | as written | input that shows it | evidently intended | confidence | as-written member | corrected member |
|---|---|---|---|---|---|---|
| examples/memory_file_data_stream.cpp:264-266 | `openFile` caches the result of `open` even when it is null; every later `openFile` and `closeFile` of that identity calls through the null pointer, and nothing removes the entry | on POSIX or Windows, `openFile` of an existing empty file (mapping length 0 is refused), then `openFile` or `closeFile` of the same file and mode | cache only valid streams, so a failed open leaves no entry | not executed; high | Pool.NullEntryIsPermanent | Pool.OpenFileSkippingInvalid |
| examples/memory_file_data_stream.cpp:234 | `remap` records `bytesToMap - offset` as the mapped size, though the view holds `bytesToMap` bytes; past the view's length the subtraction wraps | `remap(4096, 4096)` on an 8192-byte file with 4096-byte pages records 0 | record `bytesToMap`, the size of the new view | not executed; medium (the constructor only remaps at offset 0, where both agree) | Stream.RemapAsWrittenMisrecords | Stream.Remap |
| examples/memory_mapping_platform_posix.cpp:136-146 | when the extension's `lseek` or `write` fails, `memMap` closes the descriptor but leaves it in the field, so `closeMappedFile` closes it again, possibly closing a descriptor the process has since reused | POSIX READ_WRITE stream with `dataSize` larger than the file, where `lseek` fails | zero the field after closing, as `closeMappedFile` does | not executed; high | Posix.FailedExtensionClosesTwice | Posix.MemMapClearingOnFailure |
| examples/memory_mapping_platform_posix.cpp:218-225 | WRITE and APPEND open the file `O_WRONLY`, which `mmap` refuses, so no stream in these modes is ever valid and every pool open of them caches null | `open(fn, WRITE, n)` of any file on POSIX | open WRITE and APPEND read-write so that the shared writable mapping is allowed | not executed; medium (the intended flags are inferred) | Stream.PosixWriteOnlyNeverOpens | Posix.InitFileOptionsMappable |
| examples/memory_mapping_platform_posix.cpp:112 | `closeMappedFile` unmaps `filesize` bytes of a view mapped `max(filesize, dataSize)` bytes long, so the pages past the file's last page stay mapped, and for an empty file `munmap` refuses the length 0 and the whole view stays mapped | on POSIX, `open(fn, READ, 1)` of an existing empty file, then `close()` | unmap the mapped size, as `memUnmap` does | not executed; high | Stream.PosixMapPastFileLeaks | Posix.CloseMappedFileWholeView |
