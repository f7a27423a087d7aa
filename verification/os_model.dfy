/** The operating system as the stream sees it. Every OS object a stream
    obtains (a file descriptor or file handle, a Windows file-mapping
    handle, a mapped view) is a numbered resource that is live from the
    call that creates it until the call that releases it. A release of a
    resource that is no longer live (closing a descriptor twice) is counted,
    not ignored, so that lemmas can show it happens or that it never does.
    Whether a call that may fail succeeds is an outcome supplied by the
    caller, except that a call on a handle that is not open always fails. */
module OsModel {
  import opened Word

  /** The value a handle field holds: `Null` is descriptor 0 or `nullptr`,
      `Invalid` is the -1 / `INVALID_HANDLE_VALUE` a failed open returns,
      and `Resource(id)` names an OS object (live or already released). */
  datatype Handle = Null | Invalid | Resource(id: nat)

  /** A mapped view: the resource that backs it, the file offset it starts
      at and the number of bytes requested from the map call. */
  datatype View = View(id: nat, offset: nat, length: nat)

  /** `file` is the content of the stream's file; `live` the resources not
      yet released; `nextId` the number the next resource gets;
      `staleReleases` counts releases of resources that were not live. */
  datatype OsState = OsState(file: seq<bv8>, live: set<nat>, nextId: nat, staleReleases: nat)

  /** Every live resource has been handed out, and the file length fits a
      `size_t`. */
  ghost predicate Sane(os: OsState)
  {
    && (forall id | id in os.live :: id < os.nextId)
    && |os.file| < WordModulus
  }

  /** The outcomes of the calls that may fail, for one construction or one
      remap. POSIX consults `openOk` (`open`), `seekOk` (`lseek`), `writeOk`
      (`write`) and `mapOk` (`mmap`); Windows consults `openOk`
      (`CreateFile`), `mapOk` (`CreateFileMapping`) and `viewOk`
      (`MapViewOfFile`). */
  datatype Outcomes = Outcomes(openOk: bool, seekOk: bool, writeOk: bool, mapOk: bool, viewOk: bool)

  predicate IsOpen(os: OsState, h: Handle)
  {
    h.Resource? && h.id in os.live
  }

  /** A new live resource. */
  function Acquire(os: OsState): (r: (nat, OsState))
    ensures r.0 == os.nextId && r.1.live == os.live + {r.0}
    ensures Sane(os) ==> r.0 !in os.live
    ensures r.1.file == os.file && r.1.staleReleases == os.staleReleases
    ensures Sane(os) ==> Sane(r.1)
  {
    (os.nextId, os.(live := os.live + {os.nextId}, nextId := os.nextId + 1))
  }

  /** Release a resource: it stops being live, or, if it already was not,
      the release is counted as stale. */
  function Release(os: OsState, id: nat): (r: OsState)
    ensures r.live == os.live - {id}
    ensures r.staleReleases == os.staleReleases + (if id in os.live then 0 else 1)
    ensures r.file == os.file && r.nextId == os.nextId
  {
    if id in os.live then os.(live := os.live - {id})
    else os.(staleReleases := os.staleReleases + 1)
  }

  /** `close` / `CloseHandle` on a handle field. Closing -1 or
      `INVALID_HANDLE_VALUE` fails without touching any resource. */
  function CloseHandle(os: OsState, h: Handle): (r: OsState)
    ensures h.Resource? ==> r == Release(os, h.id)
    ensures !h.Resource? ==> r == os
  {
    if h.Resource? then Release(os, h.id) else os
  }

  /** The file with byte `b` stored at `pos`, zero-filled up to `pos` when
      the file is shorter: the effect of a one-byte `write` after an
      `lseek` to `pos`. */
  function PutByte(file: seq<bv8>, pos: nat, b: bv8): (r: seq<bv8>)
    ensures |r| == if pos < |file| then |file| else pos + 1
    ensures r[pos] == b
    ensures forall i | 0 <= i < |file| && i != pos :: r[i] == file[i]
    ensures forall i | |file| <= i < pos :: r[i] == 0
  {
    if pos < |file| then file[pos := b]
    else file + seq(pos - |file|, _ => 0 as bv8) + [b]
  }

  /** `munmap` / `UnmapViewOfFile` of a view. */
  function Unmap(os: OsState, v: View): (r: OsState)
    ensures r.live == os.live - {v.id} && r.file == os.file
  {
    Release(os, v.id)
  }

  /** The resource a handle field names, if any. */
  function HandleIds(h: Handle): (ids: set<nat>)
  {
    if h.Resource? then {h.id} else {}
  }
}
