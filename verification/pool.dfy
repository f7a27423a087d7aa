/** `MemoryFilePool`: a table from file identities to shared streams. A
    second `openFile` of an identity hands out the cached stream with one
    more reference; `closeFile` drops a reference and forgets the stream
    when none remains. `std::map` finds a key by `MemoryFileId::operator<`
    equivalence, which `FileIdentity.EquivalentKeysAreSame` shows is
    equality, so the table is a Dafny map keyed by `FileId`. A stream the
    pool creates is `MemoryDataStream::open(fname, mode)`, whose `dataSize`
    defaults to 0; its OS state is given by the caller. */
module Pool {
  import opened Wrappers
  import opened Word
  import opened Modes
  import opened OsModel
  import opened Paging
  import opened FileIdentity
  import opened Stream

  /** `theMap`; `None` is a null `shared_ptr`. */
  datatype FilePool = FilePool(table: map<FileId, Option<Stream>>)

  /** What `openFile` and `closeFile` end in instead of a result: the
      exception `MemoryFileId`'s constructor throws, a call through a null
      cached pointer (undefined behaviour in the source), or the
      `invalid_argument` of `closeFile` for an identity not in the pool. */
  datatype PoolError = CannotIdentify(reason: StatError) | NullEntry | NotInPool

  /** Every cached stream is valid and holds at least one reference. */
  predicate Good(p: FilePool)
  {
    forall id | id in p.table && p.table[id].Some? :: HasRef(p.table[id].value) && IsValid(p.table[id].value)
  }

  /** No identity maps to a null pointer. */
  predicate NoNullEntries(p: FilePool)
  {
    forall id | id in p.table :: p.table[id].Some?
  }

  /** `addRef` on the cached stream cannot overflow its `int` count. */
  predicate RoomToAddRef(p: FilePool, id: FileId)
  {
    id in p.table && p.table[id].Some? ==> p.table[id].value.referenceCount < MaxInt32
  }

  /** `close` on the cached stream cannot underflow its `int` count. */
  predicate RoomToClose(p: FilePool, id: FileId)
  {
    id in p.table && p.table[id].Some? ==> p.table[id].value.referenceCount > MinInt32
  }

  /** `openFile`, as written: a miss caches whatever `open` returned, a
      null pointer included. */
  function OpenFile(p: FilePool, platform: Platform, stat: StatOutcome, filename: string, mode: FileMode,
                    k: PageShift, os: OsState, out: Outcomes): (r: Result<(FilePool, Option<Stream>), PoolError>)
    requires Sane(os)
    requires stat.StatOk? ==> RoomToAddRef(p, InitData(platform, stat, mode).value)
    ensures r.Err? && r.error.CannotIdentify? <==> stat.StatFailed?
    ensures stat.StatOk? ==>
      var id := InitData(platform, stat, mode).value;
      && (id in p.table && p.table[id].None? <==> r == Err(NullEntry))
      && (r.Ok? ==> r.value.0.table.Keys == p.table.Keys + {id} && r.value.0.table[id] == r.value.1)
      && (r.Ok? ==> forall other | other in p.table && other != id :: r.value.0.table[other] == p.table[other])
      && (id in p.table && p.table[id].Some? ==> r.Ok? && r.value.1 == Some(AddRef(p.table[id].value)))
      && (id !in p.table ==> r.Ok? && r.value.1 == Open(filename, mode, 0, platform, k, os, out))
    ensures Good(p) && r.Ok? && r.value.1.Some? ==> IsValid(r.value.1.value)
    ensures r.Err? ==> r.error != NotInPool
  {
    match InitData(platform, stat, mode)
    case Err(e) => Err(CannotIdentify(e))
    case Ok(id) =>
      if id in p.table then
        match p.table[id]
        case None => Err(NullEntry)
        case Some(s) =>
          var s1 := AddRef(s);
          Ok((FilePool(p.table[id := Some(s1)]), Some(s1)))
      else
        var file := Open(filename, mode, 0, platform, k, os, out);
        Ok((FilePool(p.table[id := file]), file))
  }

  /** `closeFile`: drop a reference to the cached stream and forget it when
      none remains. */
  function CloseFile(p: FilePool, platform: Platform, stat: StatOutcome, mode: FileMode, k: PageShift): (r: Result<FilePool, PoolError>)
    requires stat.StatOk? ==> RoomToClose(p, InitData(platform, stat, mode).value)
    ensures r.Err? && r.error.CannotIdentify? <==> stat.StatFailed?
    ensures stat.StatOk? ==>
      var id := InitData(platform, stat, mode).value;
      && (id !in p.table <==> r == Err(NotInPool))
      && (id in p.table && p.table[id].None? <==> r == Err(NullEntry))
      && (r.Ok? ==> r.value.table.Keys <= p.table.Keys && p.table.Keys - {id} <= r.value.table.Keys)
      && (r.Ok? ==> forall other | other in p.table && other != id :: r.value.table[other] == p.table[other])
      && (r.Ok? ==> (id in r.value.table <==> HasRef(Close(p.table[id].value, k))))
      && (r.Ok? && id in r.value.table ==> r.value.table[id] == Some(Close(p.table[id].value, k)))
  {
    match InitData(platform, stat, mode)
    case Err(e) => Err(CannotIdentify(e))
    case Ok(id) =>
      if id !in p.table then Err(NotInPool)
      else
        match p.table[id]
        case None => Err(NullEntry)
        case Some(s) =>
          var s1 := Close(s, k);
          if HasRef(s1) then Ok(FilePool(p.table[id := Some(s1)]))
          else Ok(FilePool(p.table - {id}))
  }

  /** In a good pool `closeFile` never underflows a count. */
  lemma GoodHasRoomToClose(p: FilePool, id: FileId)
    requires Good(p)
    ensures RoomToClose(p, id)
  {
  }

  /** `openFile` keeps the pool good. */
  lemma OpenFileKeepsGood(p: FilePool, platform: Platform, stat: StatOutcome, filename: string, mode: FileMode,
                          k: PageShift, os: OsState, out: Outcomes)
    requires Sane(os) && Good(p)
    requires stat.StatOk? ==> RoomToAddRef(p, InitData(platform, stat, mode).value)
    ensures var r := OpenFile(p, platform, stat, filename, mode, k, os, out);
      r.Ok? ==> Good(r.value.0)
  {
  }

  /** `closeFile` keeps the pool good. */
  lemma CloseFileKeepsGood(p: FilePool, platform: Platform, stat: StatOutcome, mode: FileMode, k: PageShift)
    requires Good(p)
    ensures var r := CloseFile(p, platform, stat, mode, k);
      r.Ok? ==> Good(r.value)
  {
  }

  /** Opening an identity that the pool holds a stream for, or one whose
      stream opens, and closing it again restores the pool. */
  lemma OpenThenCloseRestores(p: FilePool, platform: Platform, stat: StatOutcome, filename: string, mode: FileMode,
                              k: PageShift, os: OsState, out: Outcomes)
    requires Sane(os) && Good(p) && stat.StatOk?
    requires RoomToAddRef(p, InitData(platform, stat, mode).value)
    requires var id := InitData(platform, stat, mode).value;
      (id in p.table && p.table[id].Some?) || (id !in p.table && Open(filename, mode, 0, platform, k, os, out).Some?)
    ensures var r := OpenFile(p, platform, stat, filename, mode, k, os, out);
      && r.Ok? && Good(r.value.0)
      && CloseFile(r.value.0, platform, stat, mode, k) == Ok(p)
  {
    var id := InitData(platform, stat, mode).value;
    var r := OpenFile(p, platform, stat, filename, mode, k, os, out);
    OpenFileKeepsGood(p, platform, stat, filename, mode, k, os, out);
    assert r.Ok?;
    var q := r.value.0;
    GoodHasRoomToClose(q, id);
    if id in p.table {
      var s := p.table[id].value;
      assert q.table == p.table[id := Some(AddRef(s))];
      AddRefThenClose(s, k);
      assert q.table[id] == Some(AddRef(s)) && HasRef(s);
      assert Close(AddRef(s), k) == s;
      assert q.table[id := Some(s)] == p.table[id := Some(s)];
      assert CloseFile(q, platform, stat, mode, k) == Ok(FilePool(p.table[id := Some(s)]));
      assert p.table[id := Some(s)] == p.table;
    } else {
      var s := Open(filename, mode, 0, platform, k, os, out).value;
      assert q.table == p.table[id := Some(s)];
      assert !HasRef(Close(s, k));
      assert q.table - {id} == p.table;
    }
  }

  /** When `closeFile` forgets a stream, destroying the last pointer to it
      runs `close()` once more, which releases nothing. */
  lemma ForgottenStreamDestroyedQuietly(p: FilePool, platform: Platform, stat: StatOutcome, mode: FileMode, k: PageShift)
    requires Good(p) && stat.StatOk?
    requires var id := InitData(platform, stat, mode).value;
      id in p.table && CloseFile(p, platform, stat, mode, k).Ok? && id !in CloseFile(p, platform, stat, mode, k).value.table
    ensures var s := p.table[InitData(platform, stat, mode).value].value;
      && !IsValid(Close(s, k))
      && Close(Close(s, k), k).os == Close(s, k).os
  {
    var s := p.table[InitData(platform, stat, mode).value].value;
    SecondTeardownIsNoOp(s, k);
  }

  // ---------------------------------------------------------------------
  // The cached null pointer.

  /** A first `openFile` whose stream cannot be mapped returns null and
      caches the null pointer under the identity. */
  lemma FailedOpenIsCached(p: FilePool, platform: Platform, stat: StatOutcome, filename: string, mode: FileMode,
                           k: PageShift, os: OsState, out: Outcomes)
    requires Sane(os) && stat.StatOk?
    requires InitData(platform, stat, mode).value !in p.table
    requires Open(filename, mode, 0, platform, k, os, out).None?
    ensures var r := OpenFile(p, platform, stat, filename, mode, k, os, out);
      && r.Ok? && r.value.1.None?
      && r.value.0.table == p.table[InitData(platform, stat, mode).value := None]
  {
  }

  /** Once an identity maps to null, every later `openFile` and `closeFile`
      of it goes through the null pointer, and no operation on any identity
      removes the entry: the identity can never be opened again. */
  lemma NullEntryIsPermanent(p: FilePool, platform: Platform, stat: StatOutcome, filename: string, mode: FileMode,
                             k: PageShift, os: OsState, out: Outcomes, other: StatOutcome, otherMode: FileMode)
    requires Sane(os) && stat.StatOk?
    requires var id := InitData(platform, stat, mode).value; id in p.table && p.table[id].None?
    requires other.StatOk? ==> RoomToAddRef(p, InitData(platform, other, otherMode).value)
    requires other.StatOk? ==> RoomToClose(p, InitData(platform, other, otherMode).value)
    ensures OpenFile(p, platform, stat, filename, mode, k, os, out) == Err(NullEntry)
    ensures CloseFile(p, platform, stat, mode, k) == Err(NullEntry)
    ensures var id := InitData(platform, stat, mode).value;
      && (OpenFile(p, platform, other, filename, otherMode, k, os, out).Ok? ==>
            OpenFile(p, platform, other, filename, otherMode, k, os, out).value.0.table[id] == None)
      && (CloseFile(p, platform, other, otherMode, k).Ok? ==>
            id in CloseFile(p, platform, other, otherMode, k).value.table
            && CloseFile(p, platform, other, otherMode, k).value.table[id] == None)
  {
  }

  /** `openFile` as evidently intended: a stream that cannot be mapped is
      returned as null but not cached. */
  function OpenFileSkippingInvalid(p: FilePool, platform: Platform, stat: StatOutcome, filename: string, mode: FileMode,
                                   k: PageShift, os: OsState, out: Outcomes): (r: Result<(FilePool, Option<Stream>), PoolError>)
    requires Sane(os)
    requires stat.StatOk? ==> RoomToAddRef(p, InitData(platform, stat, mode).value)
    ensures r.Err? && r.error.CannotIdentify? <==> stat.StatFailed?
    ensures NoNullEntries(p) ==> r.Err? ==> r.error.CannotIdentify?
    ensures r.Ok? && r.value.1.None? ==> r.value.0 == p
    ensures r.Ok? && r.value.1.Some? ==>
      var id := InitData(platform, stat, mode).value;
      r == OpenFile(p, platform, stat, filename, mode, k, os, out) && r.value.0.table[id] == r.value.1
    ensures NoNullEntries(p) && r.Ok? ==> NoNullEntries(r.value.0)
  {
    match OpenFile(p, platform, stat, filename, mode, k, os, out)
    case Err(e) => Err(e)
    case Ok((q, file)) => if file.None? then Ok((p, None)) else Ok((q, file))
  }

  /** With the corrected `openFile`, a failed open leaves nothing behind:
      closing the identity reports that it is not in the pool, and a later
      open whose stream maps succeeds. */
  lemma FailedOpenLeavesNoTrace(p: FilePool, platform: Platform, stat: StatOutcome, filename: string, mode: FileMode,
                                k: PageShift, os: OsState, out: Outcomes, os2: OsState, out2: Outcomes)
    requires Sane(os) && Sane(os2) && stat.StatOk? && NoNullEntries(p)
    requires InitData(platform, stat, mode).value !in p.table
    requires Open(filename, mode, 0, platform, k, os, out).None?
    requires Open(filename, mode, 0, platform, k, os2, out2).Some?
    ensures var r := OpenFileSkippingInvalid(p, platform, stat, filename, mode, k, os, out);
      && r == Ok((p, None))
      && CloseFile(r.value.0, platform, stat, mode, k) == Err(NotInPool)
      && OpenFileSkippingInvalid(r.value.0, platform, stat, filename, mode, k, os2, out2).Ok?
      && OpenFileSkippingInvalid(r.value.0, platform, stat, filename, mode, k, os2, out2).value.1.Some?
  {
  }
}
