/** The identity under which the pool shares a stream: the device and the
    file serial number reported by `stat`, plus the access mode the file is
    opened with. The POSIX and the Windows back ends define the same
    equality and the same ordering over their own field types; both are
    modelled once. `MemoryFileId` holds a pointer to such an identity and
    forwards `==` and `<` to it, so it needs no model of its own. */
module FileIdentity {
  import opened Wrappers
  import opened Modes

  datatype FileId = FileId(device: nat, inode: nat, mode: FileMode)

  /** `operator==`: all three fields agree. */
  predicate Same(a: FileId, b: FileId)
  {
    a.device == b.device && a.inode == b.inode && a.mode == b.mode
  }

  /** `operator<`: lexicographic in inode, then mode, then device. */
  predicate Less(a: FileId, b: FileId)
  {
    || a.inode < b.inode
    || (a.inode == b.inode && Ordinal(a.mode) < Ordinal(b.mode))
    || (a.inode == b.inode && a.mode == b.mode && a.device < b.device)
  }

  /** The copy constructor copies the three fields one by one. */
  function Copy(a: FileId): (r: FileId)
    ensures Same(r, a) && r == a
  {
    FileId(a.device, a.inode, a.mode)
  }

  /** What `stat` (`_stat` on Windows) reports about a path. */
  datatype StatOutcome = StatOk(device: nat, inode: nat) | StatFailed(errno: Errno)

  datatype Errno = ENOENT | EINVAL | OtherErrno

  /** The message of the `std::invalid_argument` that `initData` throws. The
      POSIX back end has one message; the Windows back end picks one by
      `errno`. */
  datatype StatError = CannotStat | FileNotFound | InvalidParameter | UnexpectedError

  function StatErrorOf(platform: Platform, errno: Errno): (e: StatError)
  {
    match platform
    case Posix => CannotStat
    case Win32 =>
      match errno
      case ENOENT => FileNotFound
      case EINVAL => InvalidParameter
      case OtherErrno => UnexpectedError
  }

  /** `fileIdPlatform::initData`: throws when `stat` fails, otherwise
      records the device, the serial number and the requested mode. */
  function InitData(platform: Platform, stat: StatOutcome, mode: FileMode): (r: Result<FileId, StatError>)
    ensures r.Ok? <==> stat.StatOk?
    ensures r.Ok? ==> r.value.device == stat.device && r.value.inode == stat.inode && r.value.mode == mode
    ensures r.Err? && platform == Posix ==> r.error == CannotStat
    ensures r.Err? && platform == Win32 ==> (r.error == FileNotFound <==> stat.errno == ENOENT)
  {
    match stat
    case StatOk(dev, ino) => Ok(FileId(dev, ino, mode))
    case StatFailed(e) => Err(StatErrorOf(platform, e))
  }

  /** The same physical file opened under two modes gives two distinct keys,
      and under one mode gives equal keys. */
  lemma KeysSeparateModes(platform: Platform, stat: StatOutcome, m1: FileMode, m2: FileMode)
    requires stat.StatOk?
    ensures Same(InitData(platform, stat, m1).value, InitData(platform, stat, m2).value) <==> m1 == m2
  {
  }

  /** `==` is structural equality: the model may key a Dafny map by
      `FileId`. */
  lemma SameIsEquality(a: FileId, b: FileId)
    ensures Same(a, b) <==> a == b
  {
  }

  /** `<` is irreflexive. */
  lemma LessIrreflexive(a: FileId)
    ensures !Less(a, a)
  {
  }

  /** `<` is transitive. */
  lemma LessTransitive(a: FileId, b: FileId, c: FileId)
    requires Less(a, b) && Less(b, c)
    ensures Less(a, c)
  {
    OrdinalInjective(a.mode, b.mode);
    OrdinalInjective(b.mode, c.mode);
  }

  /** Exactly one of `a < b`, `b < a` and `a == b` holds. */
  lemma LessTrichotomous(a: FileId, b: FileId)
    ensures Less(a, b) || Less(b, a) || Same(a, b)
    ensures !(Less(a, b) && Less(b, a))
    ensures Same(a, b) ==> !Less(a, b) && !Less(b, a)
  {
    OrdinalInjective(a.mode, b.mode);
  }

  /** `std::map` looks keys up by equivalence (neither is less than the
      other); for this ordering equivalence is `==`, so a lookup through
      `MemoryFileId::operator<` finds exactly the entry with an equal
      identity. */
  lemma EquivalentKeysAreSame(a: FileId, b: FileId)
    ensures !Less(a, b) && !Less(b, a) <==> Same(a, b)
  {
    LessTrichotomous(a, b);
  }
}
