/** Enumerations shared by the stream, the identity key and both platform
    back ends. */
module Modes {

  /** `FileMode`, an `enum class` whose underlying values follow the
      declaration order READ, WRITE, READ_WRITE, APPEND. */
  datatype FileMode = Read | Write | ReadWrite | Append

  /** The underlying integer of a `FileMode`, which `operator<` on
      identities compares. */
  function Ordinal(m: FileMode): (n: nat)
    ensures n < 4
  {
    match m
    case Read => 0
    case Write => 1
    case ReadWrite => 2
    case Append => 3
  }

  /** Distinct modes have distinct underlying values. */
  lemma OrdinalInjective(a: FileMode, b: FileMode)
    ensures Ordinal(a) == Ordinal(b) <==> a == b
  {
  }

  /** `CacheHint`: an advisory access pattern. */
  datatype CacheHint = Normal | SequentialScan | RandomAccess

  /** The two back ends; exactly one is compiled into a build. */
  datatype Platform = Posix | Win32
}
