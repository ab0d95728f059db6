/**
 * Shared definitions of SigRemover/Types.h: the process exit codes, the
 * structure-overrun test used for every header access, and the length of a
 * string literal without its terminator.
 */
module Types {
  import opened Wrappers

  /** The outcomes of the tool, one per EXIT_CODES enumerator. */
  datatype ExitCode =
    | Success
    | BinaryHasNoSignature
    | GenFailure
    | FailedToOpen
    | NotPEFile
    | BadSignature
    | FailedChecksum
    | FailedFileWrite
  {
    /** The integer the process returns for this outcome. */
    function Value(): (v: int)
      ensures v >= 0 <==> (this == Success || this == BinaryHasNoSignature)
      ensures -6 <= v <= 1
    {
      match this
      case Success => 0
      case BinaryHasNoSignature => 1
      case GenFailure => -1
      case FailedToOpen => -2
      case NotPEFile => -3
      case BadSignature => -4
      case FailedChecksum => -5
      case FailedFileWrite => -6
    }
  }

  /** The outcome a process exit value stands for, if any. */
  function FromValue(v: int): (r: Option<ExitCode>)
    ensures r.Some? ==> r.value.Value() == v
    ensures r.None? <==> (v < -6 || v > 1)
  {
    if v == 0 then Some(Success)
    else if v == 1 then Some(BinaryHasNoSignature)
    else if v == -1 then Some(GenFailure)
    else if v == -2 then Some(FailedToOpen)
    else if v == -3 then Some(NotPEFile)
    else if v == -4 then Some(BadSignature)
    else if v == -5 then Some(FailedChecksum)
    else if v == -6 then Some(FailedFileWrite)
    else None
  }

  /** Every outcome has its own exit value: the value decodes back to the outcome. */
  lemma ValueRoundTrip(c: ExitCode)
    ensures FromValue(c.Value()) == Some(c)
  {
  }

  /** Hence no two outcomes share an exit value. */
  lemma ValuesDistinct(a: ExitCode, b: ExitCode)
    requires a != b
    ensures a.Value() != b.Value()
  {
    ValueRoundTrip(a);
    ValueRoundTrip(b);
  }

  /**
   * CHECK_PTR_4_OVERRUN in byte offsets from the start of the buffer: a
   * structure of `size` bytes at `start` is rejected when it starts at or
   * past `end`, or when its end reaches `end`. The test is `>=`, so a
   * structure that ends exactly at the end of the buffer is rejected.
   */
  predicate Overruns(start: int, size: nat, end: int): (r: bool)
    ensures r <==> start + size >= end
  {
    start >= end || start + size >= end
  }

  /** A structure is accepted exactly when at least one byte of the buffer follows it. */
  lemma OverrunsIffNoByteFollows(start: int, size: nat, end: int)
    ensures !Overruns(start, size, end) <==> start + size < end
    ensures Overruns(end - size, size, end)
  {
  }

  /** The number of elements of a literal's array: its characters plus the terminating NUL. */
  function CountOf(literal: string): nat
  {
    |literal| + 1
  }

  /** SIZEOF_TEXT: the element count minus one, i.e. the length without the terminator. */
  function SizeofText(literal: string): (n: nat)
    ensures n == |literal|
  {
    CountOf(literal) - 1
  }
}
