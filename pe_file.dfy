/**
 * The signature-stripping routine of SigRemover/CSigRem.cpp
 * (CSigRem::process_PE_File): locate the PE headers in a file image held in
 * memory, classify the Certificate (Security) data-directory entry, and
 * when the signature is the tail of the file clear the entry, cut the file
 * at the signature and store a recomputed image checksum.
 *
 * The image is a buffer of bytes; every header field is named by its byte
 * offset, and every read below carries the bounds it needs as a
 * precondition, so no step can look outside the buffer.
 */
module PeFile {
  import opened Wrappers
  import opened Types
  import opened Bytes

  // Layout of the headers (Microsoft PE/COFF specification, section 3).

  /** sizeof(IMAGE_DOS_HEADER). */
  const DosHeaderSize: nat := 64
  /** Offset of e_lfanew, the file offset of the NT headers. */
  const LfanewField: nat := 60
  /** sizeof(IMAGE_NT_HEADERS64), the larger of the two NT header layouts. */
  const NtHeaders64Size: nat := 264
  /** "PE\0\0" read as a little-endian DWORD. */
  const NtSignature: u32 := 0x0000_4550
  /** Offset of FileHeader.SizeOfOptionalHeader inside the NT headers. */
  const SizeOfOptionalHeaderField: nat := 20
  /** Offset of the optional header inside the NT headers. */
  const OptionalHeaderOffset: nat := 24
  const OptionalHeader32Size: nat := 224
  const OptionalHeader64Size: nat := 240
  const Magic32: u16 := 0x10b
  const Magic64: u16 := 0x20b
  /** Offset of CheckSum inside either optional header. */
  const CheckSumField: nat := 64
  /** Offsets of the DataDirectory array inside the 32- and 64-bit optional headers. */
  const DataDirectory32Offset: nat := 96
  const DataDirectory64Offset: nat := 112
  /** IMAGE_DIRECTORY_ENTRY_SECURITY. */
  const SecurityIndex: nat := 4
  /** sizeof(IMAGE_DATA_DIRECTORY): VirtualAddress then Size. */
  const DataDirectoryEntrySize: nat := 8
  /** sizeof(IMAGE_SECTION_HEADER). */
  const SectionHeaderSize: nat := 40

  /** ERROR_BAD_EXE_FORMAT. */
  const ErrorBadExeFormat: int := 193
  /** The OS error reported for a signature that is not the tail of the file. */
  const ErrorSignatureNotAtEnd: int := 1466
  /** INT_MAX: the caller only hands over files shorter than this. */
  const IntMax: nat := 0x7FFF_FFFF

  datatype Bitness = Pe32 | Pe64

  /** The validated header positions of an image. */
  datatype Headers = Headers(ntOffset: nat, sectionsOffset: nat, bitness: Bitness)
  {
    function OptionalHeader(): nat
    {
      ntOffset + OptionalHeaderOffset
    }

    function CheckSum(): nat
    {
      OptionalHeader() + CheckSumField
    }

    /** The Security entry: VirtualAddress here, Size four bytes further. */
    function SecurityEntry(): nat
    {
      OptionalHeader()
      + (if bitness == Pe32 then DataDirectory32Offset else DataDirectory64Offset)
      + SecurityIndex * DataDirectoryEntrySize
    }
  }

  /** The NT-header offset, read as an unsigned DWORD. */
  function NtOffset(image: seq<byte>): nat
    requires |image| >= DosHeaderSize
  {
    U32At(image, LfanewField)
  }

  /**
   * Steps one and two of the routine: the chain of header checks. None is
   * the XC_Not_PE_File outcome; the NT-signature test is made only when
   * `strict` holds (it is compiled out of fuzzing builds).
   */
  function LocateHeaders(image: seq<byte>, strict: bool): (r: Option<Headers>)
    ensures r.Some? ==> |image| >= DosHeaderSize && r.value.ntOffset == NtOffset(image)
    ensures r.Some? ==> r.value.ntOffset + NtHeaders64Size <= |image|
    ensures r.Some? ==> r.value.SecurityEntry() + DataDirectoryEntrySize < |image|
    ensures r.Some? ==> r.value.sectionsOffset + SectionHeaderSize < |image|
    ensures r.Some? ==>
      r.value.sectionsOffset == r.value.OptionalHeader() + U16At(image, r.value.ntOffset + SizeOfOptionalHeaderField)
    ensures r.Some? ==>
      var magic := U16At(image, r.value.OptionalHeader());
      (magic == Magic32 && r.value.bitness == Pe32) || (magic == Magic64 && r.value.bitness == Pe64)
  {
    if |image| < DosHeaderSize then None
    else
      var nt := NtOffset(image);
      if nt + NtHeaders64Size > |image| then None
      else if strict && U32At(image, nt) != NtSignature then None
      else
        var sections := nt + OptionalHeaderOffset + U16At(image, nt + SizeOfOptionalHeaderField);
        if Overruns(sections, SectionHeaderSize, |image|) then None
        else
          var magic := U16At(image, nt + OptionalHeaderOffset);
          var bitness :=
            if magic == Magic32 && !Overruns(nt + OptionalHeaderOffset, OptionalHeader32Size, |image|) then Some(Pe32)
            else if magic == Magic64 && !Overruns(nt + OptionalHeaderOffset, OptionalHeader64Size, |image|) then Some(Pe64)
            else None;
          if bitness.None? then None
          else
            var h := Headers(nt, sections, bitness.value);
            if Overruns(h.SecurityEntry(), DataDirectoryEntrySize, |image|) then None
            else Some(h)
  }

  /** The first rejection: a buffer shorter than the DOS header. */
  predicate TooShort(image: seq<byte>)
  {
    |image| < DosHeaderSize
  }

  /** The second rejection: the largest NT headers would not fit. */
  predicate NtHeadersOutside(image: seq<byte>)
  {
    |image| >= DosHeaderSize && NtOffset(image) + NtHeaders64Size > |image|
  }

  /** The NT signature is not "PE\0\0" (only meaningful once the NT headers fit). */
  predicate SignatureMismatch(image: seq<byte>)
  {
    |image| >= DosHeaderSize && NtOffset(image) + NtHeaders64Size <= |image|
    && U32At(image, NtOffset(image)) != NtSignature
  }

  /**
   * The header checks, simplified: once the 264-byte NT headers fit, the
   * 32-bit optional-header check and the Security-entry check can never
   * reject, and the 64-bit optional-header check rejects exactly when the
   * NT headers end at the end of the buffer.
   */
  lemma LocateHeadersAccepts(image: seq<byte>, strict: bool)
    ensures LocateHeaders(image, strict).Some? <==>
      && |image| >= DosHeaderSize
      && NtOffset(image) + NtHeaders64Size <= |image|
      && (strict ==> U32At(image, NtOffset(image)) == NtSignature)
      && (var nt := NtOffset(image);
          var sections := nt + OptionalHeaderOffset + U16At(image, nt + SizeOfOptionalHeaderField);
          var magic := U16At(image, nt + OptionalHeaderOffset);
          && sections + SectionHeaderSize < |image|
          && (magic == Magic32 || (magic == Magic64 && nt + NtHeaders64Size < |image|)))
  {
  }

  /** Leaving out the NT-signature test only removes that one rejection. */
  lemma StrictOnlyAddsSignatureTest(image: seq<byte>)
    ensures LocateHeaders(image, true) ==
      (if SignatureMismatch(image) then None else LocateHeaders(image, false))
  {
  }

  /** The classification of an image (steps one to three). */
  datatype Verdict =
    | NotPE
    | NoSignature
    | BadLayout
    | Strippable(headers: Headers, va: u32)

  /** The Security entry's (VirtualAddress, Size). */
  function SecurityEntryOf(image: seq<byte>, h: Headers): (u32, u32)
    requires h.SecurityEntry() + DataDirectoryEntrySize <= |image|
  {
    (U32At(image, h.SecurityEntry()), U32At(image, h.SecurityEntry() + 4))
  }

  /**
   * The tail test of CSigRem.cpp:492 as written: VirtualAddress + Size is
   * a DWORD sum, so it is taken modulo 2^32 before it is compared.
   */
  predicate TailMatchesAsWritten(va: u32, size: u32, fileSize: nat): (r: bool)
    requires fileSize < 0x1_0000_0000
    ensures r <==> (va + size == fileSize || va + size == fileSize + 0x1_0000_0000)
  {
    (va + size) % 0x1_0000_0000 == fileSize
  }

  /** The intended tail test: the signature ends exactly at the end of the file. */
  predicate TailMatches(va: u32, size: u32, fileSize: nat)
  {
    va + size == fileSize
  }

  /** Step three as written in the source, with the wrapping DWORD sum. */
  function InspectAsWritten(image: seq<byte>, strict: bool): (v: Verdict)
    requires |image| < 0x1_0000_0000
    ensures v.Strippable? ==> LocateHeaders(image, strict) == Some(v.headers)
    ensures v.Strippable? ==>
      var (va, size) := SecurityEntryOf(image, v.headers);
      va == v.va && (va, size) != (0, 0) && TailMatchesAsWritten(va, size, |image|)
  {
    match LocateHeaders(image, strict)
    case None => NotPE
    case Some(h) =>
      var (va, size) := SecurityEntryOf(image, h);
      if size == 0 && va == 0 then NoSignature
      else if !TailMatchesAsWritten(va, size, |image|) then BadLayout
      else Strippable(h, va)
  }

  /**
   * Step three with the intended tail test, the classification the model of
   * the routine uses: a strippable signature lies inside the image and ends
   * at its end.
   */
  function Inspect(image: seq<byte>, strict: bool): (v: Verdict)
    ensures v.Strippable? ==> LocateHeaders(image, strict) == Some(v.headers)
    ensures v.Strippable? ==> v.va <= |image|
    ensures v.Strippable? ==>
      var (va, size) := SecurityEntryOf(image, v.headers);
      va == v.va && va + size == |image| && (va, size) != (0, 0)
  {
    match LocateHeaders(image, strict)
    case None => NotPE
    case Some(h) =>
      var (va, size) := SecurityEntryOf(image, h);
      if size == 0 && va == 0 then NoSignature
      else if !TailMatches(va, size, |image|) then BadLayout
      else Strippable(h, va)
  }

  /**
   * The two tail tests disagree only on a wrapped sum, and then the source
   * accepts a signature that starts past the end of the buffer.
   */
  lemma AsWrittenDiffersOnlyByWrap(image: seq<byte>, strict: bool)
    requires |image| < 0x1_0000_0000
    ensures InspectAsWritten(image, strict) != Inspect(image, strict) ==>
      && Inspect(image, strict) == BadLayout
      && InspectAsWritten(image, strict).Strippable?
      && InspectAsWritten(image, strict).va > |image|
  {
    match LocateHeaders(image, strict)
    case None =>
    case Some(h) =>
      var (va, size) := SecurityEntryOf(image, h);
      if TailMatches(va, size, |image|) {
        assert TailMatchesAsWritten(va, size, |image|);
      } else if TailMatchesAsWritten(va, size, |image|) && (size, va) != (0, 0) {
        WrappedSumPassesEnd(va, size, |image|);
      }
  }

  /** A DWORD sum that wraps onto the file size needs a start past the end. */
  lemma WrappedSumPassesEnd(va: u32, size: u32, fileSize: nat)
    requires fileSize < 0x1_0000_0000
    requires TailMatchesAsWritten(va, size, fileSize) && !TailMatches(va, size, fileSize)
    ensures va > fileSize
  {
  }

  /**
   * The discrepancy is reachable: in any image whose headers are accepted,
   * a Security entry (VirtualAddress, Size) with
   * VirtualAddress + Size == file size + 2^32 passes the source's test.
   */
  lemma AsWrittenAcceptsEntryPastEnd(image: seq<byte>, strict: bool)
    requires |image| < IntMax
    requires LocateHeaders(image, strict).Some?
    requires var (va, size) := SecurityEntryOf(image, LocateHeaders(image, strict).value);
      va + size == |image| + 0x1_0000_0000
    ensures InspectAsWritten(image, strict).Strippable?
    ensures InspectAsWritten(image, strict).va > |image|
    ensures Inspect(image, strict) == BadLayout
  {
  }

  /** What the routine leaves behind: the outcome, the out-parameters it set, the buffer. */
  datatype Result = Result(code: ExitCode, newSize: Option<u32>, osErr: Option<int>, image: seq<byte>)

  /** The Security entry cleared: Size first, then VirtualAddress, as the source stores them. */
  function ClearSecurityEntry(image: seq<byte>, h: Headers): (r: seq<byte>)
    requires h.SecurityEntry() + DataDirectoryEntrySize <= |image|
    ensures |r| == |image|
    ensures SecurityEntryOf(r, h) == (0, 0)
    ensures forall i :: 0 <= i < |image| && !(h.SecurityEntry() <= i < h.SecurityEntry() + 8) ==> r[i] == image[i]
  {
    var sec := h.SecurityEntry();
    var cleared := PutU32(image, sec + 4, 0);
    var r := PutU32(cleared, sec, 0);
    assert U32At(r, sec + 4) == U32At(cleared, sec + 4) by {
      U32AtAgree(r, cleared, sec + 4);
    }
    r
  }

  /** Clear the Security entry in place: Size first, then VirtualAddress. */
  method ClearSecurityEntryInPlace(buf: array<byte>, h: Headers)
    requires h.SecurityEntry() + DataDirectoryEntrySize <= buf.Length
    modifies buf
    ensures buf[..] == ClearSecurityEntry(old(buf[..]), h)
  {
    StoreU32(buf, h.SecurityEntry() + 4, 0);
    StoreU32(buf, h.SecurityEntry(), 0);
  }

  /**
   * process_PE_File as a function of the input image. `checksum` stands for
   * CheckSumMappedFile applied to bytes [0, newSize) of the buffer
   * (None: the call failed), `lastError` for the OS error it leaves.
   * A None out-parameter is one the routine does not assign.
   */
  function Process(image: seq<byte>, strict: bool, checksum: seq<byte> -> Option<u32>, lastError: int): (r: Result)
    ensures |r.image| == |image|
  {
    match Inspect(image, strict)
    case NotPE => Result(NotPEFile, None, Some(ErrorBadExeFormat), image)
    case NoSignature => Result(BinaryHasNoSignature, None, None, image)
    case BadLayout => Result(BadSignature, None, Some(ErrorSignatureNotAtEnd), image)
    case Strippable(h, va) =>
      var cleared := ClearSecurityEntry(image, h);
      match checksum(cleared[..va])
      case None => Result(FailedChecksum, Some(va), Some(lastError), cleared)
      case Some(sum) => Result(Success, Some(va), None, PutU32(cleared, h.CheckSum(), sum))
  }

  /**
   * The routine on the caller's buffer, with the intended tail test of
   * Inspect. The headers are checked before anything is written; then the
   * entry is cleared in place, the checksum is computed over the truncated
   * image and stored.
   */
  method ProcessPEFile(buf: array<byte>, strict: bool, checksum: seq<byte> -> Option<u32>, lastError: int)
    returns (code: ExitCode, newSize: Option<u32>, osErr: Option<int>)
    requires buf.Length < IntMax
    modifies buf
    ensures Result(code, newSize, osErr, buf[..]) == Process(old(buf[..]), strict, checksum, lastError)
  {
    match Inspect(buf[..], strict)
    case NotPE =>
      return NotPEFile, None, Some(ErrorBadExeFormat);
    case NoSignature =>
      return BinaryHasNoSignature, None, None;
    case BadLayout =>
      return BadSignature, None, Some(ErrorSignatureNotAtEnd);
    case Strippable(h, va) =>
      ghost var image := buf[..];
      newSize := Some(va);
      ClearSecurityEntryInPlace(buf, h);
      assert buf[..] == ClearSecurityEntry(image, h);
      var sum := checksum(buf[..va]);
      if sum.None? {
        return FailedChecksum, newSize, Some(lastError);
      }
      StoreU32(buf, h.CheckSum(), sum.value);
      code, osErr := Success, None;
  }
}
