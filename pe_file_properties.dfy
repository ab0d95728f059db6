/**
 * What process_PE_File promises, stated about the model of the routine in
 * module PeFile: which outcome each kind of image gets, which out-parameters
 * are set, and exactly which bytes of the caller's buffer change.
 */
module PeFileProperties {
  import opened Wrappers
  import opened Types
  import opened Bytes
  import opened PeFile

  /** A buffer shorter than the DOS header is not a PE file, and nothing in it changes. */
  lemma ShortImageIsNotPE(image: seq<byte>, strict: bool, checksum: seq<byte> -> Option<u32>, lastError: int)
    requires TooShort(image)
    ensures Process(image, strict, checksum, lastError) == Result(NotPEFile, None, Some(ErrorBadExeFormat), image)
  {
  }

  /** NT headers that would run past the buffer make it not a PE file. */
  lemma NtHeadersOutsideIsNotPE(image: seq<byte>, strict: bool, checksum: seq<byte> -> Option<u32>, lastError: int)
    requires NtHeadersOutside(image)
    ensures Process(image, strict, checksum, lastError) == Result(NotPEFile, None, Some(ErrorBadExeFormat), image)
  {
  }

  /** In a strict build a signature other than "PE\0\0" makes it not a PE file. */
  lemma StrictRejectsBadSignature(image: seq<byte>, checksum: seq<byte> -> Option<u32>, lastError: int)
    requires SignatureMismatch(image)
    ensures Process(image, true, checksum, lastError) == Result(NotPEFile, None, Some(ErrorBadExeFormat), image)
  {
  }

  /**
   * With the NT headers in the buffer, a first section header that is not
   * followed by at least one byte, or a Magic that is neither 0x10b nor
   * 0x20b, makes it not a PE file.
   */
  lemma SectionsOrMagicRejected(image: seq<byte>, strict: bool, checksum: seq<byte> -> Option<u32>, lastError: int)
    requires |image| >= DosHeaderSize && NtOffset(image) + NtHeaders64Size <= |image|
    requires
      var nt := NtOffset(image);
      var sections := nt + OptionalHeaderOffset + U16At(image, nt + SizeOfOptionalHeaderField);
      var magic := U16At(image, nt + OptionalHeaderOffset);
      sections + SectionHeaderSize >= |image| || (magic != Magic32 && magic != Magic64)
    ensures Process(image, strict, checksum, lastError) == Result(NotPEFile, None, Some(ErrorBadExeFormat), image)
  {
  }

  /** The routine reports XC_Not_PE_File exactly when the header checks reject the buffer. */
  lemma NotPEExactlyWhenHeadersRejected(image: seq<byte>, strict: bool, checksum: seq<byte> -> Option<u32>, lastError: int)
    ensures Process(image, strict, checksum, lastError).code == NotPEFile <==> LocateHeaders(image, strict).None?
  {
  }

  /**
   * An all-zero Security entry is reported as "no signature", without an OS
   * error and without a single byte changed; no other image gets that outcome.
   */
  lemma NoSignatureLeavesImage(image: seq<byte>, strict: bool, checksum: seq<byte> -> Option<u32>, lastError: int)
    ensures Process(image, strict, checksum, lastError).code == BinaryHasNoSignature <==>
      LocateHeaders(image, strict).Some? && SecurityEntryOf(image, LocateHeaders(image, strict).value) == (0, 0)
    ensures Process(image, strict, checksum, lastError).code == BinaryHasNoSignature ==>
      Process(image, strict, checksum, lastError) == Result(BinaryHasNoSignature, None, None, image)
  {
  }

  /**
   * A signature that is present but does not end exactly at the end of the
   * file is rejected with OS error 1466, and the buffer is left as it was.
   */
  lemma MisplacedSignatureRejected(image: seq<byte>, strict: bool, checksum: seq<byte> -> Option<u32>, lastError: int)
    ensures Process(image, strict, checksum, lastError).code == BadSignature <==>
      && LocateHeaders(image, strict).Some?
      && var (va, size) := SecurityEntryOf(image, LocateHeaders(image, strict).value);
         (va, size) != (0, 0) && va + size != |image|
    ensures Process(image, strict, checksum, lastError).code == BadSignature ==>
      Process(image, strict, checksum, lastError) == Result(BadSignature, None, Some(ErrorSignatureNotAtEnd), image)
  {
  }

  /** Every outcome other than success or a failed checksum leaves the buffer and the new size untouched. */
  lemma ValidationPrecedesMutation(image: seq<byte>, strict: bool, checksum: seq<byte> -> Option<u32>, lastError: int)
    ensures var r := Process(image, strict, checksum, lastError);
      r.code in {Success, BinaryHasNoSignature, NotPEFile, BadSignature, FailedChecksum}
    ensures var r := Process(image, strict, checksum, lastError);
      r.code != Success && r.code != FailedChecksum ==> r.image == image && r.newSize == None
  {
  }

  /** Offset `i` is neither in the Security entry nor in the CheckSum field. */
  predicate Untouched(h: Headers, i: int)
  {
    !(h.SecurityEntry() <= i < h.SecurityEntry() + DataDirectoryEntrySize)
    && !(h.CheckSum() <= i < h.CheckSum() + 4)
  }

  /** A success is a strippable image whose checksum call succeeded; the buffer is the cleared image with the sum stored. */
  lemma SuccessShape(image: seq<byte>, strict: bool, checksum: seq<byte> -> Option<u32>, lastError: int)
    requires Process(image, strict, checksum, lastError).code == Success
    ensures Inspect(image, strict).Strippable?
    ensures
      var v := Inspect(image, strict);
      var cleared := ClearSecurityEntry(image, v.headers);
      var r := Process(image, strict, checksum, lastError);
      && checksum(cleared[..v.va]).Some?
      && r.newSize == Some(v.va) && r.osErr == None
      && r.image == PutU32(cleared, v.headers.CheckSum(), checksum(cleared[..v.va]).value)
  {
  }

  /**
   * On success the new size is the signature's VirtualAddress, which lies
   * inside the file; the Security entry reads (0, 0); the CheckSum field
   * holds the checksum routine's result over the first VirtualAddress bytes
   * of the buffer with the entry already cleared; no other byte changes.
   */
  lemma SuccessStripsSignature(image: seq<byte>, strict: bool, checksum: seq<byte> -> Option<u32>, lastError: int)
    requires Process(image, strict, checksum, lastError).code == Success
    ensures LocateHeaders(image, strict).Some?
    ensures
      var (va, size) := SecurityEntryOf(image, LocateHeaders(image, strict).value);
      var r := Process(image, strict, checksum, lastError);
      r.newSize == Some(va) && r.osErr == None && va + size == |image| && (va, size) != (0, 0) && va <= |image|
    ensures
      var h := LocateHeaders(image, strict).value;
      SecurityEntryOf(Process(image, strict, checksum, lastError).image, h) == (0, 0)
    ensures
      var h := LocateHeaders(image, strict).value;
      var va := SecurityEntryOf(image, h).0;
      var r := Process(image, strict, checksum, lastError);
      checksum(ClearSecurityEntry(image, h)[..va]) == Some(U32At(r.image, h.CheckSum()))
    ensures
      var h := LocateHeaders(image, strict).value;
      var r := Process(image, strict, checksum, lastError);
      forall i :: 0 <= i < |image| && Untouched(h, i) ==> r.image[i] == image[i]
  {
    SuccessShape(image, strict, checksum, lastError);
    var h := Inspect(image, strict).headers;
    var va := Inspect(image, strict).va;
    var cleared := ClearSecurityEntry(image, h);
    var sum := checksum(cleared[..va]).value;
    var r := Process(image, strict, checksum, lastError);
    assert r.image == PutU32(cleared, h.CheckSum(), sum);
    assert SecurityEntryOf(r.image, h) == (0, 0) by {
      U32AtAgree(r.image, cleared, h.SecurityEntry());
      U32AtAgree(r.image, cleared, h.SecurityEntry() + 4);
    }
  }

  /**
   * A failed checksum is reported with the OS error the routine left, but
   * the Security entry has already been cleared: the change is not undone,
   * and it is the only change (the CheckSum field is not written).
   */
  lemma FailedChecksumKeepsClearedEntry(image: seq<byte>, strict: bool, checksum: seq<byte> -> Option<u32>, lastError: int)
    requires Process(image, strict, checksum, lastError).code == FailedChecksum
    ensures LocateHeaders(image, strict).Some?
    ensures
      var h := LocateHeaders(image, strict).value;
      var (va, size) := SecurityEntryOf(image, h);
      var r := Process(image, strict, checksum, lastError);
      && r.newSize == Some(va) && r.osErr == Some(lastError)
      && checksum(ClearSecurityEntry(image, h)[..va]) == None
      && r.image == ClearSecurityEntry(image, h)
  {
  }

  /**
   * Nothing stops a signature that covers the whole file: an entry
   * (0, file size) passes every test, and if the checksum routine accepts
   * the empty range the routine succeeds with a new size of zero.
   */
  lemma WholeFileSignatureTruncatesToZero(image: seq<byte>, strict: bool, checksum: seq<byte> -> Option<u32>, lastError: int)
    requires LocateHeaders(image, strict).Some?
    requires SecurityEntryOf(image, LocateHeaders(image, strict).value) == (0, |image|)
    requires checksum([]).Some?
    ensures Process(image, strict, checksum, lastError).code == Success
    ensures Process(image, strict, checksum, lastError).newSize == Some(0)
  {
    var h := LocateHeaders(image, strict).value;
    assert Inspect(image, strict) == Strippable(h, 0);
    assert ClearSecurityEntry(image, h)[..0] == [];
  }

  /**
   * The header checks read nothing at or past the CheckSum field: a buffer
   * that agrees with an accepted image below that field is either rejected
   * or located at the very same headers.
   */
  lemma LocateOnAgreeingBuffer(image: seq<byte>, other: seq<byte>, strict: bool)
    requires LocateHeaders(image, strict).Some?
    requires var h := LocateHeaders(image, strict).value;
      forall i :: 0 <= i < |other| && i < h.CheckSum() ==> i < |image| && other[i] == image[i]
    ensures LocateHeaders(other, strict).Some? ==> LocateHeaders(other, strict) == LocateHeaders(image, strict)
  {
    var h := LocateHeaders(image, strict).value;
    if LocateHeaders(other, strict).Some? {
      var h2 := LocateHeaders(other, strict).value;
      U32AtAgree(other, image, LfanewField);
      assert h2.ntOffset == h.ntOffset;
      U16AtAgree(other, image, h.ntOffset + SizeOfOptionalHeaderField);
      U16AtAgree(other, image, h.ntOffset + OptionalHeaderOffset);
    }
  }

  /**
   * Stripping is idempotent: running the routine again on what a success
   * leaves to be written (the first newSize bytes of the buffer) never finds
   * a signature; it reports "no signature" whenever the headers still fit.
   */
  lemma StrippedImageHasNoSignature(image: seq<byte>, strict: bool, checksum: seq<byte> -> Option<u32>, lastError: int)
    requires Process(image, strict, checksum, lastError).code == Success
    ensures
      var r := Process(image, strict, checksum, lastError);
      var out := r.image[..r.newSize.value];
      Inspect(out, strict) == if LocateHeaders(out, strict).Some? then NoSignature else NotPE
  {
    var r := Process(image, strict, checksum, lastError);
    SuccessStripsSignature(image, strict, checksum, lastError);
    var h := LocateHeaders(image, strict).value;
    var out := r.image[..r.newSize.value];
    forall i | 0 <= i < |out| && i < h.CheckSum()
      ensures i < |image| && out[i] == image[i]
    {
      assert Untouched(h, i);
    }
    LocateOnAgreeingBuffer(image, out, strict);
    if LocateHeaders(out, strict).Some? {
      U32AtAgree(out, r.image, h.SecurityEntry());
      U32AtAgree(out, r.image, h.SecurityEntry() + 4);
    }
  }
}
