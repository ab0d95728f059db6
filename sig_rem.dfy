/**
 * The helpers of SigRemover/CSigRem.cpp around the stripping routine:
 * recognising a command-line switch, naming the output file, and preparing
 * the text of an OS error (the code in hexadecimal or decimal, the message
 * with its line breaks blanked out).
 *
 * A Dafny string stands for the characters of a C string before its
 * terminating NUL; only ScrubLineBreaks works on a raw character buffer.
 */
module SigRem {
  import opened Wrappers
  import opened Types
  import opened Format

  // ---------------------------------------------------------------------
  // Command-line switches (CSigRem::IsCmdLineParam)

  /** Case folding for the comparison: upper-case ASCII letters fold to lower case. */
  function FoldCase(c: char): char
  {
    if 'A' <= c <= 'Z' then (c as int - 'A' as int + 'a' as int) as char else c
  }

  /** The NORM_IGNORECASE equality of two strings. */
  predicate EqualIgnoringCase(a: string, b: string)
  {
    |a| == |b| && forall i :: 0 <= i < |a| ==> FoldCase(a[i]) == FoldCase(b[i])
  }

  /** A switch may be introduced by '-', '/' or '\'. */
  predicate IsSwitchChar(c: char)
  {
    c == '-' || c == '/' || c == '\\'
  }

  /**
   * Whether the argument `cmd` is the switch named `name`: both are
   * non-empty, `cmd` starts with a switch character and the rest of it
   * equals `name` ignoring case.
   */
  function IsCmdLineParam(cmd: string, name: string): (r: bool)
    ensures r ==> |cmd| == |name| + 1 && |name| > 0 && IsSwitchChar(cmd[0])
    ensures r ==> forall i :: 0 <= i < |name| ==> FoldCase(cmd[i + 1]) == FoldCase(name[i])
  {
    if |cmd| > 0 && |name| > 0 && IsSwitchChar(cmd[0]) then EqualIgnoringCase(cmd[1..], name)
    else false
  }

  /** The upper-case partner of a lower-case letter; any other character is its own. */
  function UpperCase(c: char): char
  {
    if 'a' <= c <= 'z' then (c as int - 'a' as int + 'A' as int) as char else c
  }

  /**
   * The spellings of a one-letter switch: exactly two characters, a switch
   * character and then the letter in either case. For "i" these are -i, -I,
   * /i, /I, \i and \I.
   */
  lemma OneLetterSwitchSpellings(cmd: string, letter: char)
    requires 'a' <= letter <= 'z' || letter == '?'
    ensures IsCmdLineParam(cmd, [letter]) <==>
      |cmd| == 2 && IsSwitchChar(cmd[0]) && (cmd[1] == letter || cmd[1] == UpperCase(letter))
  {
    if |cmd| == 2 && IsSwitchChar(cmd[0]) {
      assert cmd[1..] == [cmd[1]];
      assert FoldCase(cmd[1]) == FoldCase(letter) <==> (cmd[1] == letter || cmd[1] == UpperCase(letter));
    }
  }

  /** The four switches the tool knows can never be confused: an argument is at most one of them. */
  lemma KnownSwitchesExclusive(cmd: string, a: string, b: string)
    requires a in {"i", "o", "?", "h"} && b in {"i", "o", "?", "h"} && a != b
    ensures !(IsCmdLineParam(cmd, a) && IsCmdLineParam(cmd, b))
  {
  }

  // ---------------------------------------------------------------------
  // Output file name (CSigRem::RemoveDigitalSignature)

  /** SUFFIX_FILE_NAME, inserted before the extension of the input path. */
  const SuffixFileName: string := " (NoSig)"

  /**
   * The generated output name: the input path with the suffix inserted at
   * the offset of its extension (the offset PathFindExtension reports, the
   * path's length when there is no extension). It always fits, with its
   * terminator, into the buffer of |path| + 1 + SIZEOF_TEXT(suffix)
   * characters reserved for it, so its formatting cannot fail.
   */
  function NoSigFileName(path: string, extOffset: nat): (name: string)
    requires extOffset <= |path|
    ensures |name| + 1 == |path| + 1 + SizeofText(SuffixFileName)
    ensures name[..extOffset] == path[..extOffset]
    ensures name[extOffset..extOffset + |SuffixFileName|] == SuffixFileName
  {
    path[..extOffset] + SuffixFileName + path[extOffset..]
  }

  /** Taking the suffix out of a generated name gives back the input path. */
  function RemoveSuffixAt(name: string, extOffset: nat): string
    requires extOffset + |SuffixFileName| <= |name|
  {
    name[..extOffset] + name[extOffset + |SuffixFileName|..]
  }

  lemma NoSigFileNameRoundTrip(path: string, extOffset: nat)
    requires extOffset <= |path|
    ensures RemoveSuffixAt(NoSigFileName(path, extOffset), extOffset) == path
  {
    var name := NoSigFileName(path, extOffset);
    assert name[extOffset + |SuffixFileName|..] == path[extOffset..];
  }

  /**
   * The file the stripped image is written to: the -o path when one was
   * given and is not empty, otherwise the generated name. A generated name
   * never equals the input path, so the input file is not overwritten.
   */
  function OutputPath(inputPath: string, outputPath: Option<string>, extOffset: nat): (path: string)
    requires extOffset <= |inputPath|
    ensures outputPath.None? || outputPath.value == [] ==> path == NoSigFileName(inputPath, extOffset)
    ensures outputPath.None? || outputPath.value == [] ==> path != inputPath
    ensures outputPath.Some? && outputPath.value != [] ==> path == outputPath.value
  {
    if outputPath.None? || outputPath.value == [] then NoSigFileName(inputPath, extOffset)
    else outputPath.value
  }

  // ---------------------------------------------------------------------
  // Error text (CSigRem::ReportOSError and CSigRem::getFormattedErrorMsg)

  /** An OS error code, a C `int`. */
  type int32 = x: int | -0x8000_0000 <= x < 0x8000_0000

  /** The `(UINT)` cast: the code's 32-bit two's-complement pattern. */
  function AsUnsigned(n: int32): (u: nat)
    ensures u < 0x1_0000_0000
    ensures u % 0x1_0000_0000 == n % 0x1_0000_0000
  {
    if n < 0 then n + 0x1_0000_0000 else n
  }

  /** The code is printed in hexadecimal when either of its two top bits (mask 0xC0000000) is set. */
  predicate UsesHexFormat(n: int32): (r: bool)
    ensures r <==> (n < 0 || n >= 0x4000_0000)
  {
    (AsUnsigned(n) / 0x4000_0000) % 4 != 0
  }

  /** Hexadecimal is chosen for every negative code and for codes from 2^30 up. */
  lemma HexFormatChoice(n: int32)
    ensures UsesHexFormat(n) <==> (n < 0 || n >= 0x4000_0000)
  {
  }

  /**
   * The text of an error code: "0x%X" of its unsigned pattern when a top bit
   * is set, "%u" otherwise. The digits, without leading zeros, read back as
   * that pattern, and the text fits the 32-character buffer it is printed into.
   */
  function ErrorCodeText(n: int32): (text: string)
    ensures |text| < 32
    ensures UsesHexFormat(n) ==>
      && |text| > 2 && text[..2] == "0x"
      && IsDigits(text[2..], 16) && text[2] != '0'
      && FromDigits(text[2..], 16) == AsUnsigned(n)
    ensures !UsesHexFormat(n) ==>
      && |text| > 0 && IsDigits(text, 10) && (|text| > 1 ==> text[0] != '0')
      && FromDigits(text, 10) == AsUnsigned(n)
  {
    var u := AsUnsigned(n);
    if UsesHexFormat(n) then
      ToDigitsRoundTrip(u, 16);
      ToDigitsAreDigits(u, 16);
      ToDigitsLength(u, 16, 8);
      var text := "0x" + ToDigits(u, 16);
      assert text[2..] == ToDigits(u, 16);
      text
    else
      ToDigitsRoundTrip(u, 10);
      ToDigitsAreDigits(u, 10);
      HexFormatChoice(n);
      ToDigitsLength(u, 10, 10);
      ToDigits(u, 10)
  }

  /** CR and LF become spaces; every other character stays. */
  function Blank(c: char): char
  {
    if c == '\n' || c == '\r' then ' ' else c
  }

  /** The position of the first NUL, or the length when there is none. */
  function FirstNul(s: seq<char>): (k: nat)
    ensures k <= |s|
    ensures k < |s| ==> s[k] == '\0'
    ensures forall j :: 0 <= j < k ==> s[j] != '\0'
  {
    if s == [] then 0
    else if s[0] == '\0' then 0
    else 1 + FirstNul(s[1..])
  }

  /** The buffer with its last element forced to NUL (the "safety null"). */
  function SafetyNul(s: seq<char>): (t: seq<char>)
    requires |s| > 0
  {
    s[..|s| - 1] + ['\0']
  }

  /**
   * The message buffer after getFormattedErrorMsg's clean-up: the last
   * element is NUL, and in the C string before the first NUL every CR and
   * LF is a space; nothing at or after that NUL changes.
   */
  function Scrubbed(s: seq<char>): (r: seq<char>)
    requires |s| > 0
    ensures |r| == |s| && r[|s| - 1] == '\0'
    ensures FirstNul(r) == FirstNul(SafetyNul(s))
    ensures forall i :: 0 <= i < FirstNul(r) ==> r[i] != '\n' && r[i] != '\r'
    ensures forall i :: 0 <= i < |s| - 1 ==> r[i] == s[i] || ((s[i] == '\n' || s[i] == '\r') && r[i] == ' ')
    ensures forall i :: FirstNul(r) <= i < |s| - 1 ==> r[i] == s[i]
  {
    var t := SafetyNul(s);
    assert t[|t| - 1] == '\0';
    var k := FirstNul(t);
    var r := seq(|t|, i requires 0 <= i < |t| => if i < k then Blank(t[i]) else t[i]);
    FirstNulAt(r, k);
    r
  }

  /** A NUL at `k` with none before it is the first NUL. */
  lemma {:induction false} FirstNulAt(s: seq<char>, k: nat)
    requires k < |s| && s[k] == '\0'
    requires forall j :: 0 <= j < k ==> s[j] != '\0'
    ensures FirstNul(s) == k
  {
    if k > 0 {
      FirstNulAt(s[1..], k - 1);
    }
  }

  /** Scrubbing a scrubbed buffer changes nothing. */
  lemma ScrubbedIdempotent(s: seq<char>)
    requires |s| > 0
    ensures Scrubbed(Scrubbed(s)) == Scrubbed(s)
  {
    var r := Scrubbed(s);
    assert SafetyNul(r) == r;
  }

  /**
   * The clean-up loop of getFormattedErrorMsg on its message buffer: store
   * the safety NUL in the last element, then walk the C string and turn
   * every CR and LF into a space.
   */
  method ScrubLineBreaks(buf: array<char>)
    requires buf.Length > 0
    modifies buf
    ensures buf[..] == Scrubbed(old(buf[..]))
  {
    buf[buf.Length - 1] := '\0';
    ghost var t := buf[..];
    assert t == SafetyNul(old(buf[..]));
    ghost var k := FirstNul(t);
    var i := 0;
    while true
      invariant 0 <= i <= k < buf.Length
      invariant forall j :: 0 <= j < i ==> buf[j] == Blank(t[j])
      invariant forall j :: i <= j < buf.Length ==> buf[j] == t[j]
      decreases k - i
    {
      var z := buf[i];
      if z == '\0' {
        break;
      }
      if z == '\n' || z == '\r' {
        buf[i] := ' ';
      }
      i := i + 1;
    }
    assert i == k;
    assert buf[..] == Scrubbed(old(buf[..]));
  }
}
