/**
 * The entry point of SigRemover/SigRemover.cpp (_tmain): the loop over the
 * command-line arguments, and the choice of the process exit code.
 *
 * argv[0] is the program name. Removing the signature from a file
 * (CSigRem::RemoveDigitalSignature, file I/O around process_PE_File) is the
 * parameter `remove`; the console output is represented by the diagnostics
 * the run reports and the copyright years it prints.
 */
module SigRemover {
  import opened Wrappers
  import opened Types
  import opened Format
  import opened SigRem

  /** The command-line errors the tool reports (all with OS error 22). */
  datatype Diagnostic =
    | MissingInputPath
    | MissingOutputPath
    | UnsupportedParameter(param: string)
    | OutputWithoutInput

  /** What the argument loop leaves: the captured paths, the exit code so far, the error it stopped on. */
  datatype Scan = Scan(input: Option<string>, output: Option<string>, exitCode: int, diagnostic: Option<Diagnostic>)

  /**
   * The argument loop from argument `p` on, with the paths captured so far.
   * -i and -o take the next argument as their path (a later one replaces an
   * earlier one); a switch without its path stops the loop and keeps what was
   * captured; -h or -? clears both paths and stops with exit code 0; any other
   * argument clears both paths and stops with the general failure code.
   */
  function ScanFrom(argv: seq<string>, p: nat, input: Option<string>, output: Option<string>): (s: Scan)
    ensures s.exitCode == 0 || s.exitCode == GenFailure.Value()
    ensures s.exitCode == 0 ==> s.input.None? && s.output.None? && s.diagnostic.None?
    ensures s.diagnostic.Some? && s.diagnostic.value.UnsupportedParameter? ==> s.input.None? && s.output.None?
    ensures s.input.Some? && s.input != input ==> exists k :: p <= k < |argv| && argv[k] == s.input.value
    ensures s.output.Some? && s.output != output ==> exists k :: p <= k < |argv| && argv[k] == s.output.value
    decreases |argv| - p
  {
    if p >= |argv| then Scan(input, output, GenFailure.Value(), None)
    else if IsCmdLineParam(argv[p], "i") then
      if p + 1 < |argv| then ScanFrom(argv, p + 2, Some(argv[p + 1]), output)
      else Scan(input, output, GenFailure.Value(), Some(MissingInputPath))
    else if IsCmdLineParam(argv[p], "o") then
      if p + 1 < |argv| then ScanFrom(argv, p + 2, input, Some(argv[p + 1]))
      else Scan(input, output, GenFailure.Value(), Some(MissingOutputPath))
    else if IsCmdLineParam(argv[p], "?") || IsCmdLineParam(argv[p], "h") then
      Scan(None, None, 0, None)
    else
      Scan(None, None, GenFailure.Value(), Some(UnsupportedParameter(argv[p])))
  }

  /** The argument loop of _tmain, from argv[1] on. */
  method ScanArguments(argv: seq<string>) returns (s: Scan)
    requires |argv| > 1
    ensures s == ScanFrom(argv, 1, None, None)
  {
    var input: Option<string> := None;
    var output: Option<string> := None;
    var exitCode := GenFailure.Value();
    var diagnostic: Option<Diagnostic> := None;
    var p := 1;
    while p < |argv|
      invariant 1 <= p <= |argv|
      invariant ScanFrom(argv, p, input, output) == ScanFrom(argv, 1, None, None)
      invariant exitCode == GenFailure.Value() && diagnostic.None?
    {
      var param := argv[p];
      if IsCmdLineParam(param, "i") {
        if p + 1 < |argv| {
          p := p + 1;
          input := Some(argv[p]);
        } else {
          diagnostic := Some(MissingInputPath);
          break;
        }
      } else if IsCmdLineParam(param, "o") {
        if p + 1 < |argv| {
          p := p + 1;
          output := Some(argv[p]);
        } else {
          diagnostic := Some(MissingOutputPath);
          break;
        }
      } else if IsCmdLineParam(param, "?") || IsCmdLineParam(param, "h") {
        input, output := None, None;
        exitCode := 0;
        break;
      } else {
        diagnostic := Some(UnsupportedParameter(param));
        input, output := None, None;
        break;
      }
      p := p + 1;
    }
    s := Scan(input, output, exitCode, diagnostic);
  }

  /**
   * A later -i wins: once the rest of the command line captures an input
   * path, the path captured before it makes no difference to the scan.
   */
  lemma {:induction false} LaterInputOverrides(argv: seq<string>, p: nat, input: Option<string>, output: Option<string>)
    requires ScanFrom(argv, p, None, output).input.Some?
    ensures ScanFrom(argv, p, input, output) == ScanFrom(argv, p, None, output)
    decreases |argv| - p
  {
    if p < |argv| && !IsCmdLineParam(argv[p], "i") && IsCmdLineParam(argv[p], "o") && p + 1 < |argv| {
      LaterInputOverrides(argv, p + 2, input, Some(argv[p + 1]));
    }
  }

  /**
   * A later -o wins: once the rest of the command line captures an output
   * path, the path captured before it makes no difference to the scan.
   */
  lemma {:induction false} LaterOutputOverrides(argv: seq<string>, p: nat, input: Option<string>, output: Option<string>)
    requires ScanFrom(argv, p, input, None).output.Some?
    ensures ScanFrom(argv, p, input, output) == ScanFrom(argv, p, input, None)
    decreases |argv| - p
  {
    if p < |argv| && IsCmdLineParam(argv[p], "i") && p + 1 < |argv| {
      LaterOutputOverrides(argv, p + 2, Some(argv[p + 1]), output);
    }
  }

  /** A final -i or -o without its path stops the loop with an error but keeps what was captured. */
  lemma DanglingSwitchKeepsCaptured(argv: seq<string>, input: Option<string>, output: Option<string>)
    requires |argv| > 0
    requires IsCmdLineParam(argv[|argv| - 1], "i") || IsCmdLineParam(argv[|argv| - 1], "o")
    ensures var s := ScanFrom(argv, |argv| - 1, input, output);
      s.input == input && s.output == output && s.diagnostic.Some? && s.exitCode == GenFailure.Value()
  {
  }

  /** The copyright years of the banner: "2021", or "2021-YYYY" ("%04u") after 2021. */
  function CopyrightYears(year: nat): (text: string)
    ensures year <= 2021 ==> text == "2021"
    ensures year > 2021 ==>
      && |text| >= 9 && text[..5] == "2021-"
      && IsDigits(text[5..], 10) && (|text| > 9 ==> text[5] != '0')
      && FromDigits(text[5..], 10) == year
  {
    if year <= 2021 then "2021"
    else
      var text := "2021-" + ZeroPad4(year);
      assert text[5..] == ZeroPad4(year);
      text
  }

  /** Everything a run of the tool decides: its exit code, its console reports and the removal it starts. */
  datatype Outcome = Outcome(
    exitCode: int,
    banner: Option<string>,
    diagnostics: seq<Diagnostic>,
    removal: Option<(string, Option<string>)>)

  /**
   * _tmain. Without arguments it prints the banner with the copyright years
   * for `year` (the current year) and exits with 0. Otherwise it scans the
   * arguments; with an input path it exits with the outcome of removing the
   * signature from it, and an output path without an input is an error.
   */
  function Run(argv: seq<string>, year: nat, remove: (string, Option<string>) -> ExitCode): (o: Outcome)
    ensures o.removal.Some? <==> |argv| > 1 && ScanFrom(argv, 1, None, None).input.Some?
    ensures o.removal.Some? ==>
      var s := ScanFrom(argv, 1, None, None);
      && o.removal == Some((s.input.value, s.output))
      && o.exitCode == remove(s.input.value, s.output).Value()
    ensures o.removal.None? ==> o.exitCode == 0 || o.exitCode == GenFailure.Value()
    ensures o.banner.Some? <==> |argv| <= 1
    ensures |argv| <= 1 ==> o.banner == Some(CopyrightYears(year)) && o.exitCode == 0 && o.diagnostics == []
  {
    if |argv| <= 1 then Outcome(0, Some(CopyrightYears(year)), [], None)
    else
      var s := ScanFrom(argv, 1, None, None);
      var reported := if s.diagnostic.Some? then [s.diagnostic.value] else [];
      if s.input.Some? then
        Outcome(remove(s.input.value, s.output).Value(), None, reported, Some((s.input.value, s.output)))
      else if s.output.Some? then
        Outcome(s.exitCode, None, reported + [OutputWithoutInput], None)
      else
        Outcome(s.exitCode, None, reported, None)
  }

  /** The body of _tmain. */
  method Execute(argv: seq<string>, year: nat, remove: (string, Option<string>) -> ExitCode) returns (o: Outcome)
    ensures o == Run(argv, year, remove)
  {
    if |argv| > 1 {
      var s := ScanArguments(argv);
      var reported := if s.diagnostic.Some? then [s.diagnostic.value] else [];
      if s.input.Some? {
        var result := remove(s.input.value, s.output);
        o := Outcome(result.Value(), None, reported, Some((s.input.value, s.output)));
      } else if s.output.Some? {
        o := Outcome(s.exitCode, None, reported + [OutputWithoutInput], None);
      } else {
        o := Outcome(s.exitCode, None, reported, None);
      }
    } else {
      o := Outcome(0, Some(CopyrightYears(year)), [], None);
    }
  }

  /** Without arguments the tool only prints its banner and exits with 0. */
  lemma NoArgumentsExitsZero(argv: seq<string>, year: nat, remove: (string, Option<string>) -> ExitCode)
    requires |argv| <= 1
    ensures Run(argv, year, remove).exitCode == 0 && Run(argv, year, remove).removal.None?
  {
  }

  /** -h or -? as the first argument: help, nothing removed, exit code 0. */
  lemma HelpExitsZero(argv: seq<string>, year: nat, remove: (string, Option<string>) -> ExitCode)
    requires |argv| > 1 && (IsCmdLineParam(argv[1], "h") || IsCmdLineParam(argv[1], "?"))
    ensures Run(argv, year, remove) == Outcome(0, None, [], None)
  {
    KnownSwitchesExclusive(argv[1], "i", "h");
    KnownSwitchesExclusive(argv[1], "i", "?");
    KnownSwitchesExclusive(argv[1], "o", "h");
    KnownSwitchesExclusive(argv[1], "o", "?");
  }

  /** An unknown argument: it is reported, nothing is removed, and the exit code is XC_GEN_FAILURE. */
  lemma UnsupportedParameterFails(argv: seq<string>, year: nat, remove: (string, Option<string>) -> ExitCode)
    requires |argv| > 1
    requires ScanFrom(argv, 1, None, None).diagnostic.Some?
    requires ScanFrom(argv, 1, None, None).diagnostic.value.UnsupportedParameter?
    ensures Run(argv, year, remove).exitCode == GenFailure.Value()
    ensures Run(argv, year, remove).removal.None?
    ensures Run(argv, year, remove).diagnostics == [ScanFrom(argv, 1, None, None).diagnostic.value]
  {
  }

  /** An output path without an input path is reported and fails with XC_GEN_FAILURE. */
  lemma OutputWithoutInputFails(argv: seq<string>, year: nat, remove: (string, Option<string>) -> ExitCode)
    requires |argv| > 1
    requires ScanFrom(argv, 1, None, None).input.None? && ScanFrom(argv, 1, None, None).output.Some?
    ensures Run(argv, year, remove).exitCode == GenFailure.Value()
    ensures Run(argv, year, remove).removal.None?
    ensures |Run(argv, year, remove).diagnostics| > 0
    ensures Run(argv, year, remove).diagnostics[|Run(argv, year, remove).diagnostics| - 1] == OutputWithoutInput
  {
  }

  /**
   * "-i a.exe -o" still removes the signature of a.exe: the missing -o path
   * is reported, the loop stops, and the input captured before is used,
   * written to the generated name.
   */
  lemma DanglingOutputStillRemoves(year: nat, remove: (string, Option<string>) -> ExitCode)
    ensures var o := Run(["sigremover", "-i", "a.exe", "-o"], year, remove);
      && o.removal == Some(("a.exe", None))
      && o.diagnostics == [MissingOutputPath]
      && o.exitCode == remove("a.exe", None).Value()
  {
    var argv := ["sigremover", "-i", "a.exe", "-o"];
    OneLetterSwitchSpellings(argv[1], 'i');
    OneLetterSwitchSpellings(argv[3], 'i');
    OneLetterSwitchSpellings(argv[3], 'o');
    assert ScanFrom(argv, 3, Some("a.exe"), None) == Scan(Some("a.exe"), None, GenFailure.Value(), Some(MissingOutputPath));
  }
}
