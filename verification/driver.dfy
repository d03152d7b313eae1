/** The visible control flow of `main`: parse the arguments, report a
    usage error and exit, or read the dimension of the chosen parameter
    file and dispatch on it. Reading the dimension is file I/O and enters
    as the function `dimensionOf`.
 */
module Driver {
  import opened Process
  import opened CommandLine
  import opened DimensionDispatch

  /** Printed to standard output when no argument follows the program name. */
  const NoInputMessage: string := "You must provide an input file \"-p <filename>\""

  /** Printed to standard error for a trailing `-p`. */
  const MissingValueMessage: string :=
    "Error: flag '-p' must be followed by the name of a parameter file."

  /** Printed to standard error, followed by the offending token. */
  const UnknownOptionPrefix: string := "Unknown command line option: "

  /** The diagnostic and status for a parse that did not produce a file. */
  function UsageError(o: ParseOutcome): (a: Action)
    requires !o.Ok?
    ensures a.Exit? && a.status == 1
    ensures a.stream == Stdout <==> o.NoArgs?
    ensures o.UnknownOption? ==>
              && |o.token| <= |a.message|
              && a.message[|a.message| - |o.token|..] == o.token
  {
    match o
    case NoArgs => Exit(1, Stdout, NoInputMessage)
    case MissingValue => Exit(1, Stderr, MissingValueMessage)
    case UnknownOption(token) => Exit(1, Stderr, UnknownOptionPrefix + token)
  }

  /** What one invocation with argument vector `argv` does. */
  function Launch(argv: seq<string>, dimensionOf: string -> int): (a: Action)
    ensures a.Exit? ==> a.status == 1
    ensures ExitStatus(a) in {0, 1}
    ensures a.Runs() ==> ParseCommandLine(argv) == Ok(a.inputFile)
                         && dimensionOf(a.inputFile) in SupportedDimensions
  {
    match ParseCommandLine(argv)
    case Ok(file) => Dispatch(dimensionOf(file), file)
    case _ => UsageError(ParseCommandLine(argv))
  }

  /** An invocation with no argument after the program name is rejected
      before any token is looked at.
   */
  lemma NoArgumentsRejected(argv: seq<string>, dimensionOf: string -> int)
    requires |argv| < 2
    ensures Launch(argv, dimensionOf) == Exit(1, Stdout, NoInputMessage)
  {
  }

  /** A `-p` as the last token is a usage error, whatever came before it
      as long as the earlier tokens parsed.
   */
  lemma TrailingFlagRejected(program: string, files: seq<string>, dimensionOf: string -> int)
    ensures Launch([program] + EncodeArgs(files) + [ParamFlag], dimensionOf)
            == Exit(1, Stderr, MissingValueMessage)
  {
    var argv := [program] + EncodeArgs(files) + [ParamFlag];
    assert argv[1..] == EncodeArgs(files) + [ParamFlag];
    ParseAfterPairs(EncodeArgs(files), [ParamFlag], "");
  }

  /** The first token in flag position that is not `-p` makes the program
      exit with status 1 and a message naming exactly that token.
   */
  lemma UnknownOptionRejected(argv: seq<string>, k: nat, dimensionOf: string -> int)
    requires 1 <= k < |argv| && (k - 1) % 2 == 0 && argv[k] != ParamFlag
    requires forall j :: 1 <= j < k && (j - 1) % 2 == 0 ==> argv[j] == ParamFlag
    ensures Launch(argv, dimensionOf) == Exit(1, Stderr, UnknownOptionPrefix + argv[k])
  {
    var args := argv[1..];
    forall j | 0 <= j < k - 1 && j % 2 == 0
      ensures args[j] == ParamFlag
    {
      assert args[j] == argv[j + 1];
    }
    ParseUnknownOption(args, "", k - 1);
  }

  /** The program goes on to a solver run exactly when the arguments are a
      non-empty sequence of `-p <file>` pairs and the last file names a
      problem of dimension 2 or 3; the run gets that last file.
   */
  lemma LaunchRunsIff(argv: seq<string>, dimensionOf: string -> int)
    ensures Launch(argv, dimensionOf).Runs()
            <==> && |argv| >= 2
                 && IsPairList(argv[1..])
                 && dimensionOf(argv[|argv| - 1]) in SupportedDimensions
    ensures Launch(argv, dimensionOf).Runs() ==>
              && Launch(argv, dimensionOf).inputFile == argv[|argv| - 1]
              && RunDimension(Launch(argv, dimensionOf)) == dimensionOf(argv[|argv| - 1])
  {
    ParseCommandLineOkIff(argv);
  }

  /** A failed parse never consults the parameter file: the outcome does
      not depend on `dimensionOf`.
   */
  lemma UsageErrorIgnoresDimension(argv: seq<string>, d1: string -> int, d2: string -> int)
    requires !ParseCommandLine(argv).Ok?
    ensures Launch(argv, d1) == Launch(argv, d2)
    ensures ExitStatus(Launch(argv, d1)) == 1
  {
  }

  /** Every invocation either runs a solver, ending with status 0, or
      exits with status 1; no other status is possible.
   */
  lemma StatusIsZeroOrOne(argv: seq<string>, dimensionOf: string -> int)
    ensures ExitStatus(Launch(argv, dimensionOf)) == 0
            <==> Launch(argv, dimensionOf).Runs()
    ensures ExitStatus(Launch(argv, dimensionOf)) in {0, 1}
  {
  }
}
