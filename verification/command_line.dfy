/** The argument parser at the top of `main`: the token list after the
    program name is read front to back, every `-p` takes the next token as
    the parameter file, and anything else is a usage error.
 */
module CommandLine {

  /** The only flag the program understands. */
  const ParamFlag: string := "-p"

  /** How parsing the argument vector ends. The three error outcomes each
      make `main` exit with status 1.
   */
  datatype ParseOutcome =
    | Ok(inputFile: string)
    | NoArgs                       // fewer than two entries in `argv`
    | MissingValue                 // a `-p` with nothing after it
    | UnknownOption(token: string) // a token other than `-p` in flag position

  /** The parsing loop over the remaining tokens `args`, with `current` the
      parameter file chosen so far.
   */
  function ParseArgs(args: seq<string>, current: string): (r: ParseOutcome)
    ensures !r.NoArgs?
    ensures r.Ok? ==> |args| % 2 == 0
    ensures r.Ok? && |args| > 0 ==> r.inputFile == args[|args| - 1]
    ensures r.UnknownOption? ==> r.token != ParamFlag && r.token in args
    ensures r.MissingValue? ==> |args| % 2 == 1 && args[|args| - 1] == ParamFlag
    decreases |args|
  {
    if |args| == 0 then
      Ok(current)
    else if args[0] == ParamFlag then
      if |args| == 1 then MissingValue
      else ParseArgs(args[2..], args[1])
    else
      UnknownOption(args[0])
  }

  /** The whole front end on `argv`, whose entry 0 is the program name. The
      parameter file starts out as the empty string.
   */
  function ParseCommandLine(argv: seq<string>): (r: ParseOutcome)
    ensures r.NoArgs? <==> |argv| < 2
    ensures r.Ok? ==> r.inputFile == argv[|argv| - 1] && (|argv| - 1) % 2 == 0
  {
    if |argv| < 2 then NoArgs else ParseArgs(argv[1..], "")
  }

  /** The same loop written the way `main` runs it: the tokens are a queue,
      `-p` pops itself and then pops its value into `inputFile`.
   */
  method ScanArguments(argv: seq<string>) returns (r: ParseOutcome)
    ensures r == ParseCommandLine(argv)
  {
    if |argv| < 2 {
      return NoArgs;
    }
    var inputFile := "";
    var args := argv[1..];
    while |args| > 0
      invariant ParseArgs(args, inputFile) == ParseArgs(argv[1..], "")
      decreases |args|
    {
      if args[0] == ParamFlag {
        if |args| == 1 {
          return MissingValue;
        }
        args := args[1..];
        inputFile := args[0];
        args := args[1..];
      } else {
        return UnknownOption(args[0]);
      }
    }
    return Ok(inputFile);
  }

  /** Tokens in every even position are `-p` and each has a value after it. */
  predicate IsPairList(args: seq<string>) {
    && |args| % 2 == 0
    && forall i :: 0 <= i < |args| && i % 2 == 0 ==> args[i] == ParamFlag
  }

  /** The argument list `-p f0 -p f1 ...` for the parameter files `files`. */
  function EncodeArgs(files: seq<string>): (args: seq<string>)
    ensures |args| == 2 * |files|
    ensures IsPairList(args)
    ensures forall i :: 0 <= i < |files| ==> files[i] == args[2 * i + 1]
  {
    if files == [] then []
    else [ParamFlag, files[0]] + EncodeArgs(files[1..])
  }

  /** The values, the tokens in odd positions, of an argument list. */
  function Values(args: seq<string>): seq<string> {
    seq(|args| / 2, i requires 0 <= i < |args| / 2 => args[2 * i + 1])
  }

  /** Encoding a list of parameter files and reading the values back gives
      the same list.
   */
  lemma ValuesOfEncode(files: seq<string>)
    ensures Values(EncodeArgs(files)) == files
  {
    var args := EncodeArgs(files);
    assert |Values(args)| == |files|;
    forall i | 0 <= i < |files|
      ensures Values(args)[i] == files[i]
    {
      assert Values(args)[i] == args[2 * i + 1];
    }
  }

  /** Every pair list is the encoding of its values. */
  lemma {:induction false} EncodeValues(args: seq<string>)
    requires IsPairList(args)
    ensures EncodeArgs(Values(args)) == args
    decreases |args|
  {
    if |args| > 0 {
      var rest := args[2..];
      PairListTail(args);
      EncodeValues(rest);
      assert Values(args) == [args[1]] + Values(rest);
      assert args[0] == ParamFlag by {
        assert 0 % 2 == 0;
      }
      assert args == [args[0], args[1]] + rest;
    }
  }

  /** Dropping a leading `-p v` pair keeps a pair list a pair list. */
  lemma PairListTail(args: seq<string>)
    requires IsPairList(args) && |args| >= 2
    ensures IsPairList(args[2..])
  {
    var rest := args[2..];
    forall i | 0 <= i < |rest| && i % 2 == 0
      ensures rest[i] == ParamFlag
    {
      assert rest[i] == args[i + 2];
      assert (i + 2) % 2 == 0;
    }
  }

  /** A leading `-p v` pair in front of a pair list gives a pair list. */
  lemma PairListCons(args: seq<string>)
    requires |args| >= 2 && args[0] == ParamFlag && IsPairList(args[2..])
    ensures IsPairList(args)
  {
    var rest := args[2..];
    forall i | 0 <= i < |args| && i % 2 == 0
      ensures args[i] == ParamFlag
    {
      if i >= 2 {
        assert args[i] == rest[i - 2];
        assert (i - 2) % 2 == 0;
      }
    }
  }

  /** Parsing succeeds exactly on pair lists, and then yields the last
      value (or the file chosen so far, when no token is left).
   */
  lemma {:induction false} ParseOkIff(args: seq<string>, current: string)
    ensures ParseArgs(args, current).Ok? <==> IsPairList(args)
    ensures IsPairList(args) ==>
              ParseArgs(args, current)
              == Ok(if |args| == 0 then current else args[|args| - 1])
    decreases |args|
  {
    if |args| == 0 {
    } else if args[0] != ParamFlag {
      assert !IsPairList(args) by {
        assert 0 % 2 == 0;
      }
    } else if |args| == 1 {
    } else {
      ParseOkIff(args[2..], args[1]);
      if IsPairList(args) {
        PairListTail(args);
      }
      if IsPairList(args[2..]) {
        PairListCons(args);
      }
    }
  }

  /** The first token in flag position that is not `-p` is the one the
      error names, provided every flag before it was a `-p`.
   */
  lemma {:induction false} ParseUnknownOption(args: seq<string>, current: string, k: nat)
    requires k < |args| && k % 2 == 0 && args[k] != ParamFlag
    requires forall j :: 0 <= j < k && j % 2 == 0 ==> args[j] == ParamFlag
    ensures ParseArgs(args, current) == UnknownOption(args[k])
    decreases |args|
  {
    if k > 0 {
      assert args[0] == ParamFlag by {
        assert 0 % 2 == 0;
      }
      var rest := args[2..];
      forall j | 0 <= j < k - 2 && j % 2 == 0
        ensures rest[j] == ParamFlag
      {
        assert rest[j] == args[j + 2];
        assert (j + 2) % 2 == 0;
      }
      assert rest[k - 2] == args[k];
      ParseUnknownOption(rest, args[1], k - 2);
    }
  }

  /** When every token in flag position is `-p` but the list has odd
      length, the final `-p` lacks its value and parsing reports that.
   */
  lemma {:induction false} ParseMissingValue(args: seq<string>, current: string)
    requires |args| % 2 == 1
    requires forall j :: 0 <= j < |args| && j % 2 == 0 ==> args[j] == ParamFlag
    ensures ParseArgs(args, current) == MissingValue
    decreases |args|
  {
    assert args[0] == ParamFlag by {
      assert 0 % 2 == 0;
    }
    if |args| > 1 {
      var rest := args[2..];
      forall j | 0 <= j < |rest| && j % 2 == 0
        ensures rest[j] == ParamFlag
      {
        assert rest[j] == args[j + 2];
        assert (j + 2) % 2 == 0;
      }
      ParseMissingValue(rest, args[1]);
    }
  }

  /** Pairs parsed earlier only matter through the value they leave
      behind: after a pair list `prefix`, parsing goes on with the rest as
      if it had started there with the prefix's last value. In particular
      a `-p v` pair consumes exactly its two tokens, and with several `-p`
      the last value wins.
   */
  lemma {:induction false} ParseAfterPairs(prefix: seq<string>, rest: seq<string>, current: string)
    requires IsPairList(prefix)
    ensures ParseArgs(prefix + rest, current)
            == ParseArgs(rest, if |prefix| == 0 then current else prefix[|prefix| - 1])
    decreases |prefix|
  {
    if |prefix| > 0 {
      assert prefix[0] == ParamFlag by {
        assert 0 % 2 == 0;
      }
      PairListTail(prefix);
      var args := prefix + rest;
      assert args[2..] == prefix[2..] + rest;
      ParseAfterPairs(prefix[2..], rest, prefix[1]);
      if |prefix| > 2 {
        assert prefix[2..][|prefix| - 3] == prefix[|prefix| - 1];
      }
    } else {
      assert prefix + rest == rest;
    }
  }

  /** The value after `-p` is taken verbatim, even when it is `-p` itself
      or another flag-like token.
   */
  lemma ValueTakenVerbatim(program: string, value: string)
    ensures ParseCommandLine([program, ParamFlag, value]) == Ok(value)
    ensures ParseCommandLine([program, "-p", "-p"]) == Ok("-p")
  {
    var args := [program, ParamFlag, value][1..];
    assert args == [ParamFlag, value];
    assert args[2..] == [];
    assert ParseArgs(args, "") == ParseArgs([], value);
  }

  /** The encoding of a non-empty list of files, after any program name,
      parses to the last file of the list.
   */
  lemma ParseEncoded(program: string, files: seq<string>)
    requires |files| > 0
    ensures ParseCommandLine([program] + EncodeArgs(files)) == Ok(files[|files| - 1])
  {
    var args := EncodeArgs(files);
    assert ([program] + args)[1..] == args;
    ParseOkIff(args, "");
    assert files[|files| - 1] == args[2 * (|files| - 1) + 1];
  }

  /** The front end accepts `argv` exactly when its tokens after the
      program name are the encoding of a non-empty list of parameter files,
      and the file it keeps is the last of them.
   */
  lemma ParseCommandLineOkIff(argv: seq<string>)
    ensures ParseCommandLine(argv).Ok?
            <==> |argv| >= 2 && IsPairList(argv[1..])
    ensures ParseCommandLine(argv).Ok? ==>
              var files := Values(argv[1..]);
              && |files| > 0
              && argv[1..] == EncodeArgs(files)
              && ParseCommandLine(argv).inputFile == files[|files| - 1]
  {
    if |argv| >= 2 {
      var args := argv[1..];
      ParseOkIff(args, "");
      if IsPairList(args) {
        EncodeValues(args);
        var files := Values(args);
        ValuesOfEncode(files);
        assert |files| > 0;
        assert files[|files| - 1] == args[2 * (|files| - 1) + 1];
      }
    }
  }
}
