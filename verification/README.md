# Command-line front end of the elasticity solver

The elasticity program (a multiscale and a standard finite-element solver
for linear elasticity on deal.II) is started as `main -p <parameter file>`.
Before any numerical work, `main` does two things this project models:

1. It parses the argument vector. The tokens after the program name are a
   queue: a `-p` pops itself and the next token, which becomes the
   parameter file; any other token in flag position stops the program with
   "Unknown command line option: <token>" and status 1; a trailing `-p`
   stops it with status 1; an argument vector with no token after the
   program name is refused with status 1 before the queue is built.
2. It reads the space dimension from the chosen parameter file and
   switches on it: 2 runs the 2-D problem, 3 runs the 3-D problem, and any
   other value prints "The dimension must be 2 or 3." and exits with
   status 1.

Modules:

- `Process` (process.dfy): the observable end of one invocation, a solver
  run on a file or an exit with status, stream and message.
- `CommandLine` (command_line.dfy): the parser as a recursive function
  `ParseArgs`, the same loop as the queue-popping method `ScanArguments`,
  and the reference description of accepted inputs as pair lists
  (`IsPairList`, `EncodeArgs`, `Values`) with the lemmas tying them
  together.
- `DimensionDispatch` (dispatch.dfy): the `switch` on the dimension.
- `Driver` (driver.dfy): `Launch`, the composition of both, where the
  dimension lookup in the parameter file is the function parameter
  `dimensionOf`.

The parser's outcome is the datatype `ParseOutcome`: `Ok(file)`, `NoArgs`,
`MissingValue` or `UnknownOption(token)`. The three error outcomes map to
an `Exit(1, stream, message)` action; the "no input" message goes to
standard output, the other two to standard error, as in the source.

## Model

| member | source | states |
|---|---|---|
| CommandLine.ParseArgs | source/main.cxx:22-45 | the loop never yields the no-argument error; success implies an even number of tokens and the file is the last token; an unknown option is a token of the list other than `-p`; a missing value means an odd-length list ending in `-p` |
| CommandLine.ParseCommandLine | source/main.cxx:7-20 | fewer than two entries in `argv` is exactly the no-argument error; on success the file is the last entry of `argv` |
| CommandLine.ScanArguments | source/main.cxx:14-45 | the queue-popping loop (pop `-p`, take front as file, pop it) produces the same outcome as the recursive parser on every argument vector |
| CommandLine.ParseOkIff | source/main.cxx:22-45 | parsing succeeds if and only if the tokens form a list of `-p <value>` pairs, and the result is the last value |
| CommandLine.ParseCommandLineOkIff | source/main.cxx:7-45 | the front end accepts exactly the argument vectors whose tokens after the program name encode a non-empty list of files, and keeps the last of them |
| CommandLine.ParseEncoded | source/main.cxx:22-37 | `-p f1 ... -p fn` after the program name parses to `fn` |
| CommandLine.ParseUnknownOption | source/main.cxx:39-44 | the first non-`-p` token in flag position, after only `-p` pairs, is the token the error reports |
| CommandLine.ParseMissingValue | source/main.cxx:26-31 | when all flags are `-p` and the list has odd length, the final `-p` is reported as lacking its value |
| CommandLine.ParseAfterPairs | source/main.cxx:24-37 | a `-p v` pair consumes exactly two tokens and only its value carries over, so with repeated `-p` the last value wins |
| CommandLine.ValueTakenVerbatim | source/main.cxx:34-36 | the token after `-p` is the file whatever it looks like; `-p -p` yields the file `-p` |
| DimensionDispatch.Dispatch | source/main.cxx:92-105 | a run happens if and only if the dimension is 2 or 3, the run gets the parameter file, and any other dimension exits with status 1 on standard output |
| DimensionDispatch.DispatchRoundTrip | source/main.cxx:92-100 | dimension 2 selects the 2-D run and 3 the 3-D run: the dimension is recovered from the run, and every run is what dispatch selects for its dimension |
| DimensionDispatch.UnsupportedDimensionExits | source/main.cxx:102-104 | every dimension other than 2 and 3 gives the same exit with status 1 and message |
| Driver.UsageError | source/main.cxx:7-44 | every parse error exits with status 1; only the no-argument error goes to standard output; the unknown-option message ends with the offending token |
| Driver.Launch | source/main.cxx:7-105 | exits always carry status 1, so the process status is 0 or 1; a run happens only after a successful parse, on the parsed file, for a supported dimension |
| Driver.NoArgumentsRejected | source/main.cxx:7-12 | an argument vector without tokens after the program name exits with status 1 and the "provide an input file" message on standard output |
| Driver.TrailingFlagRejected | source/main.cxx:26-31 | a `-p` at the end, after any well-formed pairs, exits with status 1 and the "must be followed by the name of a parameter file" message on standard error |
| Driver.UnknownOptionRejected | source/main.cxx:39-44 | the first unknown token in flag position exits with status 1 and a message naming exactly that token |
| Driver.LaunchRunsIff | source/main.cxx:7-105 | a solver runs if and only if the arguments are non-empty `-p` pairs and the last file has dimension 2 or 3; the run uses that file and that dimension |
| Driver.UsageErrorIgnoresDimension | source/main.cxx:22-90 | when parsing fails the parameter file is never consulted: the outcome does not depend on the dimension lookup |
| Driver.StatusIsZeroOrOne | source/main.cxx:92-132 | an invocation ends with status 1 exactly when it does not reach a solver run; that a run ends with status 0 (the `return 0` after a normal return) is a modelling choice of `Process.ExitStatus`, not derived from the solver |

## Left out

- MPI initialisation, the thread limit in debug builds and the "Hello from" banner (source/main.cxx:51-87): process and cluster set-up with no effect on the outcome modelled here.
- Reading the dimension from the parameter file (source/main.cxx:89-90): file I/O in a header that is not part of this model; it enters `Driver.Launch` as the total function `dimensionOf`, which assumes the read always yields an integer. `Driver.Launch`, `Driver.LaunchRunsIff` and `Driver.StatusIsZeroOrOne` therefore only describe invocations whose parameter file can be read; a file that cannot be opened or parsed throws inside the `try` and ends as described on the next line, not with a run or the "dimension must be 2 or 3" exit.
- `run_2d_problem` and `run_3d_problem` (source/main.cxx:95, 99): calls into the deal.II/Trilinos/MPI solvers; the model stops at the `Run2d`/`Run3d` action that names the file.
- The exception handlers (source/main.cxx:107-131): they catch any exception thrown inside the `try` block (source/main.cxx:46-106), which covers MPI initialisation, the dimension read and the solver runs, print an "Aborting!" banner to standard error and return status 1. None of these throwing paths is modelled; `Process.ExitStatus` gives a run the status 0 of a normal return.
- Argument tokens: `argv` entries are NUL-terminated C byte strings copied into `std::string` (source/main.cxx:19); the model uses Dafny `string`, a sequence of characters in which '\0' may occur. No outcome changes, since the parser only compares tokens with `-p` and copies them unchanged.
- The text streams themselves and the trailing newline of each message: a diagnostic is modelled as its stream and its text.
- The Lamé-parameter and force classes (include/forces_and_lame_parameters.h) and the two solver classes (include/ela_ms.h, include/ela_std.h): declarations of floating-point field evaluators and distributed solvers whose bodies are not part of this model.
- Driver.StatusIsZeroOrOne: states status 0 for a run that returns normally; a run that throws ends with status 1 through the handlers, which are not modelled.
