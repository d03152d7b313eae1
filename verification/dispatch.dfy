/** The `switch` on the space dimension read from the parameter file: 2
    and 3 select the matching solver run, every other value is a
    configuration error with status 1.
 */
module DimensionDispatch {
  import opened Process

  /** Dimensions the program has a solver for. */
  const SupportedDimensions: set<int> := {2, 3}

  /** Printed (to standard output) for an unsupported dimension. */
  const BadDimensionMessage: string := "The dimension must be 2 or 3."

  /** The action `main` takes once it knows the dimension `dim` of the
      problem described by `inputFile`.
   */
  function Dispatch(dim: int, inputFile: string): (a: Action)
    ensures a.Runs() <==> dim in SupportedDimensions
    ensures a.Runs() ==> a.inputFile == inputFile
    ensures a.Exit? ==> a.status == 1 && a.stream == Stdout
  {
    match dim
    case 2 => Run2d(inputFile)
    case 3 => Run3d(inputFile)
    case _ => Exit(1, Stdout, BadDimensionMessage)
  }

  /** The space dimension a run works in. */
  function RunDimension(a: Action): (dim: int)
    requires a.Runs()
    ensures dim in SupportedDimensions
  {
    if a.Run2d? then 2 else 3
  }

  /** Dispatch and `RunDimension` are inverse to each other: a supported
      dimension is recovered from the run it selects, and every run is the
      one dispatch selects for its own dimension and file.
   */
  lemma DispatchRoundTrip(dim: int, inputFile: string, a: Action)
    ensures dim in SupportedDimensions ==> RunDimension(Dispatch(dim, inputFile)) == dim
    ensures a.Runs() ==> Dispatch(RunDimension(a), a.inputFile) == a
  {
  }

  /** Every dimension outside {2, 3}, including 0, 1, 4 and negative
      values, ends the process with status 1 and the same message.
   */
  lemma UnsupportedDimensionExits(dim: int, inputFile: string)
    requires dim != 2 && dim != 3
    ensures Dispatch(dim, inputFile) == Exit(1, Stdout, BadDimensionMessage)
    ensures ExitStatus(Dispatch(dim, inputFile)) == 1
  {
  }
}
