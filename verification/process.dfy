/** What the driver of the elasticity program ends up doing with one
    invocation: it either hands the parameter file to the 2-D or the 3-D
    solver, or it writes a diagnostic to one of the standard streams and
    terminates with a non-zero status.
 */
module Process {

  /** The two text streams the front end writes its diagnostics to. */
  datatype Stream = Stdout | Stderr

  /** The observable end of the command-line front end. */
  datatype Action =
    | Run2d(inputFile: string)
    | Run3d(inputFile: string)
    | Exit(status: int, stream: Stream, message: string)
  {
    /** True when the program goes on to set up and solve a problem. */
    predicate Runs() {
      Run2d? || Run3d?
    }
  }

  /** Status the process reports when the action completes normally. A run
      that returns from the solver ends `main` with status 0; thrown
      solver exceptions are not part of this model.
   */
  function ExitStatus(a: Action): int
  {
    match a
    case Run2d(_) => 0
    case Run3d(_) => 0
    case Exit(s, _, _) => s
  }
}
