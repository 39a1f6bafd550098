/**
 The bounded command executor `call` of netutil_darwin.go, reduced to what its callers
 can observe. Spawning the process, the goroutine, the channels and the five-second
 timer are replaced by an oracle `Runner` that says how the race between the process
 and the timer ended; `Call` turns that ending into the `(output, err)` pair the Go
 function returns.
 */
module Exec {

  /** The error values the package hands back (Go's `error`, which is otherwise opaque).
      The type is shared by the whole package: `ExecError` comes from the executor,
      while `AddrFormat` is the error `EnableHTTPProxy` of module `Darwin` builds for a
      malformed address. */
  datatype Error =
    | AddrFormat                  // the address given to EnableHTTPProxy is not host:port
    | ExecError(detail: string)   // the command could not start or exited unsuccessfully
  {
    /** The text of the error, as the caller sees it printed. */
    function Message(): string {
      match this
      case AddrFormat => "Please specify addr as host:port (e.g. 127.0.0.1:8080)"
      case ExecError(detail) => detail
    }
  }

  /** A Go `error` result: `nil` or an error value. */
  datatype Status = Success | Failure(error: Error)

  /** One external command: the program's path and its positional arguments. */
  datatype Command = Command(program: string, args: seq<string>)

  /** How the race between the child process and the timer ended. */
  datatype Exit =
    | Completed(stdout: string)   // the process exited successfully first
    | Failed(detail: string)      // the process failed (or could not start) first
    | TimedOut(killFailed: bool)  // the timer fired first; the kill was attempted

  /** The environment: what running a given command would come to. */
  type Runner = Command -> Exit

  /** What `call` returns: the captured output and the error. */
  datatype CallResult = CallResult(output: string, err: Status)

  /** The `select` of `call`: a completed process yields its output, a failed one its
      error, and a timeout falls through to the final `return` with neither: empty
      output and a nil error, whether or not the kill succeeded. */
  function Call(e: Exit): (r: CallResult)
    ensures r.err.Failure? <==> e.Failed?
    ensures r.err.Failure? ==> r.output == "" && r.err.error == ExecError(e.detail)
    ensures e.Completed? ==> r.output == e.stdout
    ensures r.output != "" ==> e.Completed?
    ensures e.TimedOut? ==> r == CallResult("", Success)
  {
    match e
    case Completed(out) => CallResult(out, Success)
    case Failed(detail) => CallResult("", Failure(ExecError(detail)))
    case TimedOut(_) => CallResult("", Success)
  }

  /** A timeout is indistinguishable from a command that finished successfully without
      printing anything, and a failed kill changes nothing. */
  lemma TimeoutIsSilent(e: Exit)
    ensures e.TimedOut? ==> Call(e) == Call(Completed(""))
    ensures Call(TimedOut(true)) == Call(TimedOut(false))
  {
  }
}
