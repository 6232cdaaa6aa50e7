/**
 * The subprocess boundary. How the shell runs a command line (with its
 * ten-second timeout) is not modelled; which lines it is handed, in which
 * order, and what comes back is.
 */
module Executor {

  /** What the promise rejects with, as the catch clause tells the cases apart:
      an `Error` instance (its `message`), another object with a `stderr`
      field, or any other value. */
  datatype Thrown = ErrorInstance(message: string) | ObjectWithStderr(stderr: string) | OtherValue

  /** The outcome of one run: the captured streams of a process that
      completed, or the value the run was rejected with (spawn failure,
      timeout, non-zero exit). */
  datatype ExecOutcome = Completed(stdout: string, stderr: string) | Failed(thrown: Thrown)

  /** One run as the shell saw it: the line it was handed and what came back. */
  datatype RunRecord = RunRecord(line: string, outcome: ExecOutcome)

  /** The shell `execAsync` hands command lines to. Its `log` records every
      run in order; callers learn nothing about an outcome beyond what the
      log says, so to them the shell may answer anything. */
  class Shell {
    ghost var log: seq<RunRecord>
    const respond: string -> ExecOutcome

    constructor (respond: string -> ExecOutcome)
      ensures log == []
      ensures this.respond == respond
    {
      this.respond := respond;
      log := [];
    }

    /** Runs one command line: exactly one record is added to the log. */
    method Run(line: string) returns (outcome: ExecOutcome)
      modifies this
      ensures log == old(log) + [RunRecord(line, outcome)]
    {
      outcome := respond(line);
      log := log + [RunRecord(line, outcome)];
    }
  }
}
