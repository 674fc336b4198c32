/**
 An abstract, deterministic git backend for one working copy. It answers the
 four commands the sync engine issues with what a spawned `git` process would
 hand back (exit status, stdout, stderr, or a failure to spawn at all) and
 moves the working copy's HEAD when a pull succeeds. Faults are configured per
 operation, so a working copy whose rev-parse fails fails on every rev-parse.
 */
module Git {
  import opened PyText

  /** The git invocations the engine issues. */
  datatype Command =
    | ResetHard                                       // git reset --hard HEAD
    | RevParseHead                                    // git rev-parse HEAD
    | Pull                                            // git pull
    | DiffNameStatus(before: string, after: string)   // git diff --name-status <before> <after>

  /** The argument vector handed to the process spawner. */
  function Argv(c: Command): (argv: seq<string>)
    ensures |argv| >= 2 && argv[0] == "git"
  {
    match c
    case ResetHard => ["git", "reset", "--hard", "HEAD"]
    case RevParseHead => ["git", "rev-parse", "HEAD"]
    case Pull => ["git", "pull"]
    case DiffNameStatus(b, a) => ["git", "diff", "--name-status", b, a]
  }

  /** Distinct commands spawn distinct argument vectors, so a trace of commands is a trace of process spawns. */
  lemma ArgvInjective(c: Command, d: Command)
    requires Argv(c) == Argv(d)
    ensures c == d
  {
    if c.DiffNameStatus? && d.DiffNameStatus? {
      assert Argv(c)[3] == Argv(d)[3];
      assert Argv(c)[4] == Argv(d)[4];
    } else {
      assert Argv(c)[1] == Argv(d)[1];
    }
  }

  /** The backend operation a command exercises; faults are configured per operation. */
  datatype Operation = Reset | RevParse | Fetch | Diff

  function OperationOf(c: Command): Operation
  {
    match c
    case ResetHard => Reset
    case RevParseHead => RevParse
    case Pull => Fetch
    case DiffNameStatus(_, _) => Diff
  }

  type ExitCode = c: int | c != 0 witness 1

  /** How a faulty operation goes wrong: a non-zero exit with its stderr, or no process at all. */
  datatype Fault = ExitFailure(code: ExitCode, stderr: string) | SpawnFailure(reason: string)

  /** What spawning a command and waiting for it delivers. */
  datatype Process =
    | Exited(returncode: int, stdout: string, stderr: string)
    | SpawnFailed(reason: string)
  {
    predicate Succeeded() { Exited? && returncode == 0 }
  }

  /** A revision marker as `git rev-parse` prints it: opaque, no surrounding whitespace. */
  type Revision = s: string | IsTrimmed(s)

  /**
   The state of one repository's local path: whether it exists, the revision
   HEAD is at, the revision a successful pull moves HEAD to, what
   `git diff --name-status` prints between those two revisions, and which
   operations fail.
   */
  datatype WorkingCopy = WorkingCopy(
    pathExists: bool,
    head: Revision,
    upstream: Revision,
    diffOutput: string,
    faults: map<Operation, Fault>)

  /** A spawned command's outcome and the working copy it leaves behind. */
  datatype Exec = Exec(process: Process, next: WorkingCopy)

  function FaultProcess(f: Fault): (p: Process)
    ensures !p.Succeeded()
  {
    match f
    case ExitFailure(code, err) => Exited(code, "", err)
    case SpawnFailure(reason) => SpawnFailed(reason)
  }

  /** Run one command against the working copy. */
  function Run(w: WorkingCopy, c: Command): (e: Exec)
    ensures e.process.Succeeded() <==> OperationOf(c) !in w.faults
    ensures !e.process.Succeeded() ==> e.process == FaultProcess(w.faults[OperationOf(c)])
    ensures e.next == if c == Pull && Fetch !in w.faults then w.(head := w.upstream) else w
    ensures c == RevParseHead && RevParse !in w.faults ==> e.process.stdout == w.head + "\n"
    ensures c.DiffNameStatus? && Diff !in w.faults ==> e.process.stdout == w.diffOutput
  {
    var op := OperationOf(c);
    if op in w.faults then Exec(FaultProcess(w.faults[op]), w)
    else
      match c
      case ResetHard => Exec(Exited(0, "HEAD is now at " + w.head + "\n", ""), w)
      case RevParseHead => Exec(Exited(0, w.head + "\n", ""), w)
      case Pull => Exec(Exited(0, "", ""), w.(head := w.upstream))
      case DiffNameStatus(_, _) => Exec(Exited(0, w.diffOutput, ""), w)
  }

  /** One line of `git diff --name-status`: a status code and a path. */
  datatype NameStatus = NameStatus(status: string, path: string)

  /** A status code and path git prints as single whitespace-free fields. */
  predicate PlainEntry(e: NameStatus) {
    IsToken(e.status) && IsToken(e.path)
  }

  function Line(e: NameStatus): string {
    e.status + "\t" + e.path
  }

  function Lines(es: seq<NameStatus>): (ls: seq<string>)
    ensures |ls| == |es|
    ensures forall i :: 0 <= i < |es| ==> ls[i] == Line(es[i])
  {
    seq(|es|, i requires 0 <= i < |es| => Line(es[i]))
  }

  /** The stdout of `git diff --name-status`: every entry on its own newline-terminated line. */
  function NameStatusOutput(es: seq<NameStatus>): string {
    if es == [] then "" else Join("\n", Lines(es)) + "\n"
  }
}
