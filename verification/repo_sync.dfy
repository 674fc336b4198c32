/**
 The repository synchronisation engine: run one git command and turn its exit
 status into output or a `GitError`; gather a working copy's changes with the
 fixed rev-parse / pull / rev-parse / diff sequence; sync one repository
 (path check, hard reset, changes, name prefix); and fold the per-repository
 outcomes, in repository order, into one batch result where the first
 exception wins.
 */
module RepoSync {
  import opened PyText
  import opened Results
  import opened Git

  /** A tracked repository as the configuration lists it. */
  datatype Repository = Repository(name: string, remoteUrl: string, localPath: string)

  /** What a run of git commands issued, what it produced, and the working copy it left. */
  datatype Step<+T> = Step(trace: seq<Command>, result: Result<T>, final: WorkingCopy)

  const ExecutionFailed := "Error executing git command: "
  const CommandFailed := "Git command failed: "

  /** The exception `execute_git_command` raises for a faulty operation. */
  function FaultError(f: Fault): Exception
  {
    match f
    case ExitFailure(_, err) => GitError(ExecutionFailed + CommandFailed + err)
    case SpawnFailure(reason) => GitError(ExecutionFailed + reason)
  }

  /**
   `execute_git_command`: exit status 0 gives the stripped stdout; a non-zero
   status or a failure to spawn gives a `GitError`. The non-zero case is
   raised inside the function's own `try` and re-wrapped by its `except`, so
   its message carries both prefixes.
   */
  function ExecuteGitCommand(p: Process): (r: Result<string>)
    ensures r.Ok? <==> p.Succeeded()
    ensures r.Ok? ==> r.value == Strip(p.stdout) && IsTrimmed(r.value)
    ensures r.Raised? ==> r.exc.GitError? && ExecutionFailed <= r.exc.message
    ensures p.Exited? && p.returncode != 0 ==> r.exc.message == ExecutionFailed + CommandFailed + p.stderr
    ensures p.SpawnFailed? ==> r.exc.message == ExecutionFailed + p.reason
  {
    match p
    case SpawnFailed(reason) => Raised(GitError(ExecutionFailed + reason))
    case Exited(code, out, err) =>
      if code != 0 then Raised(GitError(ExecutionFailed + CommandFailed + err))
      else Ok(Strip(out))
  }

  /** A faulty operation always surfaces as the same `GitError`, whatever the command. */
  lemma FaultRaises(f: Fault)
    ensures ExecuteGitCommand(FaultProcess(f)) == Raised(FaultError(f))
  {
  }

  /** Spawn `c` against `w` and read its outcome as `execute_git_command` does. */
  function GitCall(w: WorkingCopy, c: Command): (r: (Result<string>, WorkingCopy))
    ensures r.0.Ok? <==> OperationOf(c) !in w.faults
    ensures r.0.Raised? ==> r.0.exc == FaultError(w.faults[OperationOf(c)])
    ensures c == RevParseHead && r.0.Ok? ==> r.0.value == w.head
    ensures c.DiffNameStatus? && r.0.Ok? ==> r.0.value == Strip(w.diffOutput)
    ensures r.1 == if c == Pull && Fetch !in w.faults then w.(head := w.upstream) else w
  {
    var e := Run(w, c);
    if !e.process.Succeeded() then
      FaultRaises(w.faults[OperationOf(c)]);
      (ExecuteGitCommand(e.process), e.next)
    else
      StripTrailingNewline(w.head);
      StripUnique([], w.head, []);
      assert [] + w.head + [] == w.head;
      (ExecuteGitCommand(e.process), e.next)
  }

  /** One diff line as `"<first field>: <second field>"`; fewer than two fields is an `IndexError`. */
  function FormatLine(line: string): (r: Result<string>)
    ensures r.Ok? <==> |Split(line)| >= 2
    ensures r.Raised? ==> r.exc == IndexError
  {
    var fields := Split(line);
    if |fields| < 2 then Raised(IndexError) else Ok(fields[0] + ": " + fields[1])
  }

  /** The list comprehension over diff lines: one change per line, in line order, or the first line's `IndexError`. */
  function FormatLines(lines: seq<string>): (r: Result<seq<string>>)
    ensures r.Ok? <==> forall i :: 0 <= i < |lines| ==> FormatLine(lines[i]).Ok?
    ensures r.Ok? ==> |r.value| == |lines|
    ensures r.Ok? ==> forall i :: 0 <= i < |lines| ==> r.value[i] == FormatLine(lines[i]).value
    ensures r.Raised? ==> r.exc == IndexError
  {
    if lines == [] then Ok([])
    else
      match FormatLine(lines[0])
      case Raised(e) => Raised(e)
      case Ok(change) =>
        match FormatLines(lines[1..])
        case Raised(e) => Raised(e)
        case Ok(rest) => Ok([change] + rest)
  }

  /** The changes the (already stripped) output of `git diff --name-status` describes. */
  function ChangeLines(out: string): Result<seq<string>>
  {
    FormatLines(SplitLines(out))
  }

  /** A name-status entry's line formats to `"<status>: <path>"`. */
  lemma FormatEntryLine(e: NameStatus)
    requires PlainEntry(e)
    ensures FormatLine(Line(e)) == Ok(e.status + ": " + e.path)
  {
    SplitJoin("\t", [e.status, e.path]);
    assert Join("\t", [e.status, e.path]) == Line(e);
  }

  /**
   Only the first two whitespace-separated fields are kept: a rename or copy
   line (`R100`, old path, new path) is reported with its old path alone.
   */
  lemma ExtraFieldsDropped(fields: seq<string>)
    requires |fields| >= 2
    requires forall i :: 0 <= i < |fields| ==> IsToken(fields[i])
    ensures FormatLine(Join("\t", fields)) == Ok(fields[0] + ": " + fields[1])
  {
    SplitJoin("\t", fields);
  }

  /**
   The fields are split on any whitespace, not on git's tab: a path holding a
   space is cut at the space and reported as its first word.
   */
  lemma SpacedPathTruncated(status: string, first: string, rest: string)
    requires IsToken(status) && IsToken(first) && IsToken(rest)
    ensures FormatLine(status + "\t" + first + " " + rest) == Ok(status + ": " + first)
  {
    SplitSpacedLine(status, first, rest);
  }

  lemma SplitSpacedLine(status: string, first: string, rest: string)
    requires IsToken(status) && IsToken(first) && IsToken(rest)
    ensures Split(status + "\t" + first + " " + rest) == [status, first, rest]
  {
    var tabbed := "\t" + (first + (" " + rest));
    SplitTabbedWords(first, rest);
    assert tabbed[0] == '\t';
    SplitWord(status, tabbed);
    Regroup(status, "\t", first, " ", rest);
  }

  lemma SplitTabbedWords(first: string, rest: string)
    requires IsToken(first) && IsToken(rest)
    ensures Split("\t" + (first + (" " + rest))) == [first, rest]
  {
    SplitTwoWords(first, rest);
    SplitSkipsSpace("\t", first + (" " + rest));
  }

  lemma SplitTwoWords(first: string, rest: string)
    requires IsToken(first) && IsToken(rest)
    ensures Split(first + (" " + rest)) == [first, rest]
  {
    SplitSkipsSpace(" ", rest);
    SplitWord(rest, []);
    assert rest + [] == rest;
    SplitWord(first, " " + rest);
  }

  lemma Regroup(a: string, b: string, c: string, d: string, e: string)
    ensures a + b + c + d + e == a + (b + (c + (d + e)))
  {
  }

  lemma LineBreakIsSpace(s: string)
    requires NoSpace(s)
    ensures NoLineBreak(s)
  {
  }

  /** The changes a list of name-status entries should be reported as. */
  function EntryChanges(es: seq<NameStatus>): (cs: seq<string>)
    ensures |cs| == |es|
  {
    seq(|es|, i requires 0 <= i < |es| => es[i].status + ": " + es[i].path)
  }

  /** git's output, once stripped, splits back into exactly the lines git printed. */
  lemma OutputLines(es: seq<NameStatus>)
    requires forall i :: 0 <= i < |es| ==> PlainEntry(es[i])
    ensures SplitLines(Strip(NameStatusOutput(es))) == Lines(es)
  {
    if es == [] {
      StripUnique([], [], []);
      assert [] + [] + [] == NameStatusOutput(es);
    } else {
      var ls := Lines(es);
      forall i | 0 <= i < |ls|
        ensures ls[i] != [] && IsTrimmed(ls[i]) && NoLineBreak(ls[i])
      {
        EntryLineShape(es[i]);
      }
      JoinIsTrimmed("\n", ls);
      var j := Join("\n", ls);
      StripUnique([], j, "\n");
      assert [] + j + "\n" == NameStatusOutput(es);
      SplitLinesJoin(ls);
    }
  }

  lemma EntryLineShape(e: NameStatus)
    requires PlainEntry(e)
    ensures Line(e) != [] && IsTrimmed(Line(e)) && NoLineBreak(Line(e))
  {
    var l := Line(e);
    assert l[0] == e.status[0];
    assert l[|l| - 1] == e.path[|e.path| - 1];
    LineBreakIsSpace(e.status);
    LineBreakIsSpace(e.path);
    assert l == e.status + ("\t" + e.path);
  }

  lemma FormatEntryLines(es: seq<NameStatus>)
    requires forall i :: 0 <= i < |es| ==> PlainEntry(es[i])
    ensures FormatLines(Lines(es)) == Ok(EntryChanges(es))
  {
    var ls := Lines(es);
    forall i | 0 <= i < |ls|
      ensures FormatLine(ls[i]) == Ok(EntryChanges(es)[i])
    {
      FormatEntryLine(es[i]);
    }
    var r := FormatLines(ls);
    assert r.Ok?;
    assert r.value == EntryChanges(es);
  }

  /**
   Reading git's name-status output back gives one `"<status>: <path>"` per
   entry, in the order git printed them: the stripped output splits into the
   printed lines and each line into its two fields.
   */
  lemma ChangeLinesOfOutput(es: seq<NameStatus>)
    requires forall i :: 0 <= i < |es| ==> PlainEntry(es[i])
    ensures ChangeLines(Strip(NameStatusOutput(es))) == Ok(EntryChanges(es))
  {
    OutputLines(es);
    FormatEntryLines(es);
  }

  /** The commands `get_repository_changes` means to issue for `w`: the diff only when HEAD moved. */
  function ChangesPlan(w: WorkingCopy): seq<Command>
  {
    [RevParseHead, Pull] + ComparePlan(w.head, w.upstream)
  }

  /** The commands after the pull: rev-parse, then a diff only when the revision changed. */
  function ComparePlan(before: string, after: string): seq<Command>
  {
    [RevParseHead] + if before == after then [] else [DiffNameStatus(before, after)]
  }

  /** Index of the first command in `plan` whose operation is faulty, or `|plan|`. */
  function FirstFault(plan: seq<Command>, faults: map<Operation, Fault>): (k: nat)
    ensures k <= |plan|
    ensures forall i :: 0 <= i < k ==> OperationOf(plan[i]) !in faults
    ensures k < |plan| ==> OperationOf(plan[k]) in faults
  {
    if plan == [] || OperationOf(plan[0]) in faults then 0
    else 1 + FirstFault(plan[1..], faults)
  }

  function SomeChanges(r: Result<seq<string>>): Result<Option<seq<string>>>
  {
    match r
    case Ok(changes) => Ok(Some(changes))
    case Raised(e) => Raised(e)
  }

  /** What a fault-free `get_repository_changes` returns for `w`. */
  function ExpectedChanges(w: WorkingCopy): Result<Option<seq<string>>>
  {
    if w.head == w.upstream then Ok(None)
    else SomeChanges(ChangeLines(Strip(w.diffOutput)))
  }

  /** The diff between two revisions, one formatted change per output line. */
  function DiffChanges(w: WorkingCopy, before: string, after: string): (r: Step<Option<seq<string>>>)
    ensures r.trace == [DiffNameStatus(before, after)]
    ensures Diff in w.faults ==> r.result == Raised(FaultError(w.faults[Diff]))
    ensures Diff !in w.faults ==> r.result == SomeChanges(ChangeLines(Strip(w.diffOutput)))
    ensures r.final == w
  {
    var diff := DiffNameStatus(before, after);
    var out := GitCall(w, diff);
    if out.0.Raised? then Step([diff], Raised(out.0.exc), out.1)
    else Step([diff], SomeChanges(ChangeLines(out.0.value)), out.1)
  }

  /** After the pull: rev-parse HEAD again and, only when it moved away from `before`, diff. */
  function CompareRevisions(w: WorkingCopy, before: string): (r: Step<Option<seq<string>>>)
    ensures RevParse in w.faults ==> r.trace == [RevParseHead] && r.result == Raised(FaultError(w.faults[RevParse]))
    ensures RevParse !in w.faults ==> r.trace == ComparePlan(before, w.head)
    ensures RevParse !in w.faults && before == w.head ==> r.result == Ok(None)
    ensures RevParse !in w.faults && before != w.head ==> r.result == DiffChanges(w, before, w.head).result
    ensures r.final == w
  {
    var second := GitCall(w, RevParseHead);
    var after := second.0;
    if after.Raised? then Step([RevParseHead], Raised(after.exc), second.1)
    else if before == after.value then Step([RevParseHead], Ok(None), second.1)
    else
      var rest := DiffChanges(second.1, before, after.value);
      Step([RevParseHead] + rest.trace, rest.result, rest.final)
  }

  /**
   `get_repository_changes`: rev-parse HEAD, pull, rev-parse HEAD, and, only
   when the two revisions differ, diff them and format each output line.
   The first failing command ends the sequence and its exception propagates.
   */
  function GetRepositoryChanges(w: WorkingCopy): (r: Step<Option<seq<string>>>)
    ensures RevParse in w.faults ==>
      r.trace == [RevParseHead] && r.result == Raised(FaultError(w.faults[RevParse]))
    ensures RevParse !in w.faults && Fetch in w.faults ==>
      r.trace == [RevParseHead, Pull] && r.result == Raised(FaultError(w.faults[Fetch]))
    ensures RevParse !in w.faults && Fetch !in w.faults ==> r.trace == ChangesPlan(w)
    ensures RevParse !in w.faults && Fetch !in w.faults && w.head != w.upstream && Diff in w.faults ==>
      r.result == Raised(FaultError(w.faults[Diff]))
    ensures RevParse !in w.faults && Fetch !in w.faults && (w.head == w.upstream || Diff !in w.faults) ==>
      r.result == ExpectedChanges(w)
    ensures r.final == if Fetch in w.faults || RevParse in w.faults then w else w.(head := w.upstream)
  {
    var first := GitCall(w, RevParseHead);
    var before := first.0;
    if before.Raised? then Step([RevParseHead], Raised(before.exc), first.1)
    else
      var pull := GitCall(first.1, Pull);
      if pull.0.Raised? then Step([RevParseHead, Pull], Raised(pull.0.exc), pull.1)
      else
        var rest := CompareRevisions(pull.1, before.value);
        Step([RevParseHead, Pull] + rest.trace, rest.result, rest.final)
  }

  /**
   Whatever the faults, `get_repository_changes` issues a prefix of its plan
   and stops right after the first command whose operation fails, raising
   that command's `GitError`; with no fault on the way it issues the whole
   plan and returns the changes the backend holds.
   */
  lemma ChangesStopAtFirstFault(w: WorkingCopy)
    ensures var plan := ChangesPlan(w);
      var k := FirstFault(plan, w.faults);
      var r := GetRepositoryChanges(w);
      && (k < |plan| ==> r.trace == plan[..k + 1] && r.result == Raised(FaultError(w.faults[OperationOf(plan[k])])))
      && (k == |plan| ==> r.trace == plan && r.result == ExpectedChanges(w))
  {
    var plan := ChangesPlan(w);
    if RevParse in w.faults {
      assert FirstFault(plan, w.faults) == 0;
      assert plan[..1] == [RevParseHead];
    } else if Fetch in w.faults {
      assert FirstFault(plan[1..], w.faults) == 0;
      assert FirstFault(plan, w.faults) == 1;
      assert plan[..2] == [RevParseHead, Pull];
    } else {
      FaultsAfterPull(w);
    }
  }

  /** With rev-parse and pull healthy, only the diff can fail, and only when it is issued. */
  lemma FaultsAfterPull(w: WorkingCopy)
    requires RevParse !in w.faults && Fetch !in w.faults
    ensures var plan := ChangesPlan(w);
      var k := FirstFault(plan, w.faults);
      && (w.head != w.upstream && Diff in w.faults ==> k == 3 && |plan| == 4 && plan[..k + 1] == plan && OperationOf(plan[k]) == Diff)
      && (w.head == w.upstream || Diff !in w.faults ==> k == |plan|)
  {
    var plan := ChangesPlan(w);
    var tail := ComparePlan(w.head, w.upstream);
    assert plan[1..] == [Pull] + tail;
    assert plan[1..][1..] == tail;
    assert tail[1..] == plan[3..];
    assert FirstFault(plan, w.faults) == 3 + FirstFault(plan[3..], w.faults);
    if w.head != w.upstream && Diff !in w.faults {
      assert FirstFault(plan[3..][1..], w.faults) == 0;
    }
  }

  const PathMissing := "Repository path does not exist: "

  /** The commands `sync_single_repo` means to issue: the hard reset, then the changes plan. */
  function SyncPlan(w: WorkingCopy): seq<Command>
  {
    [ResetHard] + ChangesPlan(w)
  }

  /** The changes a successful `get_repository_changes` hands back, `None` read as none at all. */
  function Reported(changes: Option<seq<string>>): seq<string>
  {
    match changes
    case None => []
    case Some(cs) => cs
  }

  /** Each change prefixed with the repository name, in order. */
  function Prefixed(name: string, changes: seq<string>): (out: seq<string>)
    ensures |out| == |changes|
    ensures forall i :: 0 <= i < |changes| ==> out[i] == name + ": " + changes[i]
  {
    seq(|changes|, i requires 0 <= i < |changes| => name + ": " + changes[i])
  }

  /** A sequence that prefixes each change with the name, in order, is `Prefixed`. */
  lemma PrefixedOf(name: string, changes: seq<string>, out: seq<string>)
    requires |out| == |changes|
    requires forall i :: 0 <= i < |changes| ==> out[i] == name + ": " + changes[i]
    ensures out == Prefixed(name, changes)
  {
  }

  /**
   `sync_single_repo`: a missing local path raises before any git command;
   otherwise a hard reset, then `get_repository_changes`, and on success each
   change prefixed with the repository name (no changes gives `[]`). Any
   exception on the way is the repository's result.
   */
  function SyncSingleRepo(repo: Repository, w: WorkingCopy): (r: Step<seq<string>>)
    ensures !w.pathExists ==> r.trace == [] && r.result == Raised(GitError(PathMissing + repo.localPath))
    ensures w.pathExists && Reset in w.faults ==>
      r.trace == [ResetHard] && r.result == Raised(FaultError(w.faults[Reset]))
    ensures w.pathExists && Reset !in w.faults ==>
      var changes := GetRepositoryChanges(w);
      && r.trace == [ResetHard] + changes.trace
      && (r.result.Ok? <==> changes.result.Ok?)
      && (r.result.Raised? ==> r.result.exc == changes.result.exc)
    ensures r.result.Ok? ==>
      var changes := Reported(GetRepositoryChanges(w).result.value);
      && |r.result.value| == |changes|
      && forall i :: 0 <= i < |changes| ==> r.result.value[i] == repo.name + ": " + changes[i]
    ensures r.final == if w.pathExists && Reset !in w.faults then GetRepositoryChanges(w).final else w
  {
    if !w.pathExists then Step([], Raised(GitError(PathMissing + repo.localPath)), w)
    else
      var reset := GitCall(w, ResetHard);
      if reset.0.Raised? then Step([ResetHard], Raised(reset.0.exc), reset.1)
      else
        var changes := GetRepositoryChanges(reset.1);
        var result :=
          match changes.result
          case Raised(e) => Raised(e)
          case Ok(None) => Ok([])
          case Ok(Some(cs)) => if cs == [] then Ok([]) else Ok(Prefixed(repo.name, cs));
        Step([ResetHard] + changes.trace, result, changes.final)
  }

  /**
   For an existing path: the hard reset comes first, and the commands issued
   are a prefix of reset-then-changes-plan ending at the first failing
   command, whose `GitError` is the result; with no fault the whole plan runs
   and the sync succeeds exactly when the diff's lines are all well formed.
   */
  lemma SyncStopsAtFirstFault(repo: Repository, w: WorkingCopy)
    requires w.pathExists
    ensures var plan := SyncPlan(w);
      var k := FirstFault(plan, w.faults);
      var r := SyncSingleRepo(repo, w);
      && r.trace != [] && r.trace[0] == ResetHard
      && (k < |plan| ==> r.trace == plan[..k + 1] && r.result == Raised(FaultError(w.faults[OperationOf(plan[k])])))
      && (k == |plan| ==> r.trace == plan && (r.result.Ok? <==> ExpectedChanges(w).Ok?))
  {
    if Reset in w.faults {
      ResetFaultStopsSync(repo, w);
    } else {
      SyncAfterHealthyReset(repo, w);
    }
  }

  /** A failing reset is the only command issued, and its error is the result. */
  lemma ResetFaultStopsSync(repo: Repository, w: WorkingCopy)
    requires w.pathExists && Reset in w.faults
    ensures var plan := SyncPlan(w);
      var k := FirstFault(plan, w.faults);
      var r := SyncSingleRepo(repo, w);
      && r.trace != [] && r.trace[0] == ResetHard
      && (k < |plan| ==> r.trace == plan[..k + 1] && r.result == Raised(FaultError(w.faults[OperationOf(plan[k])])))
      && (k == |plan| ==> r.trace == plan && (r.result.Ok? <==> ExpectedChanges(w).Ok?))
  {
    var plan := SyncPlan(w);
    assert FirstFault(plan, w.faults) == 0;
    assert plan[..1] == [ResetHard];
  }

  /** After a healthy reset, the changes plan runs up to its own first faulty command. */
  lemma SyncAfterHealthyReset(repo: Repository, w: WorkingCopy)
    requires w.pathExists && Reset !in w.faults
    ensures var plan := SyncPlan(w);
      var k := FirstFault(plan, w.faults);
      var r := SyncSingleRepo(repo, w);
      && r.trace != [] && r.trace[0] == ResetHard
      && (k < |plan| ==> r.trace == plan[..k + 1] && r.result == Raised(FaultError(w.faults[OperationOf(plan[k])])))
      && (k == |plan| ==> r.trace == plan && (r.result.Ok? <==> ExpectedChanges(w).Ok?))
  {
    var plan := SyncPlan(w);
    var k := FirstFault(plan, w.faults);
    var changes := ChangesPlan(w);
    var j := FirstFault(changes, w.faults);
    assert k == 1 + j by {
      assert plan[1..] == changes;
    }
    ChangesStopAtFirstFault(w);
    if k < |plan| {
      assert plan[..k + 1] == [ResetHard] + changes[..j + 1];
    }
  }

  /**
   A successful sync reports exactly the changes the backend's diff describes,
   each prefixed with the repository name, in git's order.
   */
  lemma SyncReportsExpected(repo: Repository, w: WorkingCopy)
    ensures var r := SyncSingleRepo(repo, w);
      r.result.Ok? ==>
        && ExpectedChanges(w).Ok?
        && r.result.value == Prefixed(repo.name, Reported(ExpectedChanges(w).value))
  {
    if SyncSingleRepo(repo, w).result.Ok? {
      ChangesStopAtFirstFault(w);
      SyncPrefixesChanges(repo, w);
    }
  }

  /**
   A fault-free sync of a repository whose HEAD is behind reports every entry
   git's name-status diff prints, as `"<name>: <status>: <path>"`, in git's
   order, after issuing reset, rev-parse, pull, rev-parse and diff in that order.
   */
  lemma SyncReportsEntries(repo: Repository, w: WorkingCopy, es: seq<NameStatus>)
    requires w.pathExists && w.faults == map[]
    requires w.head != w.upstream
    requires w.diffOutput == NameStatusOutput(es)
    requires forall i :: 0 <= i < |es| ==> PlainEntry(es[i])
    ensures SyncSingleRepo(repo, w).trace ==
      [ResetHard, RevParseHead, Pull, RevParseHead, DiffNameStatus(w.head, w.upstream)]
    ensures SyncSingleRepo(repo, w).result == Ok(Prefixed(repo.name, EntryChanges(es)))
  {
    SyncIssuesWholePlan(repo, w);
    assert GetRepositoryChanges(w).result == Ok(Some(EntryChanges(es))) by {
      ChangeLinesOfOutput(es);
    }
    SyncPrefixesChanges(repo, w);
  }

  /** A successful sync's result is the reported changes, each prefixed with the repository name. */
  lemma SyncPrefixesChanges(repo: Repository, w: WorkingCopy)
    requires w.pathExists && Reset !in w.faults && GetRepositoryChanges(w).result.Ok?
    ensures SyncSingleRepo(repo, w).result == Ok(Prefixed(repo.name, Reported(GetRepositoryChanges(w).result.value)))
  {
    var r := SyncSingleRepo(repo, w);
    assert r.result.Ok?;
    PrefixedOf(repo.name, Reported(GetRepositoryChanges(w).result.value), r.result.value);
  }

  /** Without faults, a repository whose HEAD is behind sees all five commands of the plan. */
  lemma SyncIssuesWholePlan(repo: Repository, w: WorkingCopy)
    requires w.pathExists && w.faults == map[]
    requires w.head != w.upstream
    ensures SyncSingleRepo(repo, w).trace ==
      [ResetHard, RevParseHead, Pull, RevParseHead, DiffNameStatus(w.head, w.upstream)]
  {
    FaultFreeSyncRunsPlan(repo, w);
    PlanWhenBehind(w);
  }

  /** Without faults, the commands issued are exactly the plan. */
  lemma FaultFreeSyncRunsPlan(repo: Repository, w: WorkingCopy)
    requires w.pathExists && w.faults == map[]
    ensures SyncSingleRepo(repo, w).trace == SyncPlan(w)
  {
  }

  /** The plan for a repository whose HEAD is behind its upstream, spelled out. */
  lemma PlanWhenBehind(w: WorkingCopy)
    requires w.head != w.upstream
    ensures SyncPlan(w) == [ResetHard, RevParseHead, Pull, RevParseHead, DiffNameStatus(w.head, w.upstream)]
  {
  }

  /**
   A fault-free sync of a repository already at its upstream revision issues
   reset, rev-parse, pull and rev-parse, finds the two revisions equal, issues
   no diff and reports no change.
   */
  lemma SyncAtUpstream(repo: Repository, v: WorkingCopy)
    requires v.pathExists && v.head == v.upstream
    requires Reset !in v.faults && RevParse !in v.faults && Fetch !in v.faults
    ensures SyncSingleRepo(repo, v).trace == [ResetHard, RevParseHead, Pull, RevParseHead]
    ensures SyncSingleRepo(repo, v).result == Ok([])
  {
    UpstreamSyncTrace(repo, v);
    UpstreamSyncResult(repo, v);
  }

  lemma UpstreamSyncTrace(repo: Repository, v: WorkingCopy)
    requires v.pathExists && v.head == v.upstream
    requires Reset !in v.faults && RevParse !in v.faults && Fetch !in v.faults
    ensures SyncSingleRepo(repo, v).trace == [ResetHard, RevParseHead, Pull, RevParseHead]
  {
    var t := SyncSingleRepo(repo, v).trace;
    var g := GetRepositoryChanges(v).trace;
    assert t == [ResetHard] + g by {
      SyncTraceAfterReset(repo, v);
    }
    assert g == [RevParseHead, Pull, RevParseHead] by {
      ChangesAtUpstream(v);
    }
    ConsFour(ResetHard, RevParseHead, Pull, RevParseHead);
  }

  lemma UpstreamSyncResult(repo: Repository, v: WorkingCopy)
    requires v.pathExists && v.head == v.upstream
    requires Reset !in v.faults && RevParse !in v.faults && Fetch !in v.faults
    ensures SyncSingleRepo(repo, v).result == Ok([])
  {
    ChangesAtUpstream(v);
    SyncPrefixesChanges(repo, v);
    assert Prefixed(repo.name, []) == [];
  }

  lemma ConsFour<T>(a: T, b: T, c: T, d: T)
    ensures [a] + [b, c, d] == [a, b, c, d]
  {
  }


  /** Once the reset succeeds, the sync's trace is the reset followed by the changes' trace. */
  lemma SyncTraceAfterReset(repo: Repository, v: WorkingCopy)
    requires v.pathExists && Reset !in v.faults
    ensures SyncSingleRepo(repo, v).trace[0] == ResetHard
    ensures SyncSingleRepo(repo, v).trace[1..] == GetRepositoryChanges(v).trace
    ensures SyncSingleRepo(repo, v).trace == [ResetHard] + GetRepositoryChanges(v).trace
  {
    assert SyncSingleRepo(repo, v).trace == [ResetHard] + GetRepositoryChanges(v).trace;
  }

  /** At the upstream revision `get_repository_changes` issues no diff and reports `None`. */
  lemma ChangesAtUpstream(v: WorkingCopy)
    requires v.head == v.upstream
    requires RevParse !in v.faults && Fetch !in v.faults
    ensures GetRepositoryChanges(v).trace == [RevParseHead, Pull, RevParseHead]
    ensures GetRepositoryChanges(v).result == Ok(None)
  {
    assert ChangesPlan(v) == [RevParseHead, Pull, RevParseHead];
  }

  /**
   Syncing again with nothing new upstream reports no change: the first
   sync's pull left HEAD at the upstream revision, so the second finds the
   two rev-parses equal and issues no diff.
   */
  lemma SecondSyncReportsNothing(repo: Repository, w: WorkingCopy)
    requires w.pathExists
    requires Reset !in w.faults && RevParse !in w.faults && Fetch !in w.faults
    ensures var second := SyncSingleRepo(repo, SyncSingleRepo(repo, w).final);
      second.trace == [ResetHard, RevParseHead, Pull, RevParseHead] && second.result == Ok([])
  {
    var v := SyncSingleRepo(repo, w).final;
    assert v == w.(head := w.upstream);
    SyncAtUpstream(repo, v);
  }

  /** The batch status: `'success'` or `'error'`. */
  datatype Status = SuccessStatus | ErrorStatus

  /** The dictionary `sync_repositories` returns; `error` is present only with `'error'`. */
  datatype BatchResult = BatchResult(status: Status, updates: seq<string>, error: Option<string>)

  /** Index of the first result that is an exception, or `|results|`. */
  function FirstFailure<T>(results: seq<Result<T>>): (k: nat)
    ensures k <= |results|
    ensures forall i :: 0 <= i < k ==> results[i].Ok?
    ensures k < |results| ==> results[k].Raised?
  {
    if results == [] || results[0].Raised? then 0
    else 1 + FirstFailure(results[1..])
  }

  /** The successful results' updates concatenated in order; exceptions contribute nothing. */
  function Flatten(results: seq<Result<seq<string>>>): seq<string>
  {
    if results == [] then []
    else (if results[0].Ok? then results[0].value else []) + Flatten(results[1..])
  }

  lemma FlattenFirst(results: seq<Result<seq<string>>>, k: nat)
    requires 0 < k <= |results| && results[0].Ok?
    ensures Flatten(results[..k]) == results[0].value + Flatten(results[1..][..k - 1])
  {
    assert results[..k][1..] == results[1..][..k - 1];
  }

  /**
   The loop over the gathered results: extend `updates` with each result in
   turn; at the first exception set `'error'` with its message and stop.
   */
  function Collect(updates: seq<string>, results: seq<Result<seq<string>>>): (b: BatchResult)
    decreases |results|
    ensures b.status == SuccessStatus <==> forall i :: 0 <= i < |results| ==> results[i].Ok?
    ensures b.status == SuccessStatus ==> b.error == None
    ensures b.status == ErrorStatus ==> b.error == Some(results[FirstFailure(results)].exc.Str())
    ensures b.updates == updates + Flatten(results[..FirstFailure(results)])
  {
    if results == [] then BatchResult(SuccessStatus, updates, None)
    else
      match results[0]
      case Raised(e) =>
        assert results[..0] == [];
        BatchResult(ErrorStatus, updates, Some(e.Str()))
      case Ok(u) =>
        var extended := if u == [] then updates else updates + u;
        assert extended == updates + u;
        FlattenFirst(results, FirstFailure(results));
        Collect(extended, results[1..])
  }

  /** The per-repository results of one batch, in repository order (what `gather` returns). */
  function Outcomes(repos: seq<Repository>, host: string -> WorkingCopy): (rs: seq<Result<seq<string>>>)
    ensures |rs| == |repos|
    ensures forall i :: 0 <= i < |repos| ==> rs[i] == SyncSingleRepo(repos[i], host(repos[i].localPath)).result
  {
    seq(|repos|, i requires 0 <= i < |repos| => SyncSingleRepo(repos[i], host(repos[i].localPath)).result)
  }

  /**
   `sync_repositories`: every repository is synced against the state of its
   own local path, and the results are folded in repository order. The batch
   is `'success'` exactly when no repository raised; otherwise it carries the
   first failing repository's message, and only the updates of the
   repositories before it.
   */
  function SyncRepositories(repos: seq<Repository>, host: string -> WorkingCopy): (b: BatchResult)
    ensures var rs := Outcomes(repos, host);
      && (b.status == SuccessStatus <==> forall i :: 0 <= i < |rs| ==> rs[i].Ok?)
      && (b.status == SuccessStatus ==> b.error == None && b.updates == Flatten(rs))
      && (b.status == ErrorStatus ==>
            var k := FirstFailure(rs);
            && k < |rs|
            && b.error == Some(rs[k].exc.Str())
            && b.updates == Flatten(rs[..k]))
  {
    var rs := Outcomes(repos, host);
    CollectFromNothing(rs);
    Collect([], rs)
  }

  /** The fold started from no updates, for any results: `Collect` with the empty prefix dropped. */
  lemma CollectFromNothing(rs: seq<Result<seq<string>>>)
    ensures var b := Collect([], rs);
      && (b.status == SuccessStatus <==> forall i :: 0 <= i < |rs| ==> rs[i].Ok?)
      && (b.status == SuccessStatus ==> b.error == None && b.updates == Flatten(rs))
      && (b.status == ErrorStatus ==>
            var k := FirstFailure(rs);
            && k < |rs|
            && b.error == Some(rs[k].exc.Str())
            && b.updates == Flatten(rs[..k]))
  {
    var b := Collect([], rs);
    assert [] + Flatten(rs[..FirstFailure(rs)]) == b.updates;
    assert b.status == SuccessStatus ==> rs[..|rs|] == rs;
  }

  /**
   Every repository's sync in one batch, in repository order: its commands,
   its result and the working copy it leaves. `gather` with
   `return_exceptions=True` awaits them all, so a repository is reset and
   pulled whatever an earlier one raised; only the fold drops its updates.
   */
  function Steps(repos: seq<Repository>, host: string -> WorkingCopy): (steps: seq<Step<seq<string>>>)
    ensures |steps| == |repos|
    ensures forall i :: 0 <= i < |repos| ==> steps[i].result == Outcomes(repos, host)[i]
  {
    seq(|repos|, i requires 0 <= i < |repos| => SyncSingleRepo(repos[i], host(repos[i].localPath)))
  }

  /** A repository's step in a batch is its sync on its own: what runs before or after it changes nothing. */
  lemma SyncedRegardless(before: seq<Repository>, repo: Repository, after: seq<Repository>, host: string -> WorkingCopy)
    ensures Steps(before + [repo] + after, host)[|before|] == SyncSingleRepo(repo, host(repo.localPath))
  {
    assert (before + [repo] + after)[|before|] == repo;
  }

  /** With rev-parse healthy the changes start with rev-parse and pull, and a healthy pull leaves HEAD at upstream. */
  lemma ChangesPull(w: WorkingCopy)
    requires RevParse !in w.faults
    ensures var c := GetRepositoryChanges(w);
      && |c.trace| >= 2 && c.trace[..2] == [RevParseHead, Pull]
      && (Fetch !in w.faults ==> c.final == w.(head := w.upstream))
  {
    if Fetch !in w.faults {
      assert ChangesPlan(w)[..2] == [RevParseHead, Pull];
    }
  }

  lemma ThreeAfterFirst<T>(t: seq<T>, x: T, u: seq<T>, y: T, z: T)
    requires |t| >= 1 && t[0] == x && t[1..] == u
    requires |u| >= 2 && u[..2] == [y, z]
    ensures |t| >= 3 && t[..3] == [x, y, z]
  {
    assert t[1] == u[0] && t[2] == u[1];
  }

  /** With reset and rev-parse healthy a sync issues reset, rev-parse and pull, and a healthy pull leaves HEAD at upstream. */
  lemma SyncPulls(repo: Repository, w: WorkingCopy)
    requires w.pathExists && Reset !in w.faults && RevParse !in w.faults
    ensures var s := SyncSingleRepo(repo, w);
      && |s.trace| >= 3 && s.trace[..3] == [ResetHard, RevParseHead, Pull]
      && (Fetch !in w.faults ==> s.final == w.(head := w.upstream))
  {
    SyncTraceAfterReset(repo, w);
    ChangesPull(w);
    ThreeAfterFirst(SyncSingleRepo(repo, w).trace, ResetHard, GetRepositoryChanges(w).trace, RevParseHead, Pull);
  }

  /**
   A repository after the first failing one is still reset and pulled: its
   trace starts with reset, rev-parse and pull, and a healthy pull moves its
   HEAD to upstream; the batch's updates are still only those of the
   repositories before the failure.
   */
  lemma LaterRepositoryStillPulled(repos: seq<Repository>, host: string -> WorkingCopy, j: nat)
    requires FirstFailure(Outcomes(repos, host)) < j < |repos|
    requires host(repos[j].localPath).pathExists
    requires Reset !in host(repos[j].localPath).faults && RevParse !in host(repos[j].localPath).faults
    ensures var w := host(repos[j].localPath); var s := Steps(repos, host)[j];
      && |s.trace| >= 3 && s.trace[..3] == [ResetHard, RevParseHead, Pull]
      && (Fetch !in w.faults ==> s.final.head == w.upstream)
    ensures var rs := Outcomes(repos, host);
      SyncRepositories(repos, host).updates == Flatten(rs[..FirstFailure(rs)])
  {
    SyncPulls(repos[j], host(repos[j].localPath));
  }

  /** No two repositories of the batch share a local path. */
  predicate DistinctPaths(repos: seq<Repository>)
  {
    forall i, j :: 0 <= i < j < |repos| ==> repos[i].localPath != repos[j].localPath
  }

  /** `host` with `paths[i]` set to `states[i]`, later entries last. */
  function Overlay<S>(paths: seq<string>, states: seq<S>, host: string -> S): (next: string -> S)
    requires |paths| == |states|
    ensures forall p :: p !in paths ==> next(p) == host(p)
    decreases |paths|
  {
    if paths == [] then host
    else
      var n := |paths| - 1;
      var rest := Overlay(paths[..n], states[..n], host);
      p => if p == paths[n] then states[n] else rest(p)
  }

  lemma {:induction false} OverlayAt<S>(paths: seq<string>, states: seq<S>, host: string -> S, j: nat)
    requires |paths| == |states| && j < |paths|
    requires forall i, k :: 0 <= i < k < |paths| ==> paths[i] != paths[k]
    ensures Overlay(paths, states, host)(paths[j]) == states[j]
    decreases |paths|
  {
    var n := |paths| - 1;
    if j < n {
      OverlayAt(paths[..n], states[..n], host, j);
    }
  }

  /** The local paths of the repositories, in order. */
  function Paths(repos: seq<Repository>): (ps: seq<string>)
    ensures |ps| == |repos|
    ensures forall i :: 0 <= i < |repos| ==> ps[i] == repos[i].localPath
  {
    seq(|repos|, i requires 0 <= i < |repos| => repos[i].localPath)
  }

  /** The working copy each repository's sync left behind, in order. */
  function Finals(steps: seq<Step<seq<string>>>): (ws: seq<WorkingCopy>)
    ensures |ws| == |steps|
    ensures forall i :: 0 <= i < |steps| ==> ws[i] == steps[i].final
  {
    seq(|steps|, i requires 0 <= i < |steps| => steps[i].final)
  }

  /**
   The working copies after a batch: each repository's path holds what its
   sync left behind, and paths no repository names are untouched.
   */
  function Settle(repos: seq<Repository>, host: string -> WorkingCopy): (next: string -> WorkingCopy)
    ensures forall p :: (forall i :: 0 <= i < |repos| ==> repos[i].localPath != p) ==> next(p) == host(p)
  {
    var ps := Paths(repos);
    assert forall p :: (forall i :: 0 <= i < |repos| ==> repos[i].localPath != p) ==> p !in ps;
    Overlay(ps, Finals(Steps(repos, host)), host)
  }

  lemma SettleAt(repos: seq<Repository>, host: string -> WorkingCopy, j: nat)
    requires DistinctPaths(repos) && j < |repos|
    ensures Settle(repos, host)(repos[j].localPath) == Steps(repos, host)[j].final
  {
    OverlayAt(Paths(repos), Finals(Steps(repos, host)), host, j);
  }

  /**
   Updates dropped by an error batch are lost for good: a repository after
   the first failing one was still pulled to its upstream revision, so in the
   next batch, run against the working copies this one left, it reports
   nothing, although its changes never appeared in any batch's updates.
   */
  lemma DroppedChangesLost(repos: seq<Repository>, host: string -> WorkingCopy, j: nat)
    requires DistinctPaths(repos)
    requires FirstFailure(Outcomes(repos, host)) < j < |repos|
    requires host(repos[j].localPath).pathExists
    requires var f := host(repos[j].localPath).faults; Reset !in f && RevParse !in f && Fetch !in f
    ensures Outcomes(repos, Settle(repos, host))[j] == Ok([])
  {
    var w := host(repos[j].localPath);
    SettleAt(repos, host, j);
    SyncPulls(repos[j], w);
    var v := w.(head := w.upstream);
    assert Settle(repos, host)(repos[j].localPath) == v;
    SyncAtUpstream(repos[j], v);
  }

  lemma {:induction false} FirstFailureOfPrefix<T>(rs: seq<Result<T>>, more: seq<Result<T>>)
    requires FirstFailure(rs) < |rs|
    ensures FirstFailure(rs + more) == FirstFailure(rs)
  {
    if rs[0].Ok? {
      assert (rs + more)[1..] == rs[1..] + more;
      FirstFailureOfPrefix(rs[1..], more);
    }
  }

  /** Once a result is an exception, nothing after it changes the batch: first error wins. */
  lemma LaterResultsIgnored(rs: seq<Result<seq<string>>>, more: seq<Result<seq<string>>>)
    requires FirstFailure(rs) < |rs|
    ensures Collect([], rs + more) == Collect([], rs)
  {
    var k := FirstFailure(rs);
    FirstFailureOfPrefix(rs, more);
    assert (rs + more)[..k] == rs[..k];
    assert (rs + more)[k] == rs[k];
  }

  /** A batch of one repository is that repository's result. */
  lemma SingleRepositoryBatch(repo: Repository, host: string -> WorkingCopy)
    ensures var r := SyncSingleRepo(repo, host(repo.localPath)).result;
      SyncRepositories([repo], host) ==
        if r.Ok? then BatchResult(SuccessStatus, r.value, None)
        else BatchResult(ErrorStatus, [], Some(r.exc.Str()))
  {
    var rs := Outcomes([repo], host);
    assert rs == [rs[0]];
    CollectOne(rs[0]);
  }

  lemma CollectOne(r: Result<seq<string>>)
    ensures Collect([], [r]) ==
      if r.Ok? then BatchResult(SuccessStatus, r.value, None)
      else BatchResult(ErrorStatus, [], Some(r.exc.Str()))
  {
    assert [r][..0] == [];
    if r.Ok? {
      assert [r][..1] == [r];
      assert [r][1..] == [];
      assert Flatten([r]) == r.value + [];
    }
  }
}
