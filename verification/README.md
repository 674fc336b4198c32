# github-auto-pull: the repository sync engine in Dafny

This project models the core of github-auto-pull, a service that keeps local
git checkouts in step with their remotes. Each round it does four things:

- For every configured repository (name, remote URL, local path), check that the path exists.
- Hard-reset the checkout, then run `git rev-parse HEAD`, `git pull` and `git rev-parse HEAD` again.
- When HEAD moved, run `git diff --name-status <before> <after>` and turn each output line into `"<status>: <path>"`.
- Prefix every change with the repository name and fold the per-repository outcomes into one batch result, `'success'` or `'error'`.

The service then decides what to post to its Discord webhook. It also has a
bookkeeping routine that keeps per-repository sync counters and error logs
under `sync_status` in its configuration.

The model is functional. git is replaced by an abstract working copy
(`Git.WorkingCopy`). It records whether the path exists, the revision HEAD is
at, the revision a successful pull moves HEAD to, what the name-status diff
prints, and which operations fail and how. A failure is either a non-zero exit
with a stderr text or a failure to spawn. Each git call and each
single-repository sync returns the git commands it issued (its trace), a
`Result` (a value or a raised Python exception) and the working copy it leaves
behind. `sync_repositories` itself returns only its batch dictionary, as the
code does; the per-repository traces and working copies of a batch are given
by `RepoSync.Steps`, and the working copies a batch leaves by `RepoSync.Settle`.

Python's own text functions that the engine depends on are modelled exactly
in `PyText`:

- `str.strip()`, with Python's `isspace` character set;
- `str.split()` with no separator;
- `str.splitlines()`, with Python's line-boundary set, including `\r\n`.

Modules:

- `PyText` (`pytext.dfy`): whitespace, `strip`, `split`, `splitlines`, `join`, and their round trips.
- `Results` (`results.dfy`): `Option`, the two exceptions the engine can raise (`GitError`, `IndexError`) and their `str()`, and `Result`.
- `Git` (`git.dfy`): commands, the abstract working copy, process outcomes, and name-status entries with the output git prints for them.
- `RepoSync` (`repo_sync.dfy`): `execute_git_command`, `get_repository_changes`, `sync_single_repo` and `sync_repositories`.
- `SyncService` (`sync_service.dfy`): `update_sync_status` (without the file write) and the notification decision in `main`'s loop.
- `Scenarios` (`scenarios.dfy`): two concrete batches worked through to their exact result.

### Behaviour worth knowing

- The hard reset runs before the first `rev-parse` (`app/controllers/repo_sync.py:95-96`), so the "before" revision is the reset HEAD.
- Any first whitespace-separated field of a diff line is accepted as the status, and the second field is the path (`app/controllers/repo_sync.py:64`):
  - a rename line reports only its old path;
  - a path that contains a space is cut at the space;
  - a line with fewer than two fields raises `IndexError`, which fails the repository.
- A batch is either `'success'` or `'error'`, and the first exception in repository order wins (`app/controllers/repo_sync.py:111-115`):
  - its message becomes the batch error;
  - the updates of every later repository are dropped, even successful ones;
  - those repositories were still reset and pulled, because `gather` awaits every task (`app/controllers/repo_sync.py:108-109`), so their dropped changes are never reported by a later batch either.
- There is no timeout on any git command.
- A non-zero git exit is raised inside `execute_git_command`'s own `try` and caught again by its `except Exception` (`app/controllers/repo_sync.py:38-43`). The message therefore reads `Error executing git command: Git command failed: <stderr>`.

## Model

| member | source | states |
|---|---|---|
| PyText.Strip | app/controllers/repo_sync.py:41 | the stripped text has no leading or trailing whitespace and is no longer than the input |
| PyText.StripSplits | app/controllers/repo_sync.py:41 | every text is whitespace, then its stripped form, then whitespace |
| PyText.StripUnique | app/controllers/repo_sync.py:41 | surrounding a trimmed text with whitespace on both sides strips back to exactly that text |
| PyText.StripIdempotent | app/controllers/repo_sync.py:41 | stripping twice is stripping once |
| PyText.StripTrailingNewline | app/controllers/repo_sync.py:41 | the newline git ends its output with never reaches the value `execute_git_command` returns |
| PyText.Split | app/controllers/repo_sync.py:64 | every field `split()` returns is non-empty and free of whitespace |
| PyText.SplitJoin | app/controllers/repo_sync.py:64 | fields joined by any whitespace separator split back into exactly those fields |
| PyText.SplitLinesJoin | app/controllers/repo_sync.py:64 | lines without line breaks, joined by newlines, come back from `splitlines()` unchanged and in order |
| PyText.JoinIsTrimmed | app/controllers/repo_sync.py:41 | joining trimmed non-empty lines gives a trimmed, non-empty text |
| Git.Argv | app/controllers/repo_sync.py:51-95 | every command spawns `git` with at least one argument |
| Git.ArgvInjective | app/controllers/repo_sync.py:51-95 | distinct commands spawn distinct argument vectors |
| Git.Run | app/controllers/repo_sync.py:30-36 | a command succeeds exactly when its operation is healthy; only a successful pull moves HEAD; rev-parse prints HEAD and a newline; the diff prints the configured name-status output |
| Git.FaultProcess | app/controllers/repo_sync.py:36-38 | a configured fault never looks like a successful process |
| RepoSync.ExecuteGitCommand | app/controllers/repo_sync.py:25-43 | success exactly on exit status 0, with the stripped stdout; otherwise a `GitError` whose message carries both prefixes for a non-zero exit and the outer prefix for a spawn failure |
| RepoSync.FaultRaises | app/controllers/repo_sync.py:38-43 | a faulty operation raises the same `GitError` whatever the command |
| RepoSync.GitCall | app/controllers/repo_sync.py:25-43 | a call fails exactly when its operation is faulty; rev-parse returns HEAD itself; the diff returns the stripped diff output; only a successful pull changes the working copy |
| RepoSync.FormatLine | app/controllers/repo_sync.py:64 | a line formats exactly when it has at least two fields; otherwise `IndexError` |
| RepoSync.FormatLines | app/controllers/repo_sync.py:64 | the comprehension succeeds exactly when every line formats, giving one change per line in line order; otherwise `IndexError` |
| RepoSync.FormatEntryLine | app/controllers/repo_sync.py:64 | a name-status line formats to `"<status>: <path>"` |
| RepoSync.ExtraFieldsDropped | app/controllers/repo_sync.py:64 | of three or more fields only the first two are reported, so a rename loses its new path |
| RepoSync.SpacedPathTruncated | app/controllers/repo_sync.py:64 | a path with a space is reported as its first word |
| RepoSync.OutputLines | app/controllers/repo_sync.py:60-64 | git's name-status output, once stripped, splits into exactly the lines git printed |
| RepoSync.FormatEntryLines | app/controllers/repo_sync.py:64 | the printed lines format to one change per entry, in git's order |
| RepoSync.ChangeLinesOfOutput | app/controllers/repo_sync.py:59-64 | reading git's output back gives one `"<status>: <path>"` per entry, in order |
| RepoSync.FirstFault | app/controllers/repo_sync.py:49-63 | the index of the first command whose operation is faulty: all before it are healthy |
| RepoSync.DiffChanges | app/controllers/repo_sync.py:60-64 | the diff issues one command, raises the diff fault or formats the stripped output, and leaves the working copy unchanged |
| RepoSync.CompareRevisions | app/controllers/repo_sync.py:57-65 | the second rev-parse either fails, or finds HEAD unmoved and reports `None` without a diff, or diffs the two revisions |
| RepoSync.GetRepositoryChanges | app/controllers/repo_sync.py:45-71 | per fault: the trace stops at the failing command and its `GitError` propagates; without faults the whole plan runs and the result is `None` when HEAD did not move, else the formatted diff |
| RepoSync.ChangesStopAtFirstFault | app/controllers/repo_sync.py:49-68 | the trace is the plan up to and including its first faulty command, whose error is the result; a fault-free run issues the whole plan and returns the expected changes |
| RepoSync.FaultsAfterPull | app/controllers/repo_sync.py:57-63 | with rev-parse and pull healthy, only the diff can fail, and only when HEAD moved |
| RepoSync.ChangesAtUpstream | app/controllers/repo_sync.py:57-65 | at the upstream revision no diff is issued and the result is `None` |
| RepoSync.Prefixed | app/controllers/repo_sync.py:99 | one line per change, in order, each `"<name>: <change>"` |
| RepoSync.SyncSingleRepo | app/controllers/repo_sync.py:85-104 | a missing path raises before any git command; a failing reset stops there; otherwise reset then the changes' commands, success exactly when the changes succeed, each change prefixed with the repository name |
| RepoSync.SyncTraceAfterReset | app/controllers/repo_sync.py:94-96 | after a successful reset the trace is the reset and then the changes' trace |
| RepoSync.SyncPrefixesChanges | app/controllers/repo_sync.py:98-100 | a successful sync returns the reported changes prefixed, and no changes as `[]` |
| RepoSync.SyncStopsAtFirstFault | app/controllers/repo_sync.py:91-100 | the reset comes first; the trace is reset-then-plan cut at the first faulty command, whose error is the result; without a fault the whole plan runs |
| RepoSync.ResetFaultStopsSync | app/controllers/repo_sync.py:94-95 | a failing reset is the only command issued, and its error is the result |
| RepoSync.SyncAfterHealthyReset | app/controllers/repo_sync.py:94-100 | after a healthy reset the trace is the reset and the plan cut at its first faulty command, whose error is the result; without a fault the whole plan runs |
| RepoSync.SyncReportsExpected | app/controllers/repo_sync.py:94-100 | a successful sync reports exactly the backend's changes, prefixed, in git's order |
| RepoSync.SyncIssuesWholePlan | app/controllers/repo_sync.py:94-96 | a fault-free sync of a repository that is behind issues reset, rev-parse, pull, rev-parse and diff, in that order |
| RepoSync.SyncReportsEntries | app/controllers/repo_sync.py:85-100 | a fault-free sync of a repository that is behind reports every name-status entry as `"<name>: <status>: <path>"`, in git's order |
| RepoSync.SyncAtUpstream | app/controllers/repo_sync.py:94-100 | at the upstream revision a sync issues no diff and reports `[]` |
| RepoSync.SecondSyncReportsNothing | app/controllers/repo_sync.py:54-65 | syncing again with nothing new upstream issues no diff and reports no change |
| RepoSync.FirstFailure | app/controllers/repo_sync.py:111-115 | the index of the first exception among the results: every result before it succeeded |
| RepoSync.Collect | app/controllers/repo_sync.py:106-119 | `'success'` exactly when no result is an exception; otherwise the first exception's `str()`; the updates of the results before it, in order |
| RepoSync.CollectFromNothing | app/controllers/repo_sync.py:111-117 | folding any results from no updates: `'success'` exactly when none raised, with all updates; otherwise the first exception's message and the updates before it |
| RepoSync.Outcomes | app/controllers/repo_sync.py:108-109 | one result per repository, in repository order, each that repository's sync against its own path |
| RepoSync.SyncRepositories | app/controllers/repo_sync.py:73-124 | success exactly when no repository raised, with all updates; otherwise the first failing repository's message and only the updates before it |
| RepoSync.Steps | app/controllers/repo_sync.py:108-109 | one step per repository, in order, whose result is that repository's outcome in the batch |
| RepoSync.SyncedRegardless | app/controllers/repo_sync.py:108-109 | a repository's step is its own sync, whatever repositories come before or after it |
| RepoSync.ChangesPull | app/controllers/repo_sync.py:51-54 | with rev-parse healthy the changes issue rev-parse then pull, and a healthy pull leaves HEAD at upstream |
| RepoSync.SyncPulls | app/controllers/repo_sync.py:94-96 | with reset and rev-parse healthy a sync issues reset, rev-parse and pull, and a healthy pull leaves HEAD at upstream |
| RepoSync.LaterRepositoryStillPulled | app/controllers/repo_sync.py:108-115 | a repository after the first failure is still reset and pulled to upstream, while the batch keeps only the updates before the failure |
| RepoSync.Settle | app/controllers/repo_sync.py:108-109 | after a batch, paths no repository names keep their working copy |
| RepoSync.SettleAt | app/controllers/repo_sync.py:108-109 | after a batch of distinct paths, each repository's path holds the working copy its own sync left |
| RepoSync.DroppedChangesLost | app/controllers/repo_sync.py:108-117 | a healthy repository after the first failure reports nothing in the next batch, so its dropped changes are never reported |
| RepoSync.LaterResultsIgnored | app/controllers/repo_sync.py:111-115 | once a result is an exception, results after it change nothing |
| RepoSync.SingleRepositoryBatch | app/controllers/repo_sync.py:106-119 | a batch of one repository is that repository's updates or its error |
| SyncService.StatusOf | app/sync_service.py:52-56 | a present `sync_status` is kept as is; a missing one starts as three empty maps |
| SyncService.Count | app/sync_service.py:73-77 | the total goes up by one, and exactly one of the success and failure counters does |
| SyncService.UpdateSyncStatus | app/sync_service.py:49-77 | the last sync time is the given time; with an error exactly one entry is appended, otherwise the error log is unchanged; the counters move as `Count` says; every other repository's entries are untouched |
| SyncService.UpdateKeepsLedger | app/sync_service.py:58-77 | an update keeps `total == successful + failed`, one error entry per failure and a sync time for every counted repository |
| SyncService.FailureLog | app/sync_service.py:61-65 | a repository never has more failures than syncs |
| SyncService.RecordKeepsLedger | app/sync_service.py:58-77 | from a consistent start, any series of updates stays consistent |
| SyncService.RecordCounts | app/sync_service.py:58-77 | from an empty `sync_status`, each repository's counters equal its number of syncs split into successes and failures, and its error log lists its failures in order |
| SyncService.Dispatch | app/sync_service.py:105-112 | an error batch sends exactly one error message `"Sync error: <error>"`; otherwise non-empty updates go out as one batch; otherwise nothing is sent |
| SyncService.SyncThenDispatch | app/sync_service.py:103-112 | after a sync, one error message with the first failing repository's message if any repository raised, else all updates as one batch, or nothing |
| Scenarios.OneModifiedFile | app/controllers/repo_sync.py:85-119 | a clean repository one commit behind that modifies README.md gives `'success'` with the single update `"A: M: README.md"` |
| Scenarios.MissingPathFailsBatch | app/controllers/repo_sync.py:91-115 | a missing first path fails the batch with `Repository path does not exist: <path>` and drops the second repository's updates |
| Scenarios.MissingPathStillPulls | app/controllers/repo_sync.py:91-109 | in that batch the second repository is still pulled to `def456` |
| Scenarios.MissingPathDropsReadme | app/controllers/repo_sync.py:94-100 | in that batch the second repository's own sync reports `"A: M: README.md"`, which the batch drops |
| Scenarios.MissingPathLosesUpdate | app/controllers/repo_sync.py:108-117 | the next batch, on the working copies that batch left, reports nothing for the second repository |

## Left out

- Concurrency. The `asyncio.Semaphore(3)` bound and the scheduling of `asyncio.gather` are not modelled. The gathered results are a sequence in repository order, which is what `gather` guarantees.
- Sharing between repositories. Each repository is synced against the initial state of its own path, given by a `host` function from path to working copy. Two entries with the same path, which would race on one checkout, are not modelled, and `RepoSync.SettleAt` and `RepoSync.DroppedChangesLost` assume distinct paths.
- Subprocess spawning, byte decoding, `os.path.exists` and `temporary_logging_suspension`. These are replaced by the abstract working copy. A `UnicodeDecodeError` on non-UTF-8 output is not modelled.
- The faults of a working copy are fixed per operation, so a failing rev-parse fails both times it is run.
- Only one diff output per working copy is modelled. It is the diff between HEAD and the upstream revision.
- Logging calls in `get_repository_changes`, `sync_single_repo` and `sync_repositories` are not modelled. They do not change results.
- A configured repository with a missing `name` or `local_path` key, which would raise `KeyError`, is not modelled. `Repository` always has both.
- The outer `try`/`except` of `sync_repositories` (`app/controllers/repo_sync.py:121-124`) is not modelled. Nothing in its body can raise once the results are gathered.
- The file write, the wall clock and the logged `except` of `update_sync_status` are not modelled. The timestamp is a parameter. A `sync_status` of the wrong JSON shape, which would be logged and left half-updated, is not modelled.
- SyncService.UpdateSyncStatus: the error argument is modelled as the text of the exception, present or absent. An exception object is always truthy, so the source never counts a passed exception as a success. `update_sync_status` is never called from `main`, so the bookkeeping is modelled on its own.
- The rest of `main` is not modelled: its infinite loop, `sleep`, signal handling, start and shutdown messages, `load_config` and `setup_logging`. Its `GitError` and `Exception` handlers are also left out, because the modelled `sync_repositories` never raises.
- SyncService.Dispatch: it models what is handed to the notifier, not the HTTP post. `app/controllers/notifier.py` is not part of this model. Its `send_notification` takes two arguments and it defines no `send_notifications`, so it does not match the calls in `main`.
- The database utilities, the dashboard and the auto-restart supervisor are not part of this model.
