/**
 The service around the sync engine: the per-repository bookkeeping kept under
 `sync_status` in the configuration (`update_sync_status`), and the decision
 `main` takes after each batch about what to send to the Discord webhook.
 */
module SyncService {
  import opened Results
  import opened RepoSync
  import opened Git

  /** `sync_statistics[repo]`: how many syncs were recorded, and how they ended. */
  datatype Stats = Stats(totalSyncs: nat, successfulSyncs: nat, failedSyncs: nat)

  /** One entry of `sync_errors[repo]`: when, and the exception's text. */
  datatype ErrorRecord = ErrorRecord(time: string, error: string)

  /** The `sync_status` section of the configuration. */
  datatype SyncStatus = SyncStatus(
    lastSyncTimes: map<string, string>,
    syncErrors: map<string, seq<ErrorRecord>>,
    syncStatistics: map<string, Stats>)

  /** The configuration keys the service reads or writes; `sync_status` may be absent. */
  datatype Config = Config(
    repositories: seq<Repository>,
    discordWebhook: string,
    syncStatus: Option<SyncStatus>)

  /** The `sync_status` a configuration without one is given: three empty maps. */
  function EmptyStatus(): SyncStatus
  {
    SyncStatus(map[], map[], map[])
  }

  /** `setdefault('sync_status', …)`: the present section, or the empty one. */
  function StatusOf(cfg: Config): (s: SyncStatus)
    ensures cfg.syncStatus.Some? ==> s == cfg.syncStatus.value
    ensures cfg.syncStatus.None? ==> s.lastSyncTimes == map[] && s.syncErrors == map[] && s.syncStatistics == map[]
  {
    match cfg.syncStatus
    case Some(s) => s
    case None => EmptyStatus()
  }

  /** The error entries recorded for `repo`, none when it has no entry. */
  function ErrorsOf(s: SyncStatus, repo: string): seq<ErrorRecord>
  {
    if repo in s.syncErrors then s.syncErrors[repo] else []
  }

  /** `sync_statistics.setdefault(repo, …)`: the recorded counters, or three zeros. */
  function StatsOf(s: SyncStatus, repo: string): Stats
  {
    if repo in s.syncStatistics then s.syncStatistics[repo] else Stats(0, 0, 0)
  }

  /** Count one more sync, and one more success or failure. */
  function Count(st: Stats, failed: bool): (r: Stats)
    ensures r.totalSyncs == st.totalSyncs + 1
    ensures failed ==> r.failedSyncs == st.failedSyncs + 1 && r.successfulSyncs == st.successfulSyncs
    ensures !failed ==> r.successfulSyncs == st.successfulSyncs + 1 && r.failedSyncs == st.failedSyncs
  {
    if failed then st.(totalSyncs := st.totalSyncs + 1, failedSyncs := st.failedSyncs + 1)
    else st.(totalSyncs := st.totalSyncs + 1, successfulSyncs := st.successfulSyncs + 1)
  }

  /**
   `update_sync_status`, without the file write. `error` is the text of the
   exception passed in, if any: an exception object is always truthy, so
   any exception counts as a failure. `status` is accepted and ignored, as
   in the source. `now` stands for the ISO timestamp of the wall clock.
   */
  function UpdateSyncStatus(cfg: Config, repo: string, status: string, now: string, error: Option<string>): (c: Config)
    ensures c.repositories == cfg.repositories && c.discordWebhook == cfg.discordWebhook
    ensures c.syncStatus.Some?
    ensures var before := StatusOf(cfg); var after := c.syncStatus.value;
      && repo in after.lastSyncTimes && after.lastSyncTimes[repo] == now
      && (error.None? ==> after.syncErrors == before.syncErrors)
      && (error.Some? ==>
            && repo in after.syncErrors
            && after.syncErrors[repo] == ErrorsOf(before, repo) + [ErrorRecord(now, error.value)])
      && repo in after.syncStatistics
      && after.syncStatistics[repo].totalSyncs == StatsOf(before, repo).totalSyncs + 1
      && after.syncStatistics[repo].failedSyncs == StatsOf(before, repo).failedSyncs + (if error.Some? then 1 else 0)
      && after.syncStatistics[repo].successfulSyncs == StatsOf(before, repo).successfulSyncs + (if error.Some? then 0 else 1)
    ensures var before := StatusOf(cfg); var after := c.syncStatus.value;
      forall other :: other != repo ==>
        && (other in after.lastSyncTimes <==> other in before.lastSyncTimes)
        && (other in after.syncErrors <==> other in before.syncErrors)
        && (other in after.syncStatistics <==> other in before.syncStatistics)
        && (other in before.lastSyncTimes ==> after.lastSyncTimes[other] == before.lastSyncTimes[other])
        && (other in before.syncErrors ==> after.syncErrors[other] == before.syncErrors[other])
        && (other in before.syncStatistics ==> after.syncStatistics[other] == before.syncStatistics[other])
  {
    var s := StatusOf(cfg);
    var errors :=
      match error
      case None => s.syncErrors
      case Some(e) => s.syncErrors[repo := ErrorsOf(s, repo) + [ErrorRecord(now, e)]];
    var stats := s.syncStatistics[repo := Count(StatsOf(s, repo), error.Some?)];
    cfg.(syncStatus := Some(SyncStatus(s.lastSyncTimes[repo := now], errors, stats)))
  }

  /**
   The bookkeeping agrees with itself for every repository it knows: the
   counters add up, every failure has its error entry, and every counted
   repository has a last sync time.
   */
  predicate Ledger(s: SyncStatus)
  {
    && (forall r :: r in s.syncStatistics ==>
          && s.syncStatistics[r].totalSyncs == s.syncStatistics[r].successfulSyncs + s.syncStatistics[r].failedSyncs
          && s.syncStatistics[r].failedSyncs == |ErrorsOf(s, r)|
          && r in s.lastSyncTimes)
    && (forall r :: r in s.syncErrors ==> r in s.syncStatistics)
  }

  lemma EmptyLedger()
    ensures Ledger(EmptyStatus())
  {
  }

  /** Every update keeps the bookkeeping consistent, so a fresh configuration stays consistent forever. */
  lemma UpdateKeepsLedger(cfg: Config, repo: string, status: string, now: string, error: Option<string>)
    requires Ledger(StatusOf(cfg))
    ensures Ledger(UpdateSyncStatus(cfg, repo, status, now, error).syncStatus.value)
  {
    var before := StatusOf(cfg);
    var after := UpdateSyncStatus(cfg, repo, status, now, error).syncStatus.value;
    forall r | r in after.syncStatistics
      ensures after.syncStatistics[r].totalSyncs == after.syncStatistics[r].successfulSyncs + after.syncStatistics[r].failedSyncs
      ensures after.syncStatistics[r].failedSyncs == |ErrorsOf(after, r)|
      ensures r in after.lastSyncTimes
    {
      if r != repo {
        assert ErrorsOf(after, r) == ErrorsOf(before, r);
      } else if r !in before.syncStatistics {
        assert r !in before.syncErrors;
      }
    }
  }

  /** One sync outcome handed to the bookkeeping: which repository, when, and the error text if it failed. */
  datatype Event = Event(repo: string, time: string, error: Option<string>)

  /** The bookkeeping after a series of updates, applied in order. */
  function Record(cfg: Config, events: seq<Event>): (c: Config)
    decreases |events|
  {
    if events == [] then cfg
    else
      var e := events[|events| - 1];
      UpdateSyncStatus(Record(cfg, events[..|events| - 1]), e.repo, "", e.time, e.error)
  }

  /** How many of the events concern `repo`. */
  function Syncs(events: seq<Event>, repo: string): nat
  {
    if events == [] then 0
    else Syncs(events[..|events| - 1], repo) + (if events[|events| - 1].repo == repo then 1 else 0)
  }

  /** The error entries the events for `repo` should leave behind, oldest first. */
  function FailureLog(events: seq<Event>, repo: string): (log: seq<ErrorRecord>)
    ensures |log| <= Syncs(events, repo)
  {
    if events == [] then []
    else
      var e := events[|events| - 1];
      FailureLog(events[..|events| - 1], repo) + (if e.repo == repo && e.error.Some? then [ErrorRecord(e.time, e.error.value)] else [])
  }

  /**
   Starting from an empty `sync_status`, after any series of updates each
   repository's counters are exactly the number of its events, split into
   those without and with an error, and its error log lists its failed
   events' times and messages in order.
   */
  lemma {:induction false} RecordCounts(cfg: Config, events: seq<Event>, repo: string)
    requires StatusOf(cfg) == EmptyStatus()
    ensures var after := StatusOf(Record(cfg, events));
      && ErrorsOf(after, repo) == FailureLog(events, repo)
      && StatsOf(after, repo) == Stats(Syncs(events, repo), Syncs(events, repo) - |FailureLog(events, repo)|, |FailureLog(events, repo)|)
  {
    if events != [] {
      var prefix := events[..|events| - 1];
      RecordCounts(cfg, prefix, repo);
    }
  }

  /** The ledger holds after any series of updates from a consistent start. */
  lemma {:induction false} RecordKeepsLedger(cfg: Config, events: seq<Event>)
    requires Ledger(StatusOf(cfg))
    ensures Ledger(StatusOf(Record(cfg, events)))
  {
    if events != [] {
      var e := events[|events| - 1];
      var prefix := events[..|events| - 1];
      RecordKeepsLedger(cfg, prefix);
      UpdateKeepsLedger(Record(cfg, prefix), e.repo, "", e.time, e.error);
    }
  }

  /** The level a notification is posted with. */
  datatype Level = SuccessLevel | WarningLevel | ErrorLevel

  /** What `main` hands to the notifier: one message, or a batch of update lines. */
  datatype Notification =
    | Message(webhook: string, text: string, level: Level)   // send_notification(webhook, text, level)
    | Updates(webhook: string, updates: seq<string>)         // send_notifications(webhook, updates)

  const SyncErrorPrefix := "Sync error: "

  /** How an f-string renders `result.get('error')`: the text, or `None` when the key is absent. */
  function ErrorText(error: Option<string>): string
  {
    match error
    case Some(e) => e
    case None => "None"
  }

  /**
   The decision after one batch: an error batch gets one error message
   carrying the batch's error; otherwise a non-empty update list is sent as
   one batch of updates; otherwise nothing is sent.
   */
  function Dispatch(webhook: string, b: BatchResult): (sent: seq<Notification>)
    ensures |sent| <= 1
    ensures b.status == ErrorStatus <==> (sent != [] && sent[0].Message?)
    ensures b.status == ErrorStatus ==>
      sent == [Message(webhook, SyncErrorPrefix + ErrorText(b.error), ErrorLevel)]
    ensures b.status == SuccessStatus ==>
      (sent != [] <==> b.updates != []) && (sent != [] ==> sent[0] == Updates(webhook, b.updates))
  {
    if b.status == ErrorStatus then [Message(webhook, SyncErrorPrefix + ErrorText(b.error), ErrorLevel)]
    else if b.updates != [] then [Updates(webhook, b.updates)]
    else []
  }

  /**
   Syncing a batch and dispatching its result: if some repository raised,
   exactly one error message is posted, carrying the first failing
   repository's message, and no updates; otherwise the updates of all
   repositories are posted as one batch, or nothing when none changed.
   */
  lemma SyncThenDispatch(webhook: string, repos: seq<Repository>, host: string -> WorkingCopy)
    ensures var rs := Outcomes(repos, host);
      var sent := Dispatch(webhook, SyncRepositories(repos, host));
      var k := FirstFailure(rs);
      && (k < |rs| ==> sent == [Message(webhook, SyncErrorPrefix + rs[k].exc.Str(), ErrorLevel)])
      && (k == |rs| ==> sent == if Flatten(rs) == [] then [] else [Updates(webhook, Flatten(rs))])
  {
  }
}
