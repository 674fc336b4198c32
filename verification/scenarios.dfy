/**
 Worked batches: concrete working copies run through `sync_repositories`,
 with the exact updates and messages the engine hands back.
 */
module Scenarios {
  import opened PyText
  import opened Results
  import opened Git
  import opened RepoSync

  /** A clean checkout one commit behind, whose pull modifies README.md. */
  function Behind(): WorkingCopy
  {
    WorkingCopy(true, "abc123", "def456", "M\tREADME.md\n", map[])
  }

  function ReadmeModified(): seq<NameStatus>
  {
    [NameStatus("M", "README.md")]
  }

  lemma BehindPrintsReadme()
    ensures Behind().diffOutput == NameStatusOutput(ReadmeModified())
    ensures forall i :: 0 <= i < |ReadmeModified()| ==> PlainEntry(ReadmeModified()[i])
  {
    var es := ReadmeModified();
    assert Line(es[0]) == "M\tREADME.md";
    assert Lines(es) == [Line(es[0])];
    assert Join("\n", Lines(es)) == "M\tREADME.md";
  }

  lemma ReadmeReported()
    ensures Prefixed("A", EntryChanges(ReadmeModified())) == ["A: M: README.md"]
  {
    var es := ReadmeModified();
    assert "M" + ": " + "README.md" == "M: README.md";
    assert EntryChanges(es) == ["M: README.md"];
    var out := Prefixed("A", ["M: README.md"]);
    assert "A" + ": " + "M: README.md" == "A: M: README.md";
    assert out == ["A: M: README.md"];
  }

  /**
   One repository one commit behind: the batch succeeds with the single
   update `"A: M: README.md"`.
   */
  lemma OneModifiedFile()
    ensures SyncRepositories([Repository("A", "https://example.com/a.git", "/repos/a")], p => Behind())
      == BatchResult(SuccessStatus, ["A: M: README.md"], None)
  {
    var repo := Repository("A", "https://example.com/a.git", "/repos/a");
    BehindPrintsReadme();
    SyncReportsEntries(repo, Behind(), ReadmeModified());
    ReadmeReported();
    SingleRepositoryBatch(repo, p => Behind());
  }

  /**
   A missing path in the first repository makes the whole batch an error
   with its message; the second repository's updates are dropped.
   */
  lemma MissingPathFailsBatch()
    ensures SyncRepositories(
        [Repository("gone", "https://example.com/g.git", "/repos/gone"),
         Repository("A", "https://example.com/a.git", "/repos/a")],
        p => if p == "/repos/gone" then Behind().(pathExists := false) else Behind())
      == BatchResult(ErrorStatus, [], Some("Repository path does not exist: /repos/gone"))
  {
    var repos := [Repository("gone", "https://example.com/g.git", "/repos/gone"),
                  Repository("A", "https://example.com/a.git", "/repos/a")];
    var host := p => if p == "/repos/gone" then Behind().(pathExists := false) else Behind();
    var rs := Outcomes(repos, host);
    assert PathMissing + "/repos/gone" == "Repository path does not exist: /repos/gone";
    assert rs[0] == Raised(GitError(PathMissing + "/repos/gone"));
    assert FirstFailure(rs) == 0;
    assert rs[..0] == [];
  }

  /** The batch of `MissingPathFailsBatch`: a repository whose path is gone, then one that is behind. */
  function GoneThenBehind(): seq<Repository>
  {
    [Repository("gone", "https://example.com/g.git", "/repos/gone"),
     Repository("A", "https://example.com/a.git", "/repos/a")]
  }

  function GoneHost(): string -> WorkingCopy
  {
    p => if p == "/repos/gone" then Behind().(pathExists := false) else Behind()
  }

  lemma GoneFailsFirst()
    ensures FirstFailure(Outcomes(GoneThenBehind(), GoneHost())) == 0
  {
    assert Outcomes(GoneThenBehind(), GoneHost())[0].Raised?;
  }

  lemma SecondIsBehind()
    ensures GoneThenBehind()[1] == Repository("A", "https://example.com/a.git", "/repos/a")
    ensures GoneHost()(GoneThenBehind()[1].localPath) == Behind()
  {
  }

  /** In `MissingPathFailsBatch`, "A" is still pulled to def456 although the batch failed. */
  lemma MissingPathStillPulls()
    ensures Steps(GoneThenBehind(), GoneHost())[1].final.head == "def456"
  {
    SecondIsBehind();
    SyncPulls(GoneThenBehind()[1], Behind());
  }

  /** In `MissingPathFailsBatch`, "A"'s own sync reports `"A: M: README.md"`, which the batch drops. */
  lemma MissingPathDropsReadme()
    ensures Outcomes(GoneThenBehind(), GoneHost())[1] == Ok(["A: M: README.md"])
  {
    var repo := Repository("A", "https://example.com/a.git", "/repos/a");
    SecondIsBehind();
    BehindPrintsReadme();
    SyncReportsEntries(repo, Behind(), ReadmeModified());
    ReadmeReported();
  }

  /** "A" comes after the first failure, on its own path, with a healthy working copy. */
  lemma DroppedAfterGone()
    ensures DistinctPaths(GoneThenBehind())
    ensures FirstFailure(Outcomes(GoneThenBehind(), GoneHost())) < 1 < |GoneThenBehind()|
    ensures var w := GoneHost()(GoneThenBehind()[1].localPath);
      w.pathExists && Reset !in w.faults && RevParse !in w.faults && Fetch !in w.faults
  {
    SecondIsBehind();
    GoneFailsFirst();
  }

  /**
   The dropped update of `MissingPathFailsBatch` is lost: the next batch,
   run on the working copies this one left, reports nothing for "A".
   */
  lemma MissingPathLosesUpdate()
    ensures Outcomes(GoneThenBehind(), Settle(GoneThenBehind(), GoneHost()))[1] == Ok([])
  {
    DroppedAfterGone();
    DroppedChangesLost(GoneThenBehind(), GoneHost(), 1);
  }
}
