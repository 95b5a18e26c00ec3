/** The status of a translation branch as the view tests pin it down: the
    newest commits of origin/<branch>, each linked to the next older one,
    cut to a window of NUM_COMMITS, with the newest as the last commit.

    A commit's link to the next older commit is the index of that commit
    in the list of fetched commits, which the status keeps alongside the
    visible window (the extra, oldest fetched commit is reachable only
    through such a link). */
module BranchStatus {
  import opened Common

  /** How many commits the status shows. */
  const NumCommits: nat := 3

  /** A commit as the repository returns it; the time is an abstract
      timestamp. */
  datatype Commit = Commit(hexsha: string, message: string, committer: string, committedDatetime: int)

  /** A commit as the status shows it. */
  datatype MassagedCommit = MassagedCommit(
    hexsha: string,
    message: string,
    committer: string,
    committedDatetime: int,
    shorthash: string,
    previous: Option<nat>       // index of the next older fetched commit
  )

  datatype TranslationBranch = TranslationBranch(branchName: string)

  /** The repository: local branch names, the names under origin, and the
      commits reachable from each ref, newest first.  The status reads only
      the commits: whichever branch names exist, the helper asks for the
      commits of origin/<branch>. */
  datatype Repository = Repository(
    branches: set<string>,
    originRefs: set<string>,
    history: map<string, seq<Commit>>
  )

  /** The arguments of one iter_commits call. */
  datatype Query = Query(ref: string, maxCount: nat)

  datatype Status = Status(
    branch: TranslationBranch,
    commits: seq<MassagedCommit>,
    fetched: seq<MassagedCommit>,
    lastCommit: Option<MassagedCommit>,
    officialGitBranch: string
  )

  /** hexsha[:7] */
  function ShortHash(hexsha: string): (r: string)
    ensures |r| == if |hexsha| < 7 then |hexsha| else 7
    ensures r == hexsha[..|r|]
  {
    if |hexsha| < 7 then hexsha else hexsha[..7]
  }

  function Massage(c: Commit): (m: MassagedCommit)
    ensures m.hexsha == c.hexsha && m.message == c.message
    ensures m.committer == c.committer && m.committedDatetime == c.committedDatetime
    ensures m.shorthash <= c.hexsha && |m.shorthash| == if |c.hexsha| < 7 then |c.hexsha| else 7
    ensures m.previous == None
  {
    MassagedCommit(c.hexsha, c.message, c.committer, c.committedDatetime, ShortHash(c.hexsha), None)
  }

  /** The helper always asks origin for one commit more than it shows. */
  function QueryFor(branch: TranslationBranch): Query {
    Query("origin/" + branch.branchName, NumCommits + 1)
  }

  /** iter_commits(ref, max_count): the newest commits of the ref; a ref
      the repository does not know yields nothing. */
  function IterCommits(repo: Repository, q: Query): (r: seq<Commit>)
    ensures |r| <= q.maxCount
    ensures q.ref !in repo.history ==> r == []
    ensures q.ref in repo.history ==> r <= repo.history[q.ref]
    ensures q.ref in repo.history && |repo.history[q.ref]| >= q.maxCount ==> |r| == q.maxCount
    ensures q.ref in repo.history && |repo.history[q.ref]| < q.maxCount ==> r == repo.history[q.ref]
  {
    if q.ref !in repo.history then []
    else
      var h := repo.history[q.ref];
      if |h| <= q.maxCount then h else h[..q.maxCount]
  }

  /** The massaged commits with every commit but the oldest linked to the
      next one. */
  function Threaded(raw: seq<Commit>): (threaded: seq<MassagedCommit>)
    ensures |threaded| == |raw|
    ensures forall i | 0 <= i < |raw| ::
              && threaded[i].hexsha == raw[i].hexsha
              && threaded[i].previous == (if i + 1 < |raw| then Some(i + 1) else None)
    ensures forall i | 0 <= i < |raw| ::
              && threaded[i].message == raw[i].message
              && threaded[i].committer == raw[i].committer
              && threaded[i].committedDatetime == raw[i].committedDatetime
              && threaded[i].shorthash <= raw[i].hexsha
              && |threaded[i].shorthash| == (if |raw[i].hexsha| < 7 then |raw[i].hexsha| else 7)
  {
    seq(|raw|, i requires 0 <= i < |raw| =>
      Massage(raw[i]).(previous := if i + 1 < |raw| then Some(i + 1) else None))
  }

  /** branch_status_helper as the tests state it. */
  function StatusOf(repo: Repository, branch: TranslationBranch, settings: Settings): (s: Status)
    ensures s.commits <= s.fetched
    ensures |s.fetched| <= NumCommits + 1
    ensures |s.commits| == if |s.fetched| < NumCommits then |s.fetched| else NumCommits
    ensures s.lastCommit == if s.commits == [] then None else Some(s.commits[0])
  {
    var fetched := Threaded(IterCommits(repo, QueryFor(branch)));
    var commits := if |fetched| > NumCommits then fetched[..NumCommits] else fetched;
    Status(branch, commits, fetched, if |commits| == 0 then None else Some(commits[0]), settings.officialGitBranch)
  }

  /** The loop that links each fetched commit to the next one. */
  method ThreadCommits(raw: seq<Commit>) returns (threaded: seq<MassagedCommit>)
    ensures threaded == Threaded(raw)
  {
    threaded := seq(|raw|, i requires 0 <= i < |raw| => Massage(raw[i]));
    var i := 0;
    while i < |threaded|
      invariant 0 <= i <= |threaded| == |raw|
      invariant forall k | 0 <= k < |raw| :: threaded[k] == if k < i then Threaded(raw)[k] else Massage(raw[k])
    {
      if i + 1 < |threaded| {
        threaded := threaded[i := threaded[i].(previous := Some(i + 1))];
      }
      i := i + 1;
    }
  }

  /** Query the repository, thread the commits and cut the window. */
  method BranchStatusHelper(repo: Repository, branch: TranslationBranch, settings: Settings)
    returns (status: Status, query: Query)
    ensures query == Query("origin/" + branch.branchName, 4)
    ensures status == StatusOf(repo, branch, settings)
  {
    query := QueryFor(branch);
    var raw := IterCommits(repo, query);
    var fetched := ThreadCommits(raw);
    var commits := fetched;
    if |fetched| > NumCommits {
      commits := fetched[..NumCommits];
    }
    var last := None;
    if |commits| > 0 {
      last := Some(commits[0]);
    }
    status := Status(branch, commits, fetched, last, settings.officialGitBranch);
  }

  /** Each fetched commit, the visible ones and the extra one reached through
      previous alike, copies the fields of the repository's commit at the
      same position, with its hash shortened to seven characters. */
  lemma CommitsCopyRepository(repo: Repository, branch: TranslationBranch, settings: Settings)
    ensures var s := StatusOf(repo, branch, settings);
            var raw := IterCommits(repo, QueryFor(branch));
            && |s.fetched| == |raw|
            && forall i | 0 <= i < |s.fetched| ::
              && s.fetched[i].hexsha == raw[i].hexsha
              && s.fetched[i].message == raw[i].message
              && s.fetched[i].committer == raw[i].committer
              && s.fetched[i].committedDatetime == raw[i].committedDatetime
              && s.fetched[i].shorthash == raw[i].hexsha[..|s.fetched[i].shorthash|]
              && |s.fetched[i].shorthash| == (if |raw[i].hexsha| < 7 then |raw[i].hexsha| else 7)
    ensures var s := StatusOf(repo, branch, settings);
            var raw := IterCommits(repo, QueryFor(branch));
            forall i | 0 <= i < |s.commits| ::
              && i < |raw|
              && s.commits[i].hexsha == raw[i].hexsha
              && s.commits[i].message == raw[i].message
              && s.commits[i].committer == raw[i].committer
              && s.commits[i].committedDatetime == raw[i].committedDatetime
              && s.commits[i].shorthash == raw[i].hexsha[..|s.commits[i].shorthash|]
              && |s.commits[i].shorthash| == (if |raw[i].hexsha| < 7 then |raw[i].hexsha| else 7)
  {
  }

  /** The window holds NUM_COMMITS commits, or all of them when the branch
      has fewer, out of the NUM_COMMITS + 1 fetched. */
  lemma WindowSize(repo: Repository, branch: TranslationBranch, settings: Settings)
    ensures var s := StatusOf(repo, branch, settings);
            var ref := "origin/" + branch.branchName;
            var available := if ref in repo.history then |repo.history[ref]| else 0;
            && |s.fetched| == (if available < NumCommits + 1 then available else NumCommits + 1)
            && |s.commits| == (if available < NumCommits then available else NumCommits)
            && s.commits <= s.fetched
  {
  }

  /** Every fetched commit except the oldest links to the next fetched
      commit, so following the links always moves to an older commit and
      never loops. */
  lemma PreviousLinks(repo: Repository, branch: TranslationBranch, settings: Settings)
    ensures var s := StatusOf(repo, branch, settings);
            var raw := IterCommits(repo, QueryFor(branch));
            && (forall i | 0 <= i < |s.fetched| ::
                  s.fetched[i].previous == (if i + 1 < |s.fetched| then Some(i + 1) else None))
            && (forall j | 0 <= j < |s.fetched| :: j < |raw| && s.fetched[j].hexsha == raw[j].hexsha)
  {
  }

  /** When the branch has more than NUM_COMMITS commits, the oldest visible
      one still links to an older commit. */
  lemma LastVisibleHasPrevious(repo: Repository, branch: TranslationBranch, settings: Settings)
    requires var ref := "origin/" + branch.branchName;
             ref in repo.history && |repo.history[ref]| > NumCommits
    ensures var s := StatusOf(repo, branch, settings);
            |s.commits| == NumCommits && s.commits[NumCommits - 1].previous == Some(NumCommits)
  {
  }

  /** The last commit is the newest visible commit, and absent exactly when
      there is none. */
  lemma LastCommitIsNewest(repo: Repository, branch: TranslationBranch, settings: Settings)
    ensures var s := StatusOf(repo, branch, settings);
            && (s.lastCommit.None? <==> |s.commits| == 0)
            && (s.lastCommit.Some? ==> s.lastCommit.value == s.commits[0])
            && s.branch == branch && s.officialGitBranch == settings.officialGitBranch
  {
  }

  /** Whether the branch exists locally, only upstream or nowhere does not
      change the status: only the commits of origin/<branch> count, and a
      ref without commits gives an empty window and no last commit. */
  lemma StatusIgnoresBranchNames(repo: Repository, other: Repository, branch: TranslationBranch, settings: Settings)
    requires repo.history == other.history
    ensures StatusOf(repo, branch, settings) == StatusOf(other, branch, settings)
    ensures var ref := "origin/" + branch.branchName;
            (ref !in repo.history || repo.history[ref] == []) ==>
              StatusOf(repo, branch, settings).commits == [] &&
              StatusOf(repo, branch, settings).lastCommit == None
  {
  }

  /** The test with four copies of one commit: three visible commits, each
      linked to the next, the hash shortened to "0123456". */
  lemma FourCopiesOfOneCommit(repo: Repository, branch: TranslationBranch, settings: Settings, c: Commit)
    requires c.hexsha == "0123456789abcdef"
    requires "origin/" + branch.branchName in repo.history
    requires repo.history["origin/" + branch.branchName] == [c, c, c, c]
    ensures var s := StatusOf(repo, branch, settings);
            && |s.commits| == 3 && |s.fetched| == 4
            && s.commits[0].previous == Some(1) && s.commits[1].previous == Some(2)
            && s.commits[2].previous == Some(3) && s.fetched[3].previous == None
            && (forall i | 0 <= i < 3 :: s.commits[i].shorthash == "0123456" && s.commits[i].hexsha == c.hexsha)
            && s.lastCommit == Some(s.commits[0])
  {
  }
}
