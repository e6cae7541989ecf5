/** The gitstore calls at their finest grain: look up the mutex, lock, clone, commit, push and unlock are separate
    steps of concurrent threads, any of which may fail, and the process may be restarted at any point. A clone of a
    branch that fails, for whatever reason, falls through to a clone of main on which the branch is created. */
module RepoLock {
  import opened Wrappers
  import opened Paths
  import opened FileTree
  import opened Dag
  import opened Repos

  datatype Job =
    | WriteJob(branch: string, artifact: string, files: seq<File>)
    | MergeJob(branch: string)
    | DeleteJob(branch: string)
    | TagJob(artifact: string, version: string)

  datatype Outcome = WroteAt(sha: Option<nat>) | MergeEnded(result: MergeResult) | Did(ok: bool)

  /** What a call met on its way: its clone of the branch failed, and what git read in a name without a branch. */
  datatype Met = Met(fallback: bool, other: Option<nat>)

  /** The call as one step. */
  function Atomic(r: Repo, job: Job, met: Met, lines: LineMerge): (Repo, Outcome) {
    match job
    case WriteJob(branch, artifact, files) =>
      var (s, sha) := GitWrite(r, branch, artifact, files, met.fallback);
      (s, WroteAt(sha))
    case MergeJob(branch) =>
      var (s, result) := GitMerge(r, branch, met.other, lines);
      (s, MergeEnded(result))
    case DeleteJob(branch) => var (s, ok) := GitDelete(r, branch); (s, Did(ok))
    case TagJob(artifact, version) => var (s, ok) := GitTag(r, artifact, version); (s, Did(ok))
  }

  /** Where a thread stands in its call. A clone is a private copy, so it is a value here. */
  datatype Thread =
    | Called(path: string, job: Job)
    | Waiting(path: string, job: Job, lock: nat)
    | Holding(path: string, job: Job, lock: nat)
    | Missing(path: string, job: Job, lock: nat)  // the clone of the branch failed; main is next
    | Cloned(path: string, job: Job, lock: nat, clone: Repo, created: bool)
    | Committed(path: string, job: Job, lock: nat, clone: Repo, met: Met, commit: Option<Commit>)
    | Leaving(path: string, job: Job, lock: nat, result: Option<Outcome>)  // None: the caller gets an error
  {
    /** Between Lock and Unlock. */
    predicate Inside() {
      !Called? && !Waiting?
    }
  }

  /** A call that took effect, or ended without one, and what it computed. */
  datatype Entry = Entry(path: string, job: Job, met: Met, outcome: Outcome)

  datatype Plane = Plane(
    repos: map<string, Repo>,
    mutexOf: map<string, nat>,   // the locks map
    made: nat,                   // mutexes made so far
    owner: map<nat, nat>,        // locked mutexes and the threads that hold them
    threads: map<nat, Thread>,
    done: seq<Entry>)            // history, never read

  datatype Step =
    | Call(t: nat, path: string, job: Job)
    | Lookup(t: nat)
    | Lock(t: nat)
    | Clone(t: nat, fails: bool)
    | Work(t: nat, other: Option<nat>)
    | Push(t: nat, reported: bool)
    | Act(t: nat)
    | Fail(t: nat)
    | Unlock(t: nat)
    | Restart

  function Goto(s: Plane, t: nat, thread: Thread): Plane {
    s.(threads := s.threads[t := thread])
  }

  /** The call of t ends here with this outcome and without touching the repository. */
  function Finish(s: Plane, t: nat, c: Thread, met: Met, outcome: Outcome): Plane
    requires c.Inside()
  {
    Goto(s, t, Leaving(c.path, c.job, c.lock, Some(outcome))).(done := s.done + [Entry(c.path, c.job, met, outcome)])
  }

  function DoCall(s: Plane, t: nat, path: string, job: Job): Plane {
    if t in s.threads || path !in s.repos || (job.WriteJob? && !WriteAllowed(job.artifact, job.files)) then s
    else Goto(s, t, Called(path, job))
  }

  /** repoLock, itself under the store's own mutex. */
  function DoLookup(s: Plane, t: nat, c: Thread): Plane
    requires c.Called?
  {
    if c.path in s.mutexOf then Goto(s, t, Waiting(c.path, c.job, s.mutexOf[c.path]))
    else Goto(s, t, Waiting(c.path, c.job, s.made)).(mutexOf := s.mutexOf[c.path := s.made], made := s.made + 1)
  }

  function DoLock(s: Plane, t: nat, c: Thread): Plane
    requires c.Waiting?
  {
    if c.lock in s.owner then s
    else Goto(s, t, Holding(c.path, c.job, c.lock)).(owner := s.owner[c.lock := t])
  }

  /** clone: the branch if the remote has it and cloning it works, else main with the branch created locally. */
  function DoClone(s: Plane, t: nat, c: Thread, fails: bool): Plane
    requires (c.Holding? || c.Missing?) && c.path in s.repos
  {
    var remote := s.repos[c.path];
    match c.job
    case WriteJob(branch, _, _) =>
      if c.Missing? then Goto(s, t, Cloned(c.path, c.job, c.lock, remote, true))
      else if branch in remote.heads && !fails then Goto(s, t, Cloned(c.path, c.job, c.lock, remote, false))
      else Goto(s, t, Missing(c.path, c.job, c.lock))
    case MergeJob(_) => Goto(s, t, Cloned(c.path, c.job, c.lock, remote, false))
    case _ => s
  }

  datatype LocalWork = Ended(outcome: Outcome) | Made(commit: Option<Commit>) | NoWork

  /** The commit or the merge inside the clone; a merge that is up to date makes no commit. */
  function WorkInClone(clone: Repo, met: Met, job: Job, lines: LineMerge): LocalWork {
    match job
    case WriteJob(branch, artifact, files) =>
      var tip := if met.fallback then clone.heads[MAIN] else CloneTip(clone, branch, false);
      (match PlaceAll(clone.commits[tip].tree, artifact, files)
       case None => Ended(WroteAt(None))
       case Some(tree) => Made(Some(Child(tip, tree))))
    case MergeJob(branch) =>
      (match PlanMerge(clone, branch, met.other, lines)
       case NoBranch => Ended(MergeEnded(MergeFailed))
       case Blocked(paths) => Ended(MergeEnded(Conflicted(paths)))
       case UpToDate => Made(None)
       case Create(commit) => Made(Some(commit)))
    case _ => NoWork
  }

  function DoWork(s: Plane, t: nat, c: Thread, other: Option<nat>, lines: LineMerge): Plane
    requires c.Cloned?
  {
    var met := Met(c.created, other);
    match WorkInClone(c.clone, met, c.job, lines)
    case Ended(outcome) => Finish(s, t, c, met, outcome)
    case Made(commit) => Goto(s, t, Committed(c.path, c.job, c.lock, c.clone, met, commit))
    case NoWork => s
  }

  /** A plain push of HEAD to a branch: the remote refuses it unless the branch is new or moves forward. */
  function PushRef(remote: Repo, clone: Repo, branch: string, commit: Option<Commit>): Option<Repo> {
    match commit
    case Some(c) =>
      if !c.Below(|remote.commits|) then None
      else
        var commits, sha := remote.commits + [c], |remote.commits|;
        if branch in remote.heads && remote.heads[branch] !in Anc(commits, sha) then None
        else Some(Repo(commits, remote.heads[branch := sha], remote.tags))
    case None =>
      var sha := clone.heads[MAIN];
      if sha >= |remote.commits| then None
      else if branch in remote.heads && remote.heads[branch] !in Anc(remote.commits, sha) then None
      else Some(Repo(remote.commits, remote.heads[branch := sha], remote.tags))
  }

  function Target(job: Job): string {
    if job.WriteJob? then job.branch else MAIN
  }

  /** What the call reports: the sha of HEAD in the clone. */
  function LocalOutcome(c: Thread): Outcome
    requires c.Committed?
  {
    var sha := if c.commit.Some? then |c.clone.commits| else c.clone.heads[MAIN];
    if c.job.WriteJob? then WroteAt(Some(sha)) else MergeEnded(MergedAt(sha))
  }

  /** A push may land although the caller gets an error, for example when its context ends first. */
  function DoPush(s: Plane, t: nat, c: Thread, reported: bool): Plane
    requires c.Committed? && c.path in s.repos
  {
    match PushRef(s.repos[c.path], c.clone, Target(c.job), c.commit)
    case None => Goto(s, t, Leaving(c.path, c.job, c.lock, None))
    case Some(repo) =>
      var outcome := LocalOutcome(c);
      Goto(s, t, Leaving(c.path, c.job, c.lock, if reported then Some(outcome) else None))
        .(repos := s.repos[c.path := repo], done := s.done + [Entry(c.path, c.job, c.met, outcome)])
  }

  /** DeleteBranch and Tag run one git command on the bare repository. */
  function DoAct(s: Plane, t: nat, c: Thread, lines: LineMerge): Plane
    requires c.Holding? && c.path in s.repos
  {
    if !c.job.DeleteJob? && !c.job.TagJob? then s
    else
      var met := Met(false, None);
      var (repo, outcome) := Atomic(s.repos[c.path], c.job, met, lines);
      Finish(s, t, c, met, outcome).(repos := s.repos[c.path := repo])
  }

  function DoUnlock(s: Plane, t: nat, c: Thread): Plane
    requires c.Leaving?
  {
    s.(threads := s.threads - {t}, owner := s.owner - {c.lock})
  }

  function Next(s: Plane, step: Step, lines: LineMerge): Plane {
    if step.Restart? then s.(mutexOf := map[], owner := map[], threads := map[])
    else if step.Call? then DoCall(s, step.t, step.path, step.job)
    else if step.t !in s.threads || s.threads[step.t].path !in s.repos then s
    else
      var c := s.threads[step.t];
      match step
      case Lookup(t) => if c.Called? then DoLookup(s, t, c) else s
      case Lock(t) => if c.Waiting? then DoLock(s, t, c) else s
      case Clone(t, fails) => if c.Holding? || c.Missing? then DoClone(s, t, c, fails) else s
      case Work(t, other) => if c.Cloned? then DoWork(s, t, c, other, lines) else s
      case Push(t, reported) => if c.Committed? then DoPush(s, t, c, reported) else s
      case Act(t) => if c.Holding? then DoAct(s, t, c, lines) else s
      case Fail(t) => if c.Inside() && !c.Leaving? then Goto(s, t, Leaving(c.path, c.job, c.lock, None)) else s
      case Unlock(t) => if c.Leaving? then DoUnlock(s, t, c) else s
  }

  // The invariant

  ghost predicate LocksOk(s: Plane) {
    && (forall p :: p in s.mutexOf ==> s.mutexOf[p] < s.made)
    && (forall p, q :: p in s.mutexOf && q in s.mutexOf && p != q ==> s.mutexOf[p] != s.mutexOf[q])
  }

  /** What a thread knows where it stands. */
  ghost predicate Knows(s: Plane, t: nat, lines: LineMerge)
    requires t in s.threads
  {
    var c := s.threads[t];
    && c.path in s.repos
    && (c.job.WriteJob? ==> WriteAllowed(c.job.artifact, c.job.files))
    && (!c.Called? ==> c.path in s.mutexOf && s.mutexOf[c.path] == c.lock)
    && (c.Inside() ==> c.lock in s.owner && s.owner[c.lock] == t)
    && Local(s.repos[c.path], s.done, c, lines)
  }

  /** A thread inside sees the repository as it is: its clone is current. */
  ghost predicate Local(r: Repo, done: seq<Entry>, c: Thread, lines: LineMerge) {
    match c
    case Missing(_, job, _) => job.WriteJob?
    case Cloned(_, job, _, clone, created) =>
      clone == r && (job.MergeJob? || (job.WriteJob? && (job.branch !in r.heads ==> created)))
    case Committed(_, _, _, clone, _, _) => clone == r && Planned(c, lines)
    case Leaving(path, job, _, Some(outcome)) => exists met :: Entry(path, job, met, outcome) in done
    case _ => true
  }

  /** The local commit is the one the atomic call would push. */
  ghost predicate Planned(c: Thread, lines: LineMerge)
    requires c.Committed?
  {
    match c.job
    case WriteJob(branch, artifact, files) =>
      c.commit.Some? && WriteCommit(c.clone, branch, artifact, files, c.met.fallback) == c.commit
    case MergeJob(branch) =>
      PlanMerge(c.clone, branch, c.met.other, lines) == (if c.commit.Some? then Create(c.commit.value) else UpToDate)
    case _ => false
  }

  ghost predicate Inv(s: Plane, lines: LineMerge) {
    LocksOk(s) && forall t :: t in s.threads ==> Knows(s, t, lines)
  }

  /** Two threads inside calls on the same repository are the same thread. */
  lemma MutualExclusion(s: Plane, lines: LineMerge, t: nat, u: nat)
    requires Inv(s, lines) && t in s.threads && u in s.threads
    requires s.threads[t].Inside() && s.threads[u].Inside() && s.threads[t].path == s.threads[u].path
    ensures t == u
  {
    assert Knows(s, t, lines) && Knows(s, u, lines);
  }

  /** The thread's push is one that the remote refuses: its clone of the branch failed, the branch is there all the
      same, and main does not have it. */
  predicate Refused(c: Thread)
    requires c.Committed?
  {
    && c.job.WriteJob? && c.met.fallback
    && c.job.branch in c.clone.heads && c.clone.heads[c.job.branch] !in Trunk(c.clone)
  }

  /** A push that starts from the current remote lands exactly the atomic call, or is refused, which leaves the atomic
      call without effect too. */
  lemma PushIsAtomic(c: Thread, lines: LineMerge)
    requires c.Committed? && Planned(c, lines)
    requires c.job.WriteJob? ==> WriteAllowed(c.job.artifact, c.job.files)
    ensures var (repo, outcome) := Atomic(c.clone, c.job, c.met, lines);
            var pushed := PushRef(c.clone, c.clone, Target(c.job), c.commit);
            if Refused(c) then pushed == None && repo == c.clone && outcome == WroteAt(None)
            else pushed == Some(repo) && LocalOutcome(c) == outcome
  {
    hide WriteAllowed, PlaceAll, ConflictPaths, MergedTree, LookUp;
    var r := c.clone;
    if c.commit.Some? {
      var commits := r.commits + [c.commit.value];
      assert r.commits <= commits;
      match c.job
      case WriteJob(branch, _, _) =>
        var tip := CloneTip(r, branch, c.met.fallback);
        AncGrows(r.commits, commits, tip);
        assert Anc(commits, |r.commits|) == {|r.commits|} + Anc(r.commits, tip);
      case MergeJob(branch) => AncGrows(r.commits, commits, r.heads[MAIN]);
    } else {
      assert r.heads[MAIN := r.heads[MAIN]] == r.heads;
    }
  }

  /** For the repositories, one atomic call of the thread that stepped, or nothing. */
  ghost predicate StutterOrCall(s: Plane, n: Plane, t: nat, lines: LineMerge) {
    || (n.repos == s.repos && n.done == s.done)
    || (|n.done| == |s.done| + 1 && n.done[..|s.done|] == s.done &&
        var e := n.done[|s.done|];
        t in s.threads && e.path == s.threads[t].path && e.job == s.threads[t].job && e.path in s.repos &&
        n.repos == s.repos[e.path := Atomic(s.repos[e.path], e.job, e.met, lines).0] &&
        e.outcome == Atomic(s.repos[e.path], e.job, e.met, lines).1)
  }

  /** A thread inside may move on and change its own repository: the others have no clone of it. */
  lemma MoveInside(s: Plane, n: Plane, t: nat, lines: LineMerge)
    requires Inv(s, lines) && t in s.threads && s.threads[t].Inside()
    requires n.mutexOf == s.mutexOf && n.made == s.made && n.owner == s.owner && s.done <= n.done
    requires t in n.threads && n.threads == s.threads[t := n.threads[t]]
    requires var c, d := s.threads[t], n.threads[t];
             && d.Inside() && d.path == c.path && d.job == c.job && d.lock == c.lock
             && c.path in n.repos && n.repos == s.repos[c.path := n.repos[c.path]]
             && Local(n.repos[c.path], n.done, d, lines)
    ensures Inv(n, lines)
  {
    hide Planned, WriteAllowed;
    assert Knows(s, t, lines);
    forall u | u in n.threads ensures Knows(n, u, lines) {
      if u != t {
        assert Knows(s, u, lines);
        if s.threads[u].Inside() && s.threads[u].path == s.threads[t].path {
          MutualExclusion(s, lines, t, u);
        }
      }
    }
  }

  lemma PushKeeps(s: Plane, t: nat, reported: bool, lines: LineMerge)
    requires Inv(s, lines) && t in s.threads && s.threads[t].Committed? && s.threads[t].path in s.repos
    ensures var n := DoPush(s, t, s.threads[t], reported); Inv(n, lines) && StutterOrCall(s, n, t, lines)
  {
    hide Planned, WriteAllowed, PushRef, LocalOutcome, Atomic, Inv;
    assert Knows(s, t, lines) by { InvGives(s, t, lines); }
    PushIsAtomic(s.threads[t], lines);
    assert s.repos[s.threads[t].path := s.repos[s.threads[t].path]] == s.repos;
    assert reported ==> Entry(s.threads[t].path, s.threads[t].job, s.threads[t].met, LocalOutcome(s.threads[t])) in
                        s.done + [Entry(s.threads[t].path, s.threads[t].job, s.threads[t].met,
                            LocalOutcome(s.threads[t]))];
    MoveInside(s, DoPush(s, t, s.threads[t], reported), t, lines);
  }

  lemma InvGives(s: Plane, t: nat, lines: LineMerge)
    requires Inv(s, lines) && t in s.threads
    ensures Knows(s, t, lines)
  {
  }

  lemma WorkIsPlanned(c: Thread, other: Option<nat>, lines: LineMerge)
    requires c.Cloned? && Local(c.clone, [], c, lines) &&
             (c.job.WriteJob? ==> WriteAllowed(c.job.artifact, c.job.files))
    ensures var met := Met(c.created, other);
            match WorkInClone(c.clone, met, c.job, lines)
            case Ended(outcome) => Atomic(c.clone, c.job, met, lines) == (c.clone, outcome)
            case Made(commit) => Planned(Committed(c.path, c.job, c.lock, c.clone, met, commit), lines)
            case NoWork => false
  {
    hide WriteAllowed, PlaceAll, ConflictPaths, MergedTree, LookUp, Forward;
  }

  lemma WorkKeeps(s: Plane, t: nat, other: Option<nat>, lines: LineMerge)
    requires Inv(s, lines) && t in s.threads && s.threads[t].Cloned? && s.threads[t].path in s.repos
    ensures var n := DoWork(s, t, s.threads[t], other, lines); Inv(n, lines) && StutterOrCall(s, n, t, lines)
  {
    hide WriteAllowed, Inv, WorkInClone, Atomic, Planned;
    var c := s.threads[t];
    assert Knows(s, t, lines) by { InvGives(s, t, lines); }
    WorkIsPlanned(c, other, lines);
    assert s.repos[c.path := s.repos[c.path]] == s.repos;
    var n := DoWork(s, t, c, other, lines);
    if n.threads[t].Leaving? {
      assert n.done[|s.done|] == Entry(c.path, c.job, Met(c.created, other), n.threads[t].result.value);
    }
    MoveInside(s, n, t, lines);
  }

  lemma ActKeeps(s: Plane, t: nat, lines: LineMerge)
    requires Inv(s, lines) && t in s.threads && s.threads[t].Holding? && s.threads[t].path in s.repos
    ensures var n := DoAct(s, t, s.threads[t], lines); Inv(n, lines) && StutterOrCall(s, n, t, lines)
  {
    hide WriteAllowed, Atomic, Planned, Inv;
    var c := s.threads[t];
    if c.job.DeleteJob? || c.job.TagJob? {
      var n := DoAct(s, t, c, lines);
      assert n.done[|s.done|] == Entry(c.path, c.job, Met(false, None), n.threads[t].result.value);
      MoveInside(s, DoAct(s, t, c, lines), t, lines);
    }
  }

  lemma CloneKeeps(s: Plane, t: nat, fails: bool, lines: LineMerge)
    requires Inv(s, lines) && t in s.threads && (s.threads[t].Holding? || s.threads[t].Missing?) &&
        s.threads[t].path in s.repos
    ensures Inv(DoClone(s, t, s.threads[t], fails), lines)
  {
    hide WriteAllowed, Planned, Inv;
    var c, n := s.threads[t], DoClone(s, t, s.threads[t], fails);
    assert Knows(s, t, lines) by { InvGives(s, t, lines); }
    assert s.repos[c.path := s.repos[c.path]] == s.repos;
    if n != s {
      MoveInside(s, n, t, lines);
    }
  }

  lemma CallKeeps(s: Plane, t: nat, path: string, job: Job, lines: LineMerge)
    requires Inv(s, lines)
    ensures Inv(DoCall(s, t, path, job), lines)
  {
    hide WriteAllowed, Planned, Local;
    var n := DoCall(s, t, path, job);
    forall u | u in n.threads ensures Knows(n, u, lines) {
      LocalHolds(n, u, lines);
    }
  }

  /** A new mutex is a new one: no other path and no thread has it. */
  lemma LookupKeeps(s: Plane, t: nat, lines: LineMerge)
    requires Inv(s, lines) && t in s.threads && s.threads[t].Called?
    ensures Inv(DoLookup(s, t, s.threads[t]), lines)
  {
    hide WriteAllowed, Planned, Local, Knows;
    var n := DoLookup(s, t, s.threads[t]);
    assert n.threads.Keys == s.threads.Keys;
    forall u | u in n.threads ensures Knows(n, u, lines) {
      LookupKnows(s, t, u, lines);
    }
  }

  lemma LookupKnows(s: Plane, t: nat, u: nat, lines: LineMerge)
    requires Inv(s, lines) && t in s.threads && s.threads[t].Called? && u in s.threads
    ensures Knows(DoLookup(s, t, s.threads[t]), u, lines)
  {
    hide WriteAllowed, Planned, Local;
    assert Knows(s, t, lines) && Knows(s, u, lines);
    LocalHolds(DoLookup(s, t, s.threads[t]), u, lines);
  }

  lemma LockKeeps(s: Plane, t: nat, lines: LineMerge)
    requires Inv(s, lines) && t in s.threads && s.threads[t].Waiting?
    ensures Inv(DoLock(s, t, s.threads[t]), lines)
  {
    hide WriteAllowed, Planned, Local;
    var n := DoLock(s, t, s.threads[t]);
    assert Knows(s, t, lines);
    forall u | u in n.threads ensures Knows(n, u, lines) {
      assert Knows(s, u, lines);
      LocalHolds(n, u, lines);
    }
  }

  lemma UnlockKeeps(s: Plane, t: nat, lines: LineMerge)
    requires Inv(s, lines) && t in s.threads && s.threads[t].Leaving?
    ensures Inv(DoUnlock(s, t, s.threads[t]), lines)
  {
    hide WriteAllowed, Planned, Local;
    var n := DoUnlock(s, t, s.threads[t]);
    assert Knows(s, t, lines);
    forall u | u in n.threads ensures Knows(n, u, lines) {
      assert Knows(s, u, lines);
    }
  }

  /** Waiting for a mutex, or holding it and nothing more, is no claim about the repository. */
  lemma LocalHolds(n: Plane, u: nat, lines: LineMerge)
    requires u in n.threads && n.threads[u].path in n.repos
    ensures var c := n.threads[u]; c.Called? || c.Waiting? || c.Holding? ==> Local(n.repos[c.path], n.done, c, lines)
  {
  }

  /** Every fine step keeps the invariant and is, for the repositories, one atomic call or nothing. */
  lemma StepRefines(s: Plane, step: Step, lines: LineMerge)
    requires Inv(s, lines)
    ensures var n := Next(s, step, lines);
            Inv(n, lines) && StutterOrCall(s, n, if step.Restart? then 0 else step.t, lines)
  {
    hide Inv, DoPush, DoWork, DoAct, DoClone, DoCall, DoLock, DoLookup, DoUnlock;
    if step.Restart? {
      RestartKeeps(s, lines);
    } else if step.Call? {
      CallKeeps(s, step.t, step.path, step.job, lines);
      LockingIsQuiet(s, step, lines);
    } else if step.t in s.threads && s.threads[step.t].path in s.repos {
      var c := s.threads[step.t];
      match step
      case Lookup(t) => LockingIsQuiet(s, step, lines); if c.Called? { LookupKeeps(s, t, lines); }
      case Lock(t) => LockingIsQuiet(s, step, lines); if c.Waiting? { LockKeeps(s, t, lines); }
      case Unlock(t) => LockingIsQuiet(s, step, lines); if c.Leaving? { UnlockKeeps(s, t, lines); }
      case Push(t, reported) => if c.Committed? { PushKeeps(s, t, reported, lines); }
      case Work(t, other) => if c.Cloned? { WorkKeeps(s, t, other, lines); }
      case Act(t) => if c.Holding? { ActKeeps(s, t, lines); }
      case Clone(t, fails) => if c.Holding? || c.Missing? { CloneKeeps(s, t, fails, lines); CloneIsQuiet(s, t, fails); }
      case Fail(t) => if c.Inside() && !c.Leaving? { FailKeeps(s, t, lines); }
    }
  }

  lemma RestartKeeps(s: Plane, lines: LineMerge)
    requires Inv(s, lines)
    ensures Inv(Next(s, Restart, lines), lines)
  {
  }

  lemma FailKeeps(s: Plane, t: nat, lines: LineMerge)
    requires Inv(s, lines) && t in s.threads && s.threads[t].path in s.repos && s.threads[t].Inside() &&
        !s.threads[t].Leaving?
    ensures Inv(Next(s, Fail(t), lines), lines)
  {
    hide WriteAllowed, Planned, Inv;
    var c := s.threads[t];
    assert s.repos[c.path := s.repos[c.path]] == s.repos;
    MoveInside(s, Next(s, Fail(t), lines), t, lines);
  }

  lemma CloneIsQuiet(s: Plane, t: nat, fails: bool)
    requires t in s.threads && (s.threads[t].Holding? || s.threads[t].Missing?) && s.threads[t].path in s.repos
    ensures var n := DoClone(s, t, s.threads[t], fails); n.repos == s.repos && n.done == s.done
  {
  }

  lemma LockingIsQuiet(s: Plane, step: Step, lines: LineMerge)
    requires step.Call? || step.Lookup? || step.Lock? || step.Unlock?
    ensures var n := Next(s, step, lines); n.repos == s.repos && n.done == s.done
  {
  }

  // Runs

  /** A run of threads from a set of repositories with no call in progress. */
  datatype Run = Run(states: seq<Plane>, steps: seq<Step>, lines: LineMerge) {
    ghost predicate Valid() {
      && |states| == |steps| + 1
      && (var s := states[0]; s.mutexOf == map[] && s.owner == map[] && s.threads == map[] && s.done == [])
      && forall k :: 0 <= k < |steps| ==> states[k + 1] == Next(states[k], steps[k], lines)
    }
  }

  /** The calls one after another. */
  function Replay(repos: map<string, Repo>, calls: seq<Entry>, lines: LineMerge): map<string, Repo> {
    if calls == [] then repos
    else
      var before, e := Replay(repos, calls[..|calls| - 1], lines), calls[|calls| - 1];
      if e.path in before then before[e.path := Atomic(before[e.path], e.job, e.met, lines).0] else before
  }

  /** Each call computed what it computes when the calls run one after another. */
  ghost predicate Explained(repos: map<string, Repo>, calls: seq<Entry>, lines: LineMerge) {
    forall i :: 0 <= i < |calls| ==> Explains(Replay(repos, calls[..i], lines), calls[i], lines)
  }

  ghost predicate Explains(before: map<string, Repo>, e: Entry, lines: LineMerge) {
    e.path in before && e.outcome == Atomic(before[e.path], e.job, e.met, lines).1
  }

  lemma {:induction false} RunKeepsInv(run: Run, k: nat)
    requires run.Valid() && k < |run.states|
    ensures Inv(run.states[k], run.lines)
  {
    hide Next;
    if k > 0 {
      RunKeepsInv(run, k - 1);
      StepRefines(run.states[k - 1], run.steps[k - 1], run.lines);
    }
  }

  lemma EmptyReplay(repos: map<string, Repo>, lines: LineMerge)
    ensures Replay(repos, [], lines) == repos && Explained(repos, [], lines)
  {
  }

  lemma ReplayMore(repos: map<string, Repo>, calls: seq<Entry>, e: Entry, lines: LineMerge)
    requires Explains(Replay(repos, calls, lines), e, lines)
    ensures var before := Replay(repos, calls, lines);
            Replay(repos, calls + [e], lines) == before[e.path := Atomic(before[e.path], e.job, e.met, lines).0]
  {
    hide Atomic;
    assert (calls + [e])[..|calls|] == calls;
  }

  lemma ExplainedMore(repos: map<string, Repo>, calls: seq<Entry>, e: Entry, lines: LineMerge)
    requires Explained(repos, calls, lines) && Explains(Replay(repos, calls, lines), e, lines)
    ensures Explained(repos, calls + [e], lines)
  {
    hide Atomic, Replay, Explains;
    var more := calls + [e];
    assert more[..|calls|] == calls;
    forall i | 0 <= i < |more| ensures Explains(Replay(repos, more[..i], lines), more[i], lines) {
      if i < |calls| {
        assert more[..i] == calls[..i];
      }
    }
  }

  /** Whatever the interleaving, failures and restarts, the repositories are what the completed calls give one
      after another, in the order they took effect, and so are the outcomes. */
  lemma {:induction false} Linearizable(run: Run, k: nat)
    requires run.Valid() && k < |run.states|
    ensures run.states[k].repos == Replay(run.states[0].repos, run.states[k].done, run.lines)
    ensures Explained(run.states[0].repos, run.states[k].done, run.lines)
  {
    hide Next, Inv, Atomic, Replay, Explained;
    if k == 0 {
      EmptyReplay(run.states[0].repos, run.lines);
    } else {
      var s, n := run.states[k - 1], run.states[k];
      Linearizable(run, k - 1);
      RunKeepsInv(run, k - 1);
      StepRefines(s, run.steps[k - 1], run.lines);
      if n.done != s.done {
        var e := n.done[|s.done|];
        assert n.done == s.done + [e];
        ReplayMore(run.states[0].repos, s.done, e, run.lines);
        ExplainedMore(run.states[0].repos, s.done, e, run.lines);
      }
    }
  }

  /** A call that returned a result returned the one it has in that order. */
  lemma ResultsAreExplained(run: Run, k: nat, t: nat)
    requires run.Valid() && k < |run.states| && t in run.states[k].threads
    requires var c := run.states[k].threads[t]; c.Leaving? && c.result.Some?
    ensures var c := run.states[k].threads[t];
            exists met :: Entry(c.path, c.job, met, c.result.value) in run.states[k].done
  {
    RunKeepsInv(run, k);
    InvGives(run.states[k], t, run.lines);
  }

  /** At most one thread is between Lock and Unlock of a repository. */
  lemma OneInside(run: Run, k: nat, t: nat, u: nat)
    requires run.Valid() && k < |run.states|
    requires var threads := run.states[k].threads;
             t in threads && u in threads && threads[t].Inside() && threads[u].Inside() &&
                 threads[t].path == threads[u].path
    ensures t == u
  {
    RunKeepsInv(run, k);
    MutualExclusion(run.states[k], run.lines, t, u);
  }

  /** When a thread is about to push, its clone is the remote, and the push is refused if and only if the clone of its
      branch had failed although the branch is there and main does not have it; otherwise it is a fast-forward that
      lands the atomic call. */
  lemma PushRefusedExactly(run: Run, k: nat, t: nat)
    requires run.Valid() && k < |run.states| && t in run.states[k].threads && run.states[k].threads[t].Committed?
    ensures var s, c := run.states[k], run.states[k].threads[t];
            && c.path in s.repos && c.clone == s.repos[c.path]
            && var pushed := PushRef(s.repos[c.path], c.clone, Target(c.job), c.commit);
               && (pushed.None? <==> Refused(c))
               && (pushed.Some? ==> pushed.value == Atomic(s.repos[c.path], c.job, c.met, run.lines).0)
  {
    hide PushRef, Atomic, Planned, WriteAllowed, Refused;
    RunKeepsInv(run, k);
    InvGives(run.states[k], t, run.lines);
    PushIsAtomic(run.states[k].threads[t], run.lines);
  }

  /** The branch moved forward, or stayed; it may also have been deleted, if that was the call. */
  ghost predicate KeptOrDeleted(r: Repo, s: Repo, job: Job, b: string)
    requires b in r.heads
  {
    if b in s.heads then Anc(r.commits, r.heads[b]) <= Anc(s.commits, s.heads[b]) else job == DeleteJob(b)
  }

  lemma AtomicKeeps(r: Repo, job: Job, met: Met, lines: LineMerge)
    requires TreesGrow(r.commits)
    ensures var s := Atomic(r, job, met, lines).0;
            r.commits <= s.commits && forall b :: b in r.heads ==> KeptOrDeleted(r, s, job, b)
  {
    hide GitWrite, PlanMerge, RefNameOk, TreesGrow;
    var s := Atomic(r, job, met, lines).0;
    match job
    case WriteJob(branch, artifact, files) => WriteDropsNothing(r, branch, artifact, files, met.fallback);
    case MergeJob(branch) =>
      MergeExtends(r, branch, met.other, lines);
      forall b | b in r.heads ensures KeptOrDeleted(r, s, job, b) {
        AncGrows(r.commits, s.commits, r.heads[b]);
        if b == MAIN {
          AncTransitive(s.commits, s.heads[MAIN], r.heads[MAIN]);
        }
      }
    case _ =>
  }

  /** What a plain push protects: no step of any thread takes a commit out of the history of a branch, except by
      deleting the branch. */
  lemma NothingDrops(run: Run, k: nat, path: string, b: string)
    requires run.Valid() && CallsFit(run) && k < |run.steps|
    requires path in run.states[0].repos && Sound(run.states[0].repos[path])
    requires path in run.states[k].repos && b in run.states[k].repos[path].heads
    ensures path in run.states[k + 1].repos
    ensures var r, s := run.states[k].repos[path], run.states[k + 1].repos[path];
            if b in s.heads then Anc(r.commits, r.heads[b]) <= Anc(s.commits, s.heads[b])
            else run.steps[k].Act? && run.steps[k].t in run.states[k].threads &&
                 run.states[k].threads[run.steps[k].t].job == DeleteJob(b)
  {
    hide Next, Inv, Sound, Extends, CallsFit;
    EveryRepositoryIsSound(run, k, path);
    SoundTreesGrow(run.states[k].repos[path]);
    RunKeepsInv(run, k);
    StepKeepsOrDeletes(run.states[k], run.steps[k], path, b, run.lines);
  }

  lemma StepKeepsOrDeletes(s: Plane, step: Step, path: string, b: string, lines: LineMerge)
    requires Inv(s, lines) && path in s.repos && b in s.repos[path].heads && TreesGrow(s.repos[path].commits)
    ensures path in Next(s, step, lines).repos
    ensures var r, t := s.repos[path], Next(s, step, lines).repos[path];
            if b in t.heads then Anc(r.commits, r.heads[b]) <= Anc(t.commits, t.heads[b])
            else step.Act? && step.t in s.threads && s.threads[step.t].job == DeleteJob(b)
  {
    hide Next, Inv, Atomic, TreesGrow, RepoData.WellFormed, IsHistory, Anc;
    var n := Next(s, step, lines);
    RestartIsQuiet(s, lines);
    StepRefines(s, step, lines);
    if n.repos[path] != s.repos[path] {
      var e := n.done[|s.done|];
      AtomicKeeps(s.repos[path], e.job, e.met, lines);
      assert KeptOrDeleted(s.repos[path], n.repos[path], e.job, b);
      if b !in n.repos[path].heads {
        OnlyActDeletes(s, step, lines);
      }
    }
  }

  lemma RestartIsQuiet(s: Plane, lines: LineMerge)
    ensures Next(s, Restart, lines).repos == s.repos
  {
  }

  lemma SoundTreesGrow(r: Repo)
    requires Sound(r)
    ensures TreesGrow(r.commits)
  {
  }

  /** A delete takes effect in an Act step. */
  lemma OnlyActDeletes(s: Plane, step: Step, lines: LineMerge)
    requires Inv(s, lines) && !step.Restart? && step.t in s.threads && s.threads[step.t].job.DeleteJob?
    ensures Next(s, step, lines).repos != s.repos ==> step.Act?
  {
    hide WriteAllowed, Atomic, PushRef, LocalOutcome, LookUp, PlanMerge;
    assert Knows(s, step.t, lines);
  }

  // What this gives the machine of atomic steps

  /** Writes go to main or to a proposal branch of their artifact, as WriteArtifact sees to. */
  ghost predicate JobFits(job: Job) {
    job.WriteJob? ==> WriteTarget(job.branch, job.artifact)
  }

  ghost predicate ThreadsFit(s: Plane) {
    forall t :: t in s.threads ==> JobFits(s.threads[t].job)
  }

  ghost predicate CallsFit(run: Run) {
    forall k :: 0 <= k < |run.steps| && run.steps[k].Call? ==> JobFits(run.steps[k].job)
  }

  lemma StepFits(s: Plane, step: Step, lines: LineMerge)
    requires ThreadsFit(s) && (step.Call? ==> JobFits(step.job))
    ensures ThreadsFit(Next(s, step, lines))
  {
    hide JobFits, WriteAllowed, ThreadsFit, DoClone, DoWork, DoPush, DoAct, DoCall, DoLookup, DoLock, DoUnlock;
    if step.Restart? || step.Call? || step.Lookup? || step.Lock? || step.Unlock? || step.Fail? {
      OuterFits(s, step, lines);
    } else if step.t in s.threads && s.threads[step.t].path in s.repos {
      var c := s.threads[step.t];
      match step
      case Clone(t, fails) =>
        if c.Holding? || c.Missing? { CloneMoves(s, t, c, fails); SameJobs(s, DoClone(s, t, c, fails), t); }
      case Work(t, other) =>
        if c.Cloned? { WorkMoves(s, t, c, other, lines); SameJobs(s, DoWork(s, t, c, other, lines), t); }
      case Push(t, reported) =>
        if c.Committed? { PushMoves(s, t, c, reported); SameJobs(s, DoPush(s, t, c, reported), t); }
      case Act(t) =>
        if c.Holding? { ActMoves(s, t, c, lines); SameJobs(s, DoAct(s, t, c, lines), t); }
    }
  }

  lemma OuterFits(s: Plane, step: Step, lines: LineMerge)
    requires ThreadsFit(s) && (step.Call? ==> JobFits(step.job))
    requires step.Restart? || step.Call? || step.Lookup? || step.Lock? || step.Unlock? || step.Fail?
    ensures ThreadsFit(Next(s, step, lines))
  {
    hide JobFits, WriteAllowed;
  }

  /** Thread t moved on within its call, or nothing moved. */
  ghost predicate Moves(s: Plane, n: Plane, t: nat) {
    t in s.threads && t in n.threads && n.threads == s.threads[t := n.threads[t]] &&
        n.threads[t].job == s.threads[t].job
  }

  lemma SameJobs(s: Plane, n: Plane, t: nat)
    requires ThreadsFit(s) && Moves(s, n, t)
    ensures ThreadsFit(n)
  {
    hide JobFits;
  }

  lemma CloneMoves(s: Plane, t: nat, c: Thread, fails: bool)
    requires t in s.threads && s.threads[t] == c && (c.Holding? || c.Missing?) && c.path in s.repos
    ensures Moves(s, DoClone(s, t, c, fails), t)
  {
  }

  lemma WorkMoves(s: Plane, t: nat, c: Thread, other: Option<nat>, lines: LineMerge)
    requires t in s.threads && s.threads[t] == c && c.Cloned?
    ensures Moves(s, DoWork(s, t, c, other, lines), t)
  {
    hide WorkInClone;
  }

  lemma PushMoves(s: Plane, t: nat, c: Thread, reported: bool)
    requires t in s.threads && s.threads[t] == c && c.Committed? && c.path in s.repos
    ensures Moves(s, DoPush(s, t, c, reported), t)
  {
    hide PushRef, LocalOutcome;
  }

  lemma ActMoves(s: Plane, t: nat, c: Thread, lines: LineMerge)
    requires t in s.threads && s.threads[t] == c && c.Holding? && c.path in s.repos
    ensures Moves(s, DoAct(s, t, c, lines), t)
  {
    hide Atomic;
  }

  lemma {:induction false} RunFits(run: Run, k: nat)
    requires run.Valid() && CallsFit(run) && k < |run.states|
    ensures ThreadsFit(run.states[k])
  {
    hide Next, JobFits;
    if k > 0 {
      RunFits(run, k - 1);
      StepFits(run.states[k - 1], run.steps[k - 1], run.lines);
    }
  }

  lemma AtomicKeepsSound(r: Repo, job: Job, met: Met, lines: LineMerge)
    requires Sound(r) && JobFits(job)
    ensures var s := Atomic(r, job, met, lines).0; Sound(s) && Extends(r, s)
  {
    hide Sound, Extends, GitWrite, GitMerge, GitDelete, GitTag;
    match job
    case WriteJob(branch, artifact, files) => WriteKeepsSound(r, branch, artifact, files, met.fallback);
    case MergeJob(branch) => MergeKeepsSound(r, branch, met.other, lines);
    case DeleteJob(branch) => DeleteKeepsSound(r, branch);
    case TagJob(artifact, version) => TagKeepsSound(r, artifact, version);
  }

  lemma ExtendsItself(r: Repo)
    ensures Extends(r, r)
  {
  }

  /** In every reachable state of the threads every repository is sound, as the machine of atomic steps requires of its
      one, and extends what it was at the start. */
  lemma {:induction false} EveryRepositoryIsSound(run: Run, k: nat, path: string)
    requires run.Valid() && CallsFit(run) && k < |run.states|
    requires path in run.states[0].repos && Sound(run.states[0].repos[path])
    ensures path in run.states[k].repos
    ensures Sound(run.states[k].repos[path]) && Extends(run.states[0].repos[path], run.states[k].repos[path])
  {
    hide Next, Inv, Atomic, Sound, Extends, JobFits;
    if k == 0 {
      ExtendsItself(run.states[0].repos[path]);
    } else {
      var s, n, step := run.states[k - 1], run.states[k], run.steps[k - 1];
      EveryRepositoryIsSound(run, k - 1, path);
      RunKeepsInv(run, k - 1);
      RunFits(run, k - 1);
      StepRefines(s, step, run.lines);
      if n.repos[path] != s.repos[path] {
        AtomicKeepsSound(s.repos[path], n.done[|s.done|].job, n.done[|s.done|].met, run.lines);
        ExtendsTransitive(run.states[0].repos[path], s.repos[path], n.repos[path]);
      }
    }
  }
}
