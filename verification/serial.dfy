/** Theorems about serial runs: the steps of different calls on the project do not interleave, but a call
    may be cut off after any of its steps. */
module SerialRuns {
  import opened Wrappers
  import opened Paths
  import opened FileTree
  import opened Repos
  import opened Semver
  import opened Authz
  import opened Tables
  import opened Service
  import opened Invariants
  import opened Interleaving

  /** The one call in progress has number 0; everything else waits until it ended or died. */
  ghost predicate SerialStep(s: Sys, step: Step) {
    match step
    case OpenMerge(call, _, _) => call == 0
    case RunMerge(call, _) => call == 0
    case Resolve(call, _) => call == 0
    case Drop(call) => call == 0
    case OpenRelease(call, _, _, _, _) => call == 0
    case RunTag(call) => call == 0
    case Record(call, _) => call == 0
    case Crash(call) => call == 0
    case _ => s.calls == map[]
  }

  ghost predicate Serial(run: Run)
    requires run.Valid()
  {
    forall k :: 0 <= k < |run.steps| ==> SerialStep(run.states[k], run.steps[k])
  }

  // What serial runs keep

  /** Releases of one artifact go strictly up in the order of their tags. */
  ghost predicate Increasing(tagged: Tagged) {
    forall i, j :: 0 <= i < j < |tagged| && tagged[i].0 == tagged[j].0 ==> Less(tagged[i].1, tagged[j].1)
  }

  /** v is above every release of artifact. */
  ghost predicate Above(tagged: Tagged, artifact: string, v: Version) {
    forall i :: 0 <= i < |tagged| && tagged[i].0 == artifact ==> Less(tagged[i].1, v)
  }

  /** If this is a branch, main has its tip. */
  ghost predicate Settled(name: string, s: Sys) {
    name in s.repo.heads ==> name !in s.log.pending
  }

  /** What the call in progress relies on. */
  ghost predicate CallFresh(c: Call, s: Sys) {
    match c
    case ToResolve(id, row, result, tip) => !result.Conflicted? ==> Settled(row.branch, s)
    case ToDrop(row) => Settled(row.branch, s)
    case ToTag(artifact, next) => Above(s.log.tagged, artifact, next)
    case _ => true
  }

  ghost predicate SerialOk(s: Sys) {
    && (forall c :: c in s.calls ==> c == 0)
    && (0 in s.calls ==> CallFresh(s.calls[0], s))
    && Increasing(s.log.tagged)
  }

  lemma AboveListing(r: Repo, tagged: Tagged, artifact: string, kind: Kind, listing: seq<string>)
    requires TagsOk(r.tags, tagged) && |tagged| < MAX_INT && Lists(listing, VersionTexts(r, artifact))
    ensures Above(tagged, artifact, Next(listing, kind))
  {
    hide TagsOk, Lists, Less;
    NextOfRun(r, tagged, artifact, kind, listing);
    forall i | 0 <= i < |tagged| && tagged[i].0 == artifact ensures Less(tagged[i].1, Next(listing, kind)) {
      assert (artifact, tagged[i].1) in tagged;
    }
  }

  lemma IncreasingAppend(tagged: Tagged, artifact: string, v: Version)
    requires Increasing(tagged) && Above(tagged, artifact, v)
    ensures Increasing(tagged + [(artifact, v)])
  {
    hide Less;
  }

  lemma OpenReleaseSerial(s: Sys, actor: Actor, artifact: string, kind: string, listing: seq<string>)
    requires Inv(s) && SerialOk(s) && |s.log.tagged| < MAX_INT
    ensures SerialOk(DoOpenRelease(s, 0, actor, artifact, kind, listing))
  {
    hide TagsOk, Lists, Less, Sound, RowsOk, TakenOk, ReleasesOk, CallsOk, OneWinner, PendingOk, Can, EffectiveRole;
    hide Above;
    if Lists(listing, VersionTexts(s.repo, artifact)) && KindOf(kind).Some? {
      AboveListing(s.repo, s.log.tagged, artifact, KindOf(kind).value, listing);
    }
  }

  lemma RunTagSerial(s: Sys)
    requires SerialOk(s)
    ensures SerialOk(DoRunTag(s, 0))
  {
    hide Increasing, Above, GitTag, String;
    if 0 in s.calls && s.calls[0].ToTag? {
      IncreasingAppend(s.log.tagged, s.calls[0].artifact, s.calls[0].next);
    }
  }

  /** A clean merge settles the branch of its row. */
  lemma MergeSettles(r: Repo, row: Proposal, other: Option<nat>, lines: LineMerge, pending: set<string>)
    requires RowOk(row) && LookUp(r, row.branch, other).Some?
    ensures row.branch in GitMerge(r, row.branch, other, lines).0.heads ==>
              row.branch !in pending - Included(r, LookUp(r, row.branch, other).value)
  {
    hide PlanMerge;
    RowBranch(row);
  }

  lemma RunMergeSerial(s: Sys, other: Option<nat>, lines: LineMerge)
    requires Inv(s) && SerialOk(s)
    ensures SerialOk(DoRunMerge(s, 0, other, lines))
  {
    hide Inv, Increasing, GitMerge, LookUp, Included, RowOk;
    if 0 in s.calls && s.calls[0].ToMerge? {
      MergerHasRow(s);
      MergeNames(s.repo, s.calls[0].row.branch, other, lines);
      if LookUp(s.repo, s.calls[0].row.branch, other).Some? {
        MergeSettles(s.repo, s.calls[0].row, other, lines, s.log.pending);
      }
    }
  }

  lemma MergerHasRow(s: Sys)
    requires Inv(s) && 0 in s.calls && s.calls[0].ToMerge?
    ensures Sound(s.repo) && RowOk(s.calls[0].row)
  {
    assert CallOk(s.calls[0], s.repo, s.db.releases, |s.log.tagged|);
  }

  lemma StepSerial(s: Sys, step: Step, lines: LineMerge)
    requires Inv(s) && SerialOk(s) && SerialStep(s, step) && |s.log.tagged| < MAX_INT
    ensures SerialOk(Apply(s, step, lines))
  {
    hide Inv, Increasing, Above, GitWrite, GitMerge, LookUp, GitDelete, GitTag, Lists, Can, EffectiveRole, ResolveRow;
    hide CreateReleaseRow, EnsureReleaseRow, String;
    match step
    case OpenRelease(_, actor, artifact, kind, listing) => OpenReleaseSerial(s, actor, artifact, kind, listing);
    case RunTag(_) => RunTagSerial(s);
    case RunMerge(_, other) => RunMergeSerial(s, other, lines);
    case _ =>
  }

  lemma {:induction false} RunSerial(run: Run, k: nat)
    requires run.Valid() && Serial(run) && k < |run.states|
    ensures SerialOk(run.states[k])
  {
    hide Inv, Apply, SerialStep;
    if k > 0 {
      RunSerial(run, k - 1);
      RunKeeps(run, k - 1);
      assert run.Stepped(k - 1);
      StepSerial(run.states[k - 1], run.steps[k - 1], run.lines);
    } else {
      assert SerialOk(run.states[0]);
    }
  }

  /** No work is lost: in a serial run every commit a write ever returned stays reachable from main or from its
      branch, wherever calls were cut off. */
  lemma NoWorkIsLost(run: Run)
    requires run.Valid() && Serial(run)
    ensures HeldThroughout(run)
  {
    forall k | 0 <= k < |run.steps| ensures !DropsWork(run.states[k], run.steps[k]) {
      RunSerial(run, k);
    }
    WorkIsKeptExactly(run);
  }

  /** The tags of an artifact are strictly increasing in the order of their creation, and a release computed at
      any moment goes above all of them under a name not taken. */
  lemma ReleasesGoUp(run: Run, k: nat, artifact: string, kind: Kind, listing: seq<string>)
    requires run.Valid() && Serial(run) && k < |run.states|
    requires Lists(listing, VersionTexts(run.states[k].repo, artifact))
    ensures Increasing(run.states[k].log.tagged)
    ensures Above(run.states[k].log.tagged, artifact, Next(listing, kind))
    ensures TagName(artifact, String(Next(listing, kind))) !in run.states[k].repo.tags
  {
    RunSerial(run, k);
    RunKeeps(run, k);
    AboveListing(run.states[k].repo, run.states[k].log.tagged, artifact, kind, listing);
    NextOfRun(run.states[k].repo, run.states[k].log.tagged, artifact, kind, listing);
  }

  // Merged rows

  /** The row of the merge call in progress has not been resolved as merged meanwhile. */
  ghost predicate RowStillOpen(s: Sys) {
    0 in s.calls && (s.calls[0].ToMerge? || s.calls[0].ToResolve?) && s.calls[0].id in s.db.proposals ==>
      s.db.proposals[s.calls[0].id].status != Merged
  }

  lemma StepKeepsMerged(s: Sys, step: Step, id: nat, lines: LineMerge)
    requires RowStillOpen(s) && SerialStep(s, step)
    ensures RowStillOpen(Apply(s, step, lines))
    ensures id in s.db.proposals && s.db.proposals[id].status == Merged ==>
              id in Apply(s, step, lines).db.proposals && Apply(s, step, lines).db.proposals[id].status == Merged
  {
    hide GitMerge, Can, EffectiveRole, ProposalBranch, ResolveRow, RowStillOpen, DoRunMerge;
    if step.OpenMerge? || step.RunMerge? || step.Resolve? {
      MergeStepKeepsMerged(s, step, id, lines);
    } else {
      OtherStepKeepsMerged(s, step, lines);
    }
  }

  lemma MergeStepKeepsMerged(s: Sys, step: Step, id: nat, lines: LineMerge)
    requires RowStillOpen(s) && SerialStep(s, step) && (step.OpenMerge? || step.RunMerge? || step.Resolve?)
    ensures RowStillOpen(Apply(s, step, lines))
    ensures id in s.db.proposals && s.db.proposals[id].status == Merged ==>
              id in Apply(s, step, lines).db.proposals && Apply(s, step, lines).db.proposals[id].status == Merged
  {
    hide GitMerge, LookUp, Included, Can, EffectiveRole;
  }

  lemma OtherStepKeepsMerged(s: Sys, step: Step, lines: LineMerge)
    requires RowStillOpen(s) && SerialStep(s, step) && !step.OpenMerge? && !step.RunMerge? && !step.Resolve?
    ensures RowStillOpen(Apply(s, step, lines))
    ensures forall id :: id in s.db.proposals ==>
              id in Apply(s, step, lines).db.proposals && Apply(s, step, lines).db.proposals[id] == s.db.proposals[id]
  {
    hide GitWrite, GitDelete, GitTag, HasRelease, NewRelease;
    hide Lists, VersionTexts, Can, EffectiveRole, String, Latest, Bump, ProposalBranch;
  }

  /** In a serial run a row once resolved as merged stays merged. */
  lemma {:induction false} MergedIsFinal(run: Run, j: nat, k: nat, id: nat)
    requires run.Valid() && Serial(run) && j <= k < |run.states|
    requires id in run.states[j].db.proposals && run.states[j].db.proposals[id].status == Merged
    ensures id in run.states[k].db.proposals && run.states[k].db.proposals[id].status == Merged
  {
    hide Apply, SerialStep, RowStillOpen;
    if j < k {
      MergedIsFinal(run, j, k - 1, id);
      RunRowsOpen(run, k - 1);
      assert run.Stepped(k - 1);
      StepKeepsMerged(run.states[k - 1], run.steps[k - 1], id, run.lines);
    }
  }

  lemma {:induction false} RunRowsOpen(run: Run, k: nat)
    requires run.Valid() && Serial(run) && k < |run.states|
    ensures RowStillOpen(run.states[k])
  {
    hide Apply, SerialStep;
    if k > 0 {
      RunRowsOpen(run, k - 1);
      assert run.Stepped(k - 1);
      StepKeepsMerged(run.states[k - 1], run.steps[k - 1], 0, run.lines);
    }
  }

  // The newest row and the highest release

  function RowVersion(r: Release): Version {
    Parse(r.version).GetOr(ZERO)
  }

  ghost predicate RowTagged(r: Release, tagged: Tagged) {
    r.version == String(RowVersion(r)) && (r.artifact, RowVersion(r)) in tagged
  }

  /** The rows of an artifact are some of its releases, in ascending order. */
  ghost predicate RowsClimb(rows: seq<Release>, tagged: Tagged) {
    && (forall i :: 0 <= i < |rows| ==> RowTagged(rows[i], tagged))
    && (forall i, j :: 0 <= i < j < |rows| && rows[i].artifact == rows[j].artifact ==>
          Less(RowVersion(rows[i]), RowVersion(rows[j])))
  }

  ghost predicate AboveRows(rows: seq<Release>, artifact: string, v: Version) {
    forall i :: 0 <= i < |rows| && rows[i].artifact == artifact ==> Less(RowVersion(rows[i]), v)
  }

  ghost predicate RowsRise(s: Sys) {
    && RowsClimb(s.db.releases, s.log.tagged)
    && (0 in s.calls && s.calls[0].ToRecord? ==>
          var c := s.calls[0];
          (c.artifact, c.next) in s.log.tagged && c.next.NonNegative() && AboveRows(s.db.releases, c.artifact, c.next))
  }

  lemma ClimbHigher(t: Rows, artifact: string, v: Version, tagged: Tagged)
    requires RowsClimb(t.releases, tagged) && AboveRows(t.releases, artifact, v)
    requires (artifact, v) in tagged && v.NonNegative()
    ensures RowsClimb(t.releases + [NewRelease(t, artifact, String(v), false)], tagged)
  {
    hide String, Less, Parse;
    ParseString(v);
  }

  lemma TagRises(s: Sys)
    requires Inv(s) && SerialOk(s) && RowsRise(s)
    ensures RowsRise(DoRunTag(s, 0))
  {
    hide Sound, RowsOk, TakenOk, ReleasesOk, TagsOk, OneWinner, PendingOk, String, Less, Parse, GitTag, Increasing;
    if 0 in s.calls && s.calls[0].ToTag? {
      var c, t := s.calls[0], DoRunTag(s, 0);
      assert CallOk(c, s.repo, s.db.releases, |s.log.tagged|);
      forall i | 0 <= i < |s.db.releases| && s.db.releases[i].artifact == c.artifact
        ensures Less(RowVersion(s.db.releases[i]), c.next)
      {
        assert RowTagged(s.db.releases[i], s.log.tagged);
      }
      assert forall r :: RowTagged(r, s.log.tagged) ==> RowTagged(r, s.log.tagged + [(c.artifact, c.next)]);
    }
  }

  lemma RecordRises(s: Sys, dbOk: bool)
    requires RowsRise(s)
    ensures RowsRise(DoRecord(s, 0, dbOk))
  {
    hide String, Less, Parse, RowsClimb, AboveRows, HasRelease;
    if 0 in s.calls && s.calls[0].ToRecord? {
      ClimbHigher(s.db, s.calls[0].artifact, s.calls[0].next, s.log.tagged);
    }
  }

  lemma StepRises(s: Sys, step: Step, lines: LineMerge)
    requires Inv(s) && SerialOk(s) && RowsRise(s) && SerialStep(s, step) && !step.Repair?
    ensures RowsRise(Apply(s, step, lines))
  {
    hide Inv, SerialOk, RowsClimb, AboveRows, GitWrite, GitMerge, LookUp, GitDelete, GitTag;
    hide Lists, VersionTexts, Can, EffectiveRole, String, Latest, Bump, HasRelease;
    match step
    case RunTag(_) => TagRises(s);
    case Record(_, dbOk) => RecordRises(s, dbOk);
    case _ =>
  }

  lemma {:induction false} RunRises(run: Run, k: nat)
    requires run.Valid() && Serial(run) && k < |run.states| && forall i :: 0 <= i < k ==> !run.steps[i].Repair?
    ensures RowsRise(run.states[k])
  {
    hide Inv, Apply, SerialStep, SerialOk;
    if k > 0 {
      RunRises(run, k - 1);
      RunKeeps(run, k - 1);
      RunSerial(run, k - 1);
      assert run.Stepped(k - 1);
      StepRises(run.states[k - 1], run.steps[k - 1], run.lines);
    }
  }

  /** The greatest logged release of an artifact. */
  ghost predicate IsHighest(tagged: Tagged, artifact: string, best: Option<Version>) {
    match best
    case None => forall v :: (artifact, v) !in tagged
    case Some(m) => (artifact, m) in tagged && forall v :: (artifact, v) in tagged ==> v == m || Less(v, m)
  }

  /** Latest of the listed tags is the greatest logged release of the artifact. */
  lemma LatestIsLogged(r: Repo, tagged: Tagged, artifact: string, listing: seq<string>)
    requires TagsOk(r.tags, tagged) && Lists(listing, VersionTexts(r, artifact))
    ensures IsHighest(tagged, artifact, Latest(listing))
  {
    hide TagsOk, Lists, Less, Parses;
    LatestIsMaximum(listing);
    forall v ensures Parses(listing, v) <==> (artifact, v) in tagged {
      ListingMeans(r, tagged, artifact, listing, v);
    }
  }

  /** A row with the text of a release is the row of that release. */
  lemma SameText(tagged: Tagged, r: Release, v: Version)
    requires r.version == String(v) && v.NonNegative()
    ensures RowVersion(r) == v
  {
    hide Parse, String;
    ParseString(v);
  }

  /** Among climbing rows the newest of an artifact is its highest release if and only if that one has a row. */
  lemma NewestAmongClimbing(rows: seq<Release>, tagged: Tagged, artifact: string, best: Version)
    requires RowsClimb(rows, tagged) && IsHighest(tagged, artifact, Some(best)) && best.NonNegative()
    requires forall i :: 0 <= i < |rows| ==> rows[i].at == i
    ensures NewestRow(rows, artifact).Some? && NewestRow(rows, artifact).value.version == String(best) <==>
            HasRelease(rows, artifact, String(best))
  {
    hide String, NewestRow, RowVersion, Less;
    NewestRowIsNewest(rows, artifact);
    if NewestRow(rows, artifact).Some? {
      var newest := NewestRow(rows, artifact).value;
      var j :| 0 <= j < |rows| && rows[j] == newest;
      if HasRelease(rows, artifact, String(best)) {
        var i :| 0 <= i < |rows| && IsRelease(rows[i], artifact, String(best));
        assert rows[i] in rows && i <= j;
        SameText(tagged, rows[i], best);
        assert RowTagged(rows[j], tagged);
        HighestIsHigh(best, RowVersion(rows[j]));
      } else {
        assert !IsRelease(rows[j], artifact, String(best));
      }
    } else {
      assert forall i :: 0 <= i < |rows| ==> rows[i] in rows;
    }
  }

  lemma HighestIsHigh(v: Version, w: Version)
    ensures v == w || Less(w, v) ==> !Less(v, w)
  {
  }

  /** Without a release there is no row. */
  lemma NoReleaseNoRow(rows: seq<Release>, tagged: Tagged, artifact: string)
    requires RowsClimb(rows, tagged) && IsHighest(tagged, artifact, None)
    ensures NewestRow(rows, artifact).None?
  {
    hide NewestRow, RowVersion;
    NewestRowIsNewest(rows, artifact);
    forall i | 0 <= i < |rows| ensures rows[i].artifact != artifact {
      assert RowTagged(rows[i], tagged);
    }
  }

  /** In a serial run that fsck has not touched, wherever calls were cut off and inserts failed, the row that
      LatestReleases picks by age is the release that Latest picks by precedence if and only if that release has
      a row. */
  lemma NewestRowIsLatestExactly(run: Run, k: nat, artifact: string, listing: seq<string>)
    requires run.Valid() && Serial(run) && k < |run.states| && forall i :: 0 <= i < k ==> !run.steps[i].Repair?
    requires Lists(listing, VersionTexts(run.states[k].repo, artifact))
    ensures var rows := run.states[k].db.releases;
            match Latest(listing)
            case None => NewestRow(rows, artifact).None?
            case Some(v) =>
              NewestRow(rows, artifact).Some? && NewestRow(rows, artifact).value.version == String(v) <==>
              HasRelease(rows, artifact, String(v))
  {
    hide Lists, TagsOk, RowsClimb, Sound, IsHighest, Latest, NewestRow, String, UniqueReleases, HasRelease;
    var s := run.states[k];
    RunRises(run, k);
    RunKeeps(run, k);
    LatestIsLogged(s.repo, s.log.tagged, artifact, listing);
    match Latest(listing)
    case None => NoReleaseNoRow(s.db.releases, s.log.tagged, artifact);
    case Some(best) =>
      HighestIsNatural(s, artifact, best);
      NewestAmongClimbing(s.db.releases, s.log.tagged, artifact, best);
  }

  lemma HighestIsNatural(s: Sys, artifact: string, best: Version)
    requires Inv(s) && IsHighest(s.log.tagged, artifact, Some(best))
    ensures best.NonNegative()
  {
    hide Sound, RowsOk, TakenOk, ReleasesOk, CallsOk, OneWinner, PendingOk, String, Less;
    var i :| 0 <= i < |s.log.tagged| && s.log.tagged[i] == (artifact, best);
    assert Small(s.log.tagged[i].1, |s.log.tagged|);
  }

  /** No call dies between its tag and its row, no insert fails, and fsck inserts nothing. */
  ghost predicate GaplessStep(s: Sys, step: Step) {
    && SerialStep(s, step)
    && !step.Repair?
    && (step.Record? ==> step.dbOk)
    && (step.Crash? ==> !(0 in s.calls && s.calls[0].ToRecord?))
  }

  ghost predicate Gapless(run: Run)
    requires run.Valid()
  {
    forall k :: 0 <= k < |run.steps| ==> GaplessStep(run.states[k], run.steps[k])
  }

  /** Every tag has its row, or the call in progress is about to insert it. */
  ghost predicate AllRecorded(s: Sys) {
    forall a, v :: (a, v) in s.log.tagged ==>
      HasRelease(s.db.releases, a, String(v)) || (0 in s.calls && s.calls[0] == ToRecord(a, v))
  }

  lemma RecordCompletes(s: Sys)
    requires AllRecorded(s)
    ensures AllRecorded(DoRecord(s, 0, true))
  {
    hide String;
    if 0 in s.calls && s.calls[0].ToRecord? {
      var rows := DoRecord(s, 0, true).db.releases;
      assert s.db.releases <= rows;
      forall a, v | (a, v) in s.log.tagged ensures HasRelease(rows, a, String(v)) {
        if HasRelease(s.db.releases, a, String(v)) {
          var i :| 0 <= i < |s.db.releases| && IsRelease(s.db.releases[i], a, String(v));
          assert IsRelease(rows[i], a, String(v));
        } else {
          assert IsRelease(rows[|rows| - 1], a, String(v));
        }
      }
    }
  }

  lemma StepCompletes(s: Sys, step: Step, lines: LineMerge)
    requires AllRecorded(s) && GaplessStep(s, step)
    ensures AllRecorded(Apply(s, step, lines))
  {
    hide GitWrite, GitMerge, LookUp, GitDelete, GitTag, HasRelease;
    hide Lists, VersionTexts, Can, EffectiveRole, String, Latest, Bump;
    match step
    case Record(_, _) => RecordCompletes(s);
    case _ =>
  }

  lemma {:induction false} RunCompletes(run: Run, k: nat)
    requires run.Valid() && Gapless(run) && k < |run.states|
    ensures AllRecorded(run.states[k])
  {
    hide Apply, GaplessStep, AllRecorded;
    if k == 0 {
      NothingToRecord(run.states[0]);
    } else {
      RunCompletes(run, k - 1);
      assert run.Stepped(k - 1);
      StepCompletes(run.states[k - 1], run.steps[k - 1], run.lines);
    }
  }

  lemma NothingToRecord(s: Sys)
    requires s.log.tagged == []
    ensures AllRecorded(s)
  {
  }

  /** So when no call was cut off between tag and row, it is that release for every artifact. */
  lemma NewestRowIsLatest(run: Run, k: nat, artifact: string, listing: seq<string>)
    requires run.Valid() && Gapless(run) && k < |run.states|
    requires !(0 in run.states[k].calls && run.states[k].calls[0].ToRecord?)
    requires Lists(listing, VersionTexts(run.states[k].repo, artifact))
    ensures NewestRow(run.states[k].db.releases, artifact).Some? <==> Latest(listing).Some?
    ensures Latest(listing).Some? ==>
              NewestRow(run.states[k].db.releases, artifact).value.version == String(Latest(listing).value)
  {
    hide Lists, TagsOk, Sound, Latest, NewestRow, String, HasRelease;
    RunCompletes(run, k);
    RunKeeps(run, k);
    LatestIsLogged(run.states[k].repo, run.states[k].log.tagged, artifact, listing);
    NewestRowIsLatestExactly(run, k, artifact, listing);
  }

  // Merge retries

  /** The four steps of a merge call that is not cut off. */
  ghost function WholeMerge(s: Sys, actor: Actor, id: nat, other: Option<nat>, lines: LineMerge): Sys {
    DoDrop(DoResolve(DoRunMerge(DoOpenMerge(s, 0, actor, id), 0, other, lines), 0, true), 0)
  }

  /** The call dies right after Git.Merge, or goes on although ResolveProposal failed and dies before the delete. */
  ghost function CutMerge(s: Sys, actor: Actor, id: nat, other: Option<nat>, lines: LineMerge,
                          resolveFailed: bool): Sys {
    var t := DoRunMerge(DoOpenMerge(s, 0, actor, id), 0, other, lines);
    End(if resolveFailed then DoResolve(t, 0, false) else t, 0)
  }

  /** A row that is not resolved although what it names holds nothing that main lacks. */
  ghost predicate AlreadyMerged(s: Sys, id: nat, other: Option<nat>) {
    && id in s.db.proposals && s.db.proposals[id].status != Merged
    && var named := LookUp(s.repo, s.db.proposals[id].branch, other); named.Some? && named.value in Trunk(s.repo)
  }

  /** A call cut between Git.Merge and its bookkeeping leaves such a row. */
  lemma CutLeavesAlreadyMerged(s: Sys, actor: Actor, id: nat, other: Option<nat>, lines: LineMerge, resolveFailed: bool)
    requires Inv(s) && 0 !in s.calls && Can(EffectiveRole(s.members, actor), ProposalMerge)
    requires id in s.db.proposals && s.db.proposals[id].status != Merged
    requires GitMerge(s.repo, s.db.proposals[id].branch, other, lines).1.MergedAt?
    ensures var t := CutMerge(s, actor, id, other, lines, resolveFailed);
            AlreadyMerged(t, id, other) && t.db == s.db && t.calls == s.calls
  {
    hide Can, EffectiveRole, GitMerge, LookUp, Inv, DoRunMerge, DoResolve;
    RowMerges(s, id, other, lines);
    var begun := DoOpenMerge(s, 0, actor, id);
    RunMergeMeans(begun, 0, other, lines);
    var merged := DoRunMerge(begun, 0, other, lines);
    ResolveMeans(merged, 0, false);
  }

  lemma RowMerges(s: Sys, id: nat, other: Option<nat>, lines: LineMerge)
    requires Inv(s) && id in s.db.proposals && GitMerge(s.repo, s.db.proposals[id].branch, other, lines).1.MergedAt?
    ensures var name := s.db.proposals[id].branch;
            var t := GitMerge(s.repo, name, other, lines).0;
            && LookUp(s.repo, name, other).Some? && LookUp(t, name, other) == LookUp(s.repo, name, other)
            && LookUp(t, name, other).value in Trunk(t)
  {
    hide Sound, PlanMerge;
    RowBranch(s.db.proposals[id]);
    MergeTrunk(s.repo, s.db.proposals[id].branch, other, lines);
  }

  lemma MergeAgain(r: Repo, branch: string, other: Option<nat>, lines: LineMerge)
    requires LookUp(r, branch, other).Some? && LookUp(r, branch, other).value in Trunk(r)
    ensures GitMerge(r, branch, other, lines) == (r, MergedAt(r.heads[MAIN]))
  {
    hide ConflictPaths, MergedTree;
  }

  /** Retry converges: whatever happened since, as long as main has what the row names, a merge call on the still
      unresolved row adds no commit, leaves main and every other ref where they are, resolves the row as merged and
      removes the branch. */
  lemma RetryConverges(run: Run, k: nat, actor: Actor, id: nat, other: Option<nat>)
    requires run.Valid() && k < |run.states| && AlreadyMerged(run.states[k], id, other) && 0 !in run.states[k].calls
    requires Can(EffectiveRole(run.states[k].members, actor), ProposalMerge)
    ensures var s := run.states[k]; var t := WholeMerge(s, actor, id, other, run.lines);
            && t.repo.commits == s.repo.commits && t.repo.tags == s.repo.tags
            && t.repo.heads == s.repo.heads - {s.db.proposals[id].branch}
            && t.repo.heads[MAIN] == s.repo.heads[MAIN]
            && t.db.proposals == s.db.proposals[id := s.db.proposals[id].(status := Merged, conflicts := {})]
            && t.calls == s.calls
  {
    hide GitMerge, LookUp, Sound, Can, WholeMerge;
    var s, row := run.states[k], run.states[k].db.proposals[id];
    RunKeeps(run, k);
    RowBranch(row);
    MergeAgain(s.repo, row.branch, other, run.lines);
    RetrySteps(s, actor, id, other, run.lines);
  }

  lemma RetrySteps(s: Sys, actor: Actor, id: nat, other: Option<nat>, lines: LineMerge)
    requires AlreadyMerged(s, id, other) && 0 !in s.calls && Can(EffectiveRole(s.members, actor), ProposalMerge)
    requires s.db.proposals[id].branch != MAIN
    requires GitMerge(s.repo, s.db.proposals[id].branch, other, lines) == (s.repo, MergedAt(s.repo.heads[MAIN]))
    ensures var t := WholeMerge(s, actor, id, other, lines);
            && t.repo == GitDelete(s.repo, s.db.proposals[id].branch).0
            && t.db == ResolveRow(s.db, id, Merged, {}) && t.calls == s.calls
  {
    hide Can, EffectiveRole, GitMerge, GitDelete, ResolveRow, LookUp, Included;
    var row := s.db.proposals[id];
    var s1 := DoOpenMerge(s, 0, actor, id);
    assert s1.calls[0] == ToMerge(actor, EffectiveRole(s.members, actor), id, row);
    var s2 := DoRunMerge(s1, 0, other, lines);
    assert s2.repo == s.repo && s2.calls[0].ToResolve? && s2.calls[0].row == row && s2.calls[0].id == id;
    assert s2.calls[0].result == MergedAt(s.repo.heads[MAIN]);
    var s3 := DoResolve(s2, 0, true);
    assert s3.repo == s.repo && s3.calls[0] == ToDrop(row);
    assert s3.calls - {0} == s.calls;
  }

  /** Once the row says merged there is no retry: from then on, in a serial run, a merge call on it changes nothing, so
      a call that died between ResolveProposal and DeleteBranch leaves its branch behind. */
  lemma NoRetryOnceResolved(run: Run, j: nat, k: nat, actor: Actor, id: nat, other: Option<nat>)
    requires run.Valid() && Serial(run) && j <= k < |run.states| && 0 !in run.states[k].calls
    requires id in run.states[j].db.proposals && run.states[j].db.proposals[id].status == Merged
    ensures WholeMerge(run.states[k], actor, id, other, run.lines) == run.states[k]
  {
    hide GitMerge, GitDelete, ResolveRow, Run.Valid, Serial;
    MergedIsFinal(run, j, k, id);
  }
}
