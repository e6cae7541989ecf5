/** Where the interleaved guarantees stop: concrete runs, for every project that has the actors for them. */
module Limits {
  import opened Wrappers
  import opened Paths
  import opened FileTree
  import opened Dag
  import opened Repos
  import opened Semver
  import opened Authz
  import opened Tables
  import opened Service
  import opened Invariants
  import opened Interleaving
  import opened SerialRuns

  // Reaching states

  /** Some run of n steps from the empty project ends in s, a serial one if asked for. */
  ghost predicate Reached(s: Sys, n: nat, serial: bool, members: Memberships, lines: LineMerge) {
    exists run: Run :: EndsIn(run, s, n, serial, members, lines)
  }

  ghost predicate EndsIn(run: Run, s: Sys, n: nat, serial: bool, members: Memberships, lines: LineMerge) {
    && run.Valid() && run.lines == lines && |run.steps| == n
    && run.states[0] == Init(false, members) && run.states[n] == s && (serial ==> Serial(run))
  }

  lemma Begin(members: Memberships, lines: LineMerge) returns (s: Sys)
    ensures s == Init(false, members) && Reached(s, 0, true, members, lines)
  {
    s := Init(false, members);
    assert EndsIn(Run([s], [], lines), s, 0, true, members, lines);
  }

  /** One more step. */
  lemma Go(s: Sys, n: nat, step: Step, serial: bool, members: Memberships, lines: LineMerge) returns (t: Sys)
    requires Reached(s, n, serial, members, lines) && n + 1 < MAX_INT && (serial ==> SerialStep(s, step))
    ensures t == Apply(s, step, lines) && Reached(t, n + 1, serial, members, lines)
  {
    hide Apply, SerialStep;
    t := Apply(s, step, lines);
    var run: Run :| EndsIn(run, s, n, serial, members, lines);
    var next := Run(run.states + [t], run.steps + [step], lines);
    forall k | 0 <= k < |next.steps| ensures next.Stepped(k) {
      if k < n {
        assert run.Stepped(k);
      }
    }
    assert EndsIn(next, t, n + 1, serial, members, lines);
  }

  lemma ReachedIsInv(s: Sys, n: nat, members: Memberships, lines: LineMerge)
    requires Reached(s, n, false, members, lines)
    ensures Inv(s)
  {
    hide Inv;
    var run: Run :| EndsIn(run, s, n, false, members, lines);
    RunKeeps(run, n);
  }

  lemma SerialIsReached(s: Sys, n: nat, members: Memberships, lines: LineMerge)
    requires Reached(s, n, true, members, lines)
    ensures Reached(s, n, false, members, lines)
  {
    var run: Run :| EndsIn(run, s, n, true, members, lines);
    assert EndsIn(run, s, n, false, members, lines);
  }

  // Releases that go down

  /** Step m tags v for artifact. */
  ghost predicate TagsAt(run: Run, m: nat, artifact: string, v: Version)
    requires run.Valid() && m < |run.steps|
  {
    var s, step := run.states[m], run.steps[m];
    && step.RunTag? && step.call in s.calls && s.calls[step.call] == ToTag(artifact, v)
    && GitTag(s.repo, artifact, String(v)).1
  }

  /** Step k tags for a call that was opened at step j, and between the two another call tagged the same artifact at a
      version that is not below. */
  ghost predicate OvertakenSince(run: Run, j: nat, m: nat, k: nat)
    requires run.Valid() && j < m < k < |run.steps|
  {
    && run.steps[k].RunTag? && run.steps[k].call in run.states[k].calls && run.states[k].calls[run.steps[k].call].ToTag?
    && var c := run.states[k].calls[run.steps[k].call];
       && TagsAt(run, k, c.artifact, c.next) && StandsSince(run, j, k, run.steps[k].call)
       && run.steps[m].RunTag? && run.steps[m].call in run.states[m].calls &&
           run.states[m].calls[run.steps[m].call].ToTag?
       && var d := run.states[m].calls[run.steps[m].call];
          TagsAt(run, m, c.artifact, d.next) && !Less(d.next, c.next)
  }

  ghost predicate Overtaken(run: Run, k: nat)
    requires run.Valid() && k < |run.steps|
  {
    exists j, m :: 0 <= j < m < k && OvertakenSince(run, j, m, k)
  }

  /** The log grows by the tags that are created. */
  lemma TagStep(run: Run, k: nat)
    requires run.Valid() && k < |run.steps|
    ensures var before, after := run.states[k].log.tagged, run.states[k + 1].log.tagged;
            || after == before
            || (before <= after && |after| == |before| + 1 && TagsAt(run, k, after[|before|].0, after[|before|].1))
  {
    hide GitTag, String;
    assert run.Stepped(k);
    if !run.steps[k].RunTag? {
      OtherStepsLogNoTag(run.states[k], run.steps[k], run.lines);
    }
  }

  lemma OtherStepsLogNoTag(s: Sys, step: Step, lines: LineMerge)
    requires !step.RunTag?
    ensures Apply(s, step, lines).log.tagged == s.log.tagged
  {
    hide GitWrite, GitMerge, LookUp, Included, GitDelete, Lists, Latest, Bump, String, Can, EffectiveRole;
    hide VersionTexts, ProposalBranch, TagName, ResolveRow, CreateReleaseRow, EnsureReleaseRow;
  }

  lemma TagIsLogged(run: Run, k: nat, artifact: string, v: Version)
    requires run.Valid() && k < |run.steps| && TagsAt(run, k, artifact, v)
    ensures run.states[k + 1].log.tagged == run.states[k].log.tagged + [(artifact, v)]
  {
    hide GitTag, String;
    assert run.Stepped(k);
  }

  lemma {:induction false} LogGrows(run: Run, j: nat, k: nat)
    requires run.Valid() && j <= k < |run.states|
    ensures run.states[j].log.tagged <= run.states[k].log.tagged
  {
    hide TagsAt, Apply;
    if j < k {
      LogGrows(run, j, k - 1);
      TagStep(run, k - 1);
    }
  }

  /** What was logged between j and k was tagged by a step between them. */
  lemma {:induction false} LoggedBetween(run: Run, j: nat, k: nat, i: nat) returns (m: nat)
    requires run.Valid() && j <= k < |run.states|
    requires |run.states[j].log.tagged| <= i < |run.states[k].log.tagged|
    ensures j <= m < k && TagsAt(run, m, run.states[k].log.tagged[i].0, run.states[k].log.tagged[i].1)
  {
    hide TagsAt, Apply;
    LogGrows(run, j, k);
    TagStep(run, k - 1);
    if i < |run.states[k - 1].log.tagged| {
      m := LoggedBetween(run, j, k - 1, i);
    } else {
      m := k - 1;
    }
  }

  /** A call that nobody overtook is still above everything when it tags. */
  lemma NotOvertakenIsAbove(run: Run, k: nat, artifact: string, v: Version)
    requires run.Valid() && k < |run.steps| && TagsAt(run, k, artifact, v) && !Overtaken(run, k)
    ensures Above(run.states[k].log.tagged, artifact, v)
  {
    hide Inv, Lists, VersionTexts, Next, GitTag, String, Less;
    var call := run.steps[k].call;
    var j := CallWasOpened(run, k, call);
    AboveWhenOpened(run, j, call, artifact, v);
    LogGrows(run, j, k);
    var tagged := run.states[k].log.tagged;
    forall i | 0 <= i < |tagged| && tagged[i].0 == artifact ensures Less(tagged[i].1, v) {
      if i < |run.states[j].log.tagged| {
        assert run.states[j].log.tagged[i] == tagged[i];
      } else {
        var m := LoggedBetween(run, j, k, i);
        assert j != m;
        assert !OvertakenSince(run, j, m, k);
      }
    }
  }

  lemma AboveWhenOpened(run: Run, j: nat, call: nat, artifact: string, v: Version)
    requires run.Valid() && j < |run.steps| && Opens(run.states[j], run.steps[j], call, ToTag(artifact, v))
    ensures run.steps[j].OpenRelease? && Above(run.states[j].log.tagged, artifact, v)
  {
    hide Lists, VersionTexts, Next, String, Less, Can, EffectiveRole;
    var s, step := run.states[j], run.steps[j];
    RunKeeps(run, j);
    AboveListing(s.repo, s.log.tagged, artifact, KindOf(step.kind).value, step.listing);
  }

  /** Releases of every artifact go strictly up throughout a run if and only if no call tags after it was overtaken:
      after another call tagged the same artifact, at a version not below, since this one read the version list. */
  lemma ReleasesGoUpExactly(run: Run)
    requires run.Valid()
    ensures (forall k :: 0 <= k < |run.states| ==> Increasing(run.states[k].log.tagged)) <==>
            (forall k :: 0 <= k < |run.steps| ==> !Overtaken(run, k))
  {
    hide Increasing, Overtaken;
    if k :| 0 <= k < |run.steps| && Overtaken(run, k) {
      OvertakenGoesDown(run, k);
      assert !Increasing(run.states[k + 1].log.tagged);
    } else {
      forall k | 0 <= k < |run.states| ensures Increasing(run.states[k].log.tagged) {
        NeverOvertakenGoesUp(run, k);
      }
    }
  }

  lemma OvertakenGoesDown(run: Run, k: nat)
    requires run.Valid() && k < |run.steps| && Overtaken(run, k)
    ensures !Increasing(run.states[k + 1].log.tagged)
  {
    hide GitTag, String, Less, Apply, TagsAt, StandsSince, Run.Valid;
    LengthOf(run);
    var j, m :| 0 <= j < m < k && OvertakenSince(run, j, m, k);
    var c, d := run.states[k].calls[run.steps[k].call], run.states[m].calls[run.steps[m].call];
    TagIsLogged(run, m, c.artifact, d.next);
    LogGrows(run, m + 1, k);
    TagIsLogged(run, k, c.artifact, c.next);
    var i, tagged := |run.states[m].log.tagged|, run.states[k + 1].log.tagged;
    assert tagged[i] == (c.artifact, d.next) && tagged[|tagged| - 1] == (c.artifact, c.next);
  }

  lemma {:induction false} NeverOvertakenGoesUp(run: Run, k: nat)
    requires run.Valid() && k < |run.states| && forall i :: 0 <= i < |run.steps| ==> !Overtaken(run, i)
    ensures Increasing(run.states[k].log.tagged)
  {
    hide Above, Overtaken, TagsAt, Apply, Less;
    if k > 0 {
      NeverOvertakenGoesUp(run, k - 1);
      TagStep(run, k - 1);
      var before, after := run.states[k - 1].log.tagged, run.states[k].log.tagged;
      if after != before {
        var t := after[|before|];
        NotOvertakenIsAbove(run, k - 1, t.0, t.1);
        IncreasingAppend(before, t.0, t.1);
        assert after == before + [(t.0, t.1)];
      }
    }
  }

  // Release stories

  const LOW := Version(0, 0, 1)
  const HIGH := Version(1, 0, 0)

  lemma NoVersionsYet(r: Repo, artifact: string)
    requires r.tags == map[]
    ensures Lists([], VersionTexts(r, artifact))
  {
  }

  lemma FirstVersions()
    ensures Next([], Patch) == LOW && Next([], Major) == HIGH && Next([String(LOW)], Major) == HIGH && Less(LOW, HIGH)
  {
    hide String, Parse;
    ParseString(LOW);
    assert [String(LOW)][..0] == [];
    assert Latest([]) == None;
    assert Latest([String(LOW)]) == Some(LOW);
  }

  lemma DistinctTexts(artifact: string)
    ensures String(LOW) != String(HIGH) && TagName(artifact, String(LOW)) != TagName(artifact, String(HIGH))
  {
    hide String, Parse;
    ParseString(LOW);
    ParseString(HIGH);
    StringHasNoSlash(LOW);
    StringHasNoSlash(HIGH);
    TagNameInjective(artifact, String(LOW), artifact, String(HIGH));
  }

  lemma TagNameOf(artifact: string, v: string, w: string)
    ensures TagName(artifact, v) == TagName(artifact, w) ==> v == w
  {
    var stem := TagName(artifact, "");
    assert TagName(artifact, v) == stem + v && TagName(artifact, w) == stem + w;
    assert (stem + v)[|stem|..] == v && (stem + w)[|stem|..] == w;
  }

  lemma ListsTexts(r: Repo, artifact: string, texts: seq<string>)
    requires forall i, j :: 0 <= i < j < |texts| ==> texts[i] != texts[j]
    requires r.tags.Keys == set v | v in texts :: TagName(artifact, v)
    ensures Lists(texts, VersionTexts(r, artifact))
  {
    hide TagName;
    forall v ensures v in VersionTexts(r, artifact) <==> v in texts {
      if TagName(artifact, v) in r.tags.Keys {
        var w :| w in texts && TagName(artifact, w) == TagName(artifact, v);
        TagNameOf(artifact, v, w);
      }
    }
  }

  lemma Opened(s: Sys, call: nat, actor: Actor, artifact: string, kind: string, listing: seq<string>)
    requires call !in s.calls && Can(EffectiveRole(s.members, actor), ReleaseCreate)
    requires Lists(listing, VersionTexts(s.repo, artifact)) && KindOf(kind).Some?
    ensures DoOpenRelease(s, call, actor, artifact, kind, listing)
         == s.(calls := s.calls[call := ToTag(artifact, Next(listing, KindOf(kind).value))])
  {
  }

  lemma TagGoesThrough(s: Sys, call: nat, artifact: string, next: Version)
    requires call in s.calls && s.calls[call] == ToTag(artifact, next)
    requires TagName(artifact, String(next)) !in s.repo.tags && RefNameOk(TagName(artifact, String(next)))
    ensures var t := DoRunTag(s, call);
            && t.calls == s.calls[call := ToRecord(artifact, next)] && t.db == s.db && t.members == s.members
            && t.repo == Repo(s.repo.commits, s.repo.heads,
                              s.repo.tags[TagName(artifact, String(next)) := s.repo.heads[MAIN]])
            && t.log.tagged == s.log.tagged + [(artifact, next)]
  {
    hide String, RefNameOk;
  }

  lemma RowGoesIn(s: Sys, call: nat, artifact: string, next: Version)
    requires call in s.calls && s.calls[call] == ToRecord(artifact, next) &&
        !HasRelease(s.db.releases, artifact, String(next))
    ensures var t := DoRecord(s, call, true);
            && t.repo == s.repo && t.calls == s.calls - {call} && t.log == s.log
            && t.db.releases == s.db.releases + [NewRelease(s.db, artifact, String(next), false)]
  {
    hide String, HasRelease, NewRelease;
  }

  ghost predicate CanRelease(members: Memberships, actor: Actor, artifact: string) {
    && Can(EffectiveRole(members, actor), ReleaseCreate)
    && RefNameOk(TagName(artifact, String(LOW))) && RefNameOk(TagName(artifact, String(HIGH)))
  }

  /** Two calls have read the empty version list: one is about to tag the low version, one the high one. */
  lemma TwoOpenReleases(members: Memberships, actor: Actor, artifact: string, lines: LineMerge) returns (s: Sys)
    requires CanRelease(members, actor, artifact)
    ensures Reached(s, 2, false, members, lines)
    ensures s == Init(false, members).(calls := map[0 := ToTag(artifact, LOW), 1 := ToTag(artifact, HIGH)])
  {
    hide Can, EffectiveRole, String, Lists, VersionTexts, RefNameOk, Reached, DoOpenRelease, TagName, Parse, Next;
    NoVersionsYet(EmptyRepo(), artifact);
    FirstVersions();
    s := Begin(members, lines);
    SerialIsReached(s, 0, members, lines);
    Opened(s, 0, actor, artifact, "patch", []);
    s := Go(s, 0, OpenRelease(0, actor, artifact, "patch", []), false, members, lines);
    Opened(s, 1, actor, artifact, "major", []);
    s := Go(s, 1, OpenRelease(1, actor, artifact, "major", []), false, members, lines);
  }

  /** Two releases that read the same version list may tag in descending order. */
  lemma ReleasesCanGoDown(members: Memberships, actor: Actor, artifact: string, lines: LineMerge) returns (s: Sys)
    requires CanRelease(members, actor, artifact)
    ensures Reached(s, 4, false, members, lines)
    ensures s.log.tagged == [(artifact, HIGH), (artifact, LOW)] && !Increasing(s.log.tagged)
  {
    hide Can, EffectiveRole, String, RefNameOk, Reached, DoRunTag, TagName;
    FirstVersions();
    DistinctTexts(artifact);
    s := TwoOpenReleases(members, actor, artifact, lines);
    TagGoesThrough(s, 1, artifact, HIGH);
    s := Go(s, 2, RunTag(1), false, members, lines);
    TagGoesThrough(s, 0, artifact, LOW);
    s := Go(s, 3, RunTag(0), false, members, lines);
    assert s.log.tagged[0] == (artifact, HIGH) && s.log.tagged[1] == (artifact, LOW);
  }

  /** The newest row of the artifact is not its highest release. */
  ghost predicate NewestMisleads(s: Sys, artifact: string, listing: seq<string>) {
    && Lists(listing, VersionTexts(s.repo, artifact)) && Latest(listing) == Some(HIGH)
    && NewestRow(s.db.releases, artifact).Some? &&
        NewestRow(s.db.releases, artifact).value.version == String(LOW) != String(HIGH)
  }

  lemma LowAfterHigh(s: Sys, artifact: string)
    requires s.repo.tags.Keys == {TagName(artifact, String(LOW)), TagName(artifact, String(HIGH))}
    requires |s.db.releases| == 2 && s.db.releases[0].at == 0 && IsRelease(s.db.releases[0], artifact, String(HIGH))
    requires s.db.releases[1].at == 1 && IsRelease(s.db.releases[1], artifact, String(LOW))
    ensures NewestMisleads(s, artifact, [String(LOW), String(HIGH)])
  {
    hide String, Parse, TagName, Lists, VersionTexts, NewestRow, Latest;
    DistinctTexts(artifact);
    ListsTexts(s.repo, artifact, [String(LOW), String(HIGH)]);
    LatestIsHigh();
    SecondIsNewest(s.db.releases, artifact);
  }

  lemma LatestIsHigh()
    ensures Latest([String(LOW), String(HIGH)]) == Some(HIGH)
  {
    hide String, Parse, Parses, Latest;
    var listing := [String(LOW), String(HIGH)];
    ParseString(LOW);
    ParseString(HIGH);
    LatestIsMaximum(listing);
    assert listing[0] in listing && listing[1] in listing;
    TwoParse(listing);
    var best := Latest(listing);
    assert Parses(listing, HIGH);
    assert best.Some? && (best.value == LOW || best.value == HIGH);
  }

  lemma TwoParse(listing: seq<string>)
    requires listing == [String(LOW), String(HIGH)]
    ensures forall v :: Parses(listing, v) <==> v == LOW || v == HIGH
    ensures Less(LOW, HIGH) && !Less(HIGH, LOW) && LOW != HIGH
  {
    hide String, Parse;
    ParseString(LOW);
    ParseString(HIGH);
    assert listing[0] in listing && listing[1] in listing;
  }

  lemma SecondIsNewest(rows: seq<Release>, artifact: string)
    requires |rows| == 2 && rows[0].at == 0 && rows[1].at == 1 && rows[0].artifact == artifact == rows[1].artifact
    ensures NewestRow(rows, artifact) == Some(rows[1])
  {
    NewestRowIsNewest(rows, artifact);
    assert rows[0] in rows && rows[1] in rows;
  }

  /** Two releases whose rows land in the opposite order of their tags leave the lower one as the newest row. */
  lemma RowsCanCross(members: Memberships, actor: Actor, artifact: string, lines: LineMerge) returns (s: Sys)
    requires CanRelease(members, actor, artifact)
    ensures Reached(s, 6, false, members, lines)
    ensures s.log.tagged == [(artifact, LOW), (artifact, HIGH)]
    ensures NewestMisleads(s, artifact, [String(LOW), String(HIGH)])
  {
    hide Can, EffectiveRole, String, RefNameOk, Reached, DoRunTag, DoRecord, TagName, NewestMisleads;
    DistinctTexts(artifact);
    s := TwoOpenReleases(members, actor, artifact, lines);
    TagGoesThrough(s, 0, artifact, LOW);
    s := Go(s, 2, RunTag(0), false, members, lines);
    TagGoesThrough(s, 1, artifact, HIGH);
    s := Go(s, 3, RunTag(1), false, members, lines);
    RowGoesIn(s, 1, artifact, HIGH);
    s := Go(s, 4, Record(1, true), false, members, lines);
    RowGoesIn(s, 0, artifact, LOW);
    s := Go(s, 5, Record(0, true), false, members, lines);
    LowAfterHigh(s, artifact);
  }

  /** A release call opens. */
  lemma OpenAlone(s: Sys, n: nat, actor: Actor, artifact: string, kind: string, listing: seq<string>, v: Version,
                  lines: LineMerge) returns (t: Sys)
    requires Reached(s, n, true, s.members, lines) && n + 1 < MAX_INT && s.calls == map[]
    requires Can(EffectiveRole(s.members, actor), ReleaseCreate) && KindOf(kind).Some? &&
        v == Next(listing, KindOf(kind).value)
    requires Lists(listing, VersionTexts(s.repo, artifact))
    ensures Reached(t, n + 1, true, s.members, lines) && t == s.(calls := map[0 := ToTag(artifact, v)])
  {
    hide Can, EffectiveRole, String, Lists, VersionTexts, Reached, DoOpenRelease, TagName, Next;
    Opened(s, 0, actor, artifact, kind, listing);
    t := Go(s, n, OpenRelease(0, actor, artifact, kind, listing), true, s.members, lines);
  }

  /** It opens and tags. */
  lemma OpenAndTag(s: Sys, n: nat, actor: Actor, artifact: string, kind: string, listing: seq<string>, v: Version,
                   lines: LineMerge) returns (t: Sys)
    requires Reached(s, n, true, s.members, lines) && n + 2 < MAX_INT && s.calls == map[]
    requires Can(EffectiveRole(s.members, actor), ReleaseCreate) && KindOf(kind).Some? &&
        v == Next(listing, KindOf(kind).value)
    requires Lists(listing, VersionTexts(s.repo, artifact))
    requires TagName(artifact, String(v)) !in s.repo.tags && RefNameOk(TagName(artifact, String(v)))
    ensures Reached(t, n + 2, true, s.members, lines)
    ensures t.calls == map[0 := ToRecord(artifact, v)] && t.db == s.db && t.members == s.members
    ensures t.repo.tags.Keys == s.repo.tags.Keys + {TagName(artifact, String(v))}
    ensures MainTree(t.repo) == MainTree(s.repo) && t.log.tagged == s.log.tagged + [(artifact, v)]
  {
    hide Can, EffectiveRole, String, Lists, VersionTexts, RefNameOk, Reached, DoRunTag, TagName, Next;
    t := OpenAlone(s, n, actor, artifact, kind, listing, v, lines);
    TagGoesThrough(t, 0, artifact, v);
    t := Go(t, n + 1, RunTag(0), true, s.members, lines);
  }

  /** A release that is cut off between its tag and its row. */
  lemma ReleaseIsCut(members: Memberships, actor: Actor, artifact: string, lines: LineMerge) returns (s: Sys)
    requires CanRelease(members, actor, artifact)
    ensures Reached(s, 3, true, members, lines)
    ensures s.members == members && s.calls == map[] && s.db.releases == []
    ensures s.repo.tags.Keys == {TagName(artifact, String(LOW))}
  {
    hide Can, EffectiveRole, String, Lists, VersionTexts, RefNameOk, Reached, TagName, Next;
    NoVersionsYet(EmptyRepo(), artifact);
    FirstVersions();
    s := Begin(members, lines);
    s := OpenAndTag(s, 0, actor, artifact, "patch", [], LOW, lines);
    s := Go(s, 2, Crash(0), true, members, lines);
  }

  /** After it a higher release that completes. */
  lemma CutThenHigher(members: Memberships, actor: Actor, artifact: string, lines: LineMerge) returns (s: Sys)
    requires CanRelease(members, actor, artifact)
    ensures Reached(s, 6, true, members, lines)
    ensures s.calls == map[] && s.repo.tags.Keys == {TagName(artifact, String(LOW)), TagName(artifact, String(HIGH))}
    ensures |s.db.releases| == 1 && s.db.releases[0].at == 0 && IsRelease(s.db.releases[0], artifact, String(HIGH))
  {
    hide Can, EffectiveRole, String, Lists, VersionTexts, RefNameOk, Reached, DoRecord, TagName, Next;
    DistinctTexts(artifact);
    FirstVersions();
    s := ReleaseIsCut(members, actor, artifact, lines);
    ListsTexts(s.repo, artifact, [String(LOW)]);
    s := OpenAndTag(s, 3, actor, artifact, "major", [String(LOW)], HIGH, lines);
    RowGoesIn(s, 0, artifact, HIGH);
    s := Go(s, 5, Record(0, true), true, members, lines);
  }

  /** A release that is cut off between tag and row, one that completes, and fsck afterwards: even in a serial run the
      newest row is then the lower release. */
  lemma RepairCanHideTheLatest(members: Memberships, actor: Actor, artifact: string, lines: LineMerge) returns (s: Sys)
    requires CanRelease(members, actor, artifact)
    ensures Reached(s, 7, true, members, lines)
    ensures NewestMisleads(s, artifact, [String(LOW), String(HIGH)])
  {
    hide CanRelease, String, RefNameOk, Reached, DoRepair, TagName, NewestMisleads;
    DistinctTexts(artifact);
    s := CutThenHigher(members, actor, artifact, lines);
    RepairAppends(s, artifact, String(LOW));
    s := Go(s, 6, Repair(artifact, String(LOW)), true, members, lines);
    LowAfterHigh(s, artifact);
  }

  lemma RepairAppends(s: Sys, artifact: string, version: string)
    requires TagName(artifact, version) in s.repo.tags && !HasRelease(s.db.releases, artifact, version)
    ensures var t := DoRepair(s, artifact, version);
            && t.calls == s.calls && t.repo == s.repo
            && t.db.releases == s.db.releases + [NewRelease(s.db, artifact, version, true)]
  {
    hide TagName, HasRelease, NewRelease;
  }

  /** fsck between a tag and its row inserts the row first, and the release call then fails on it. */
  lemma FsckCanBeFaster(members: Memberships, actor: Actor, artifact: string, lines: LineMerge) returns (s: Sys)
    requires CanRelease(members, actor, artifact)
    ensures Reached(s, 4, false, members, lines)
    ensures HitsUnique(s, 0) && FsckWasFaster(s, 0)
  {
    hide Can, EffectiveRole, String, RefNameOk, Reached, DoRunTag, DoRepair, TagName;
    s := TwoOpenReleases(members, actor, artifact, lines);
    TagGoesThrough(s, 0, artifact, LOW);
    s := Go(s, 2, RunTag(0), false, members, lines);
    RepairAppends(s, artifact, String(LOW));
    s := Go(s, 3, Repair(artifact, String(LOW)), false, members, lines);
    assert s.db.releases[0].rebuilt && IsRelease(s.db.releases[0], artifact, String(LOW));
  }

  // Work that is lost

  /** The write of the artifact as one file is always possible on an empty repository and on itself. */
  lemma WriteDot(r: Repo, branch: string, artifact: string, content: Content)
    requires IsSlug(artifact) && |content| <= MAX_FILE_BYTES
    requires forall p :: p in r.commits[CloneTip(r, branch, false)].tree ==> p == ["shared", artifact]
    ensures var (t, sha) := GitWrite(r, branch, artifact, [File(".", content)], false);
            && sha == Some(|r.commits|)
            && t == Repo(r.commits + [Child(CloneTip(r, branch, false), map[["shared", artifact] := content])],
                         r.heads[branch := |r.commits|], r.tags)
  {
    ValidRelPathExactly(".");
    var tree := r.commits[CloneTip(r, branch, false)].tree;
    var files := [File(".", content)];
    FullPathStaysUnder(artifact, ".");
    assert files[..0] == [];
    assert WriteAllowed(artifact, files);
    var p := FullPath(artifact, ".");
    assert p == ["shared", artifact] && Placeable(tree, p);
    assert PlaceAll(tree, artifact, files) == Some(tree[["shared", artifact] := content]);
    assert tree[["shared", artifact] := content] == map[["shared", artifact] := content];
  }

  lemma Wrote(s: Sys, actor: Actor, artifact: string, files: seq<File>)
    requires !s.solo && Can(EffectiveRole(s.members, actor), ArtifactWrite)
    requires GitWrite(s.repo, ProposalBranch(actor.username, artifact), artifact, files, false).1.Some?
    ensures var branch := ProposalBranch(actor.username, artifact);
            var (repo, sha) := GitWrite(s.repo, branch, artifact, files, false);
            var t := DoWrite(s, actor, artifact, files, false);
            && t == s.(repo := repo, log := t.log) && t.log.pending == s.log.pending + {branch}
  {
    hide GitWrite, ProposalBranch;
  }

  lemma MergeOpens(s: Sys, call: nat, actor: Actor, id: nat)
    requires call !in s.calls && id in s.db.proposals && s.db.proposals[id].status != Merged
    requires Can(EffectiveRole(s.members, actor), ProposalMerge)
    ensures DoOpenMerge(s, call, actor, id)
         == s.(calls := s.calls[call := ToMerge(actor, EffectiveRole(s.members, actor), id, s.db.proposals[id])])
  {
    hide Can, EffectiveRole;
  }

  lemma MergeRuns(s: Sys, call: nat, other: Option<nat>, lines: LineMerge)
    requires call in s.calls && s.calls[call].ToMerge? &&
        !GitMerge(s.repo, s.calls[call].row.branch, other, lines).1.MergeFailed?
    ensures var c := s.calls[call];
            var (repo, result) := GitMerge(s.repo, c.row.branch, other, lines);
            var t := DoRunMerge(s, call, other, lines);
            && LookUp(s.repo, c.row.branch, other).Some?
            && var tip := LookUp(s.repo, c.row.branch, other).value;
               t == s.(repo := repo, log := t.log, calls := s.calls[call := ToResolve(c.id, c.row, result, tip)])
  {
    hide LookUp, Included, ConflictPaths, MergedTree;
  }

  lemma ResolveSets(s: Sys, call: nat)
    requires call in s.calls && s.calls[call].ToResolve?
    ensures var c, t := s.calls[call], DoResolve(s, call, true);
            && t.repo == s.repo && t.members == s.members && t.solo == s.solo
            && t.calls == (if c.result.Conflicted? then s.calls - {call} else s.calls[call := ToDrop(c.row)])
            && t.db == (if c.result.Conflicted? then ResolveRow(s.db, c.id, Conflicting, c.result.paths)
                        else ResolveRow(s.db, c.id, Merged, {}))
  {
    hide ResolveRow;
  }

  ghost predicate OpenRow(s: Sys, id: nat, branch: string) {
    id in s.db.proposals && s.db.proposals[id].status == Open && s.db.proposals[id].branch == branch
  }

  lemma RowOpens(s: Sys, actor: Actor, artifact: string, id: nat)
    requires !s.solo && id !in s.db.proposals && Can(EffectiveRole(s.members, actor), ProposalCreate)
    ensures var t := DoPropose(s, actor, artifact, id);
            && t == s.(db := t.db) && id in t.db.proposals
            && t.db.proposals == s.db.proposals[id := t.db.proposals[id]]
            && OpenRow(t, id, ProposalBranch(actor.username, artifact))
  {
    hide ProposalBranch, Can, EffectiveRole;
  }

  ghost predicate CanWork(members: Memberships, writer: Actor) {
    Can(EffectiveRole(members, writer), ArtifactWrite) && Can(EffectiveRole(members, writer), ProposalCreate)
  }

  /** The two names of a branch story. */
  ghost predicate IsWorkBranch(branch: string, actor: Actor, artifact: string) {
    branch == ProposalBranch(actor.username, artifact) && branch != MAIN
  }

  lemma WorkBranch(actor: Actor, artifact: string)
    ensures IsWorkBranch(ProposalBranch(actor.username, artifact), actor, artifact)
  {
    UsernameIsPlain(actor.username);
    ProposalBranchInjective(actor.username, artifact, actor.username, artifact);
  }

  /** The first branch of an empty project. */
  ghost predicate FirstBranch(r: Repo, branch: string, artifact: string) {
    r == Repo([Root(map[]), Child(0, OneFile(artifact, "1"))], map[MAIN := 0, branch := 1], map[])
  }

  /** Written and proposed. */
  lemma WrittenAndProposed(members: Memberships, writer: Actor, artifact: string, lines: LineMerge) returns (s: Sys)
    requires CanWork(members, writer) && IsSlug(artifact)
    ensures Reached(s, 2, true, members, lines) && s.members == members && !s.solo && s.calls == map[]
    ensures var branch := ProposalBranch(writer.username, artifact);
            FirstBranch(s.repo, branch, artifact) && OpenRow(s, 7, branch) && branch != MAIN
  {
    hide Can, EffectiveRole, ProposalBranch, GitWrite, Reached, DoWrite, DoPropose;
    var branch := ProposalBranch(writer.username, artifact);
    WorkBranch(writer, artifact);
    s := Begin(members, lines);
    WriteDot(s.repo, branch, artifact, "1");
    Wrote(s, writer, artifact, [File(".", "1")]);
    s := Go(s, 0, Write(writer, artifact, [File(".", "1")], false), true, members, lines);
    RowOpens(s, writer, artifact, 7);
    s := Go(s, 1, Propose(writer, artifact, 7), true, members, lines);
  }

  /** Then merged and resolved, but not yet dropped. */
  lemma ResolvedNotDropped(members: Memberships, writer: Actor, merger: Actor, artifact: string, lines: LineMerge)
    returns (s: Sys)
    requires CanWork(members, writer) && Can(EffectiveRole(members, merger), ProposalMerge) && IsSlug(artifact)
    ensures Reached(s, 5, true, members, lines) && s.members == members && !s.solo
    ensures var branch := ProposalBranch(writer.username, artifact);
            && s.calls.Keys == {0} && s.calls[0].ToDrop? && s.calls[0].row.branch == branch != MAIN
            && branch in s.repo.heads && s.repo.commits[s.repo.heads[branch]].tree == OneFile(artifact, "1")
    ensures MainTree(s.repo) == OneFile(artifact, "1") && s.repo.tags == map[]
  {
    hide Can, EffectiveRole, ProposalBranch, GitWrite, GitMerge, LookUp, Included, Reached;
    hide DoOpenMerge, DoRunMerge, DoResolve, CanWork;
    s := WrittenAndProposed(members, writer, artifact, lines);
    FirstMerge(s.repo, ProposalBranch(writer.username, artifact), artifact, "1", lines);
    MergeOpens(s, 0, merger, 7);
    s := Go(s, 2, OpenMerge(0, merger, 7), true, members, lines);
    MergeRuns(s, 0, None, lines);
    s := Go(s, 3, RunMerge(0, None), true, members, lines);
    ResolveSets(s, 0);
    s := Go(s, 4, Resolve(0, true), true, members, lines);
  }

  lemma LogMeansTags(tags: map<string, nat>, tagged: Tagged)
    requires TagsOk(tags, tagged) && tagged != []
    ensures tags != map[]
  {
    assert TagOf(tagged[0]) in tags;
  }

  /** An artifact is on main, merged by a call that is done. */
  lemma OnMain(members: Memberships, writer: Actor, merger: Actor, artifact: string, lines: LineMerge) returns (s: Sys)
    requires CanWork(members, writer) && Can(EffectiveRole(members, merger), ProposalMerge) && IsSlug(artifact)
    ensures Reached(s, 6, true, members, lines) && s.members == members && s.calls == map[]
    ensures MainTree(s.repo) == OneFile(artifact, "1") && s.repo.tags == map[]
  {
    hide Can, EffectiveRole, Reached, ProposalBranch;
    s := ResolvedNotDropped(members, writer, merger, artifact, lines);
    s := Go(s, 5, Drop(0), true, members, lines);
  }

  /** After it a name that goes on after that of the artifact and a slash is released. */
  lemma NestedRelease(members: Memberships, writer: Actor, merger: Actor, artifact: string, lines: LineMerge)
    returns (s: Sys)
    requires CanWork(members, writer) && Can(EffectiveRole(members, merger), ProposalMerge) && IsSlug(artifact)
    requires CanRelease(members, merger, artifact + "/sub")
    ensures Reached(s, 8, true, members, lines) && artifact in ArtifactNames(s.repo)
    ensures s.log.tagged == [(artifact + "/sub", LOW)]
  {
    hide Can, EffectiveRole, String, RefNameOk, Reached, TagName, CanWork, Lists, VersionTexts, Next;
    hide Sound, RowsOk, TakenOk, ReleasesOk, TagsOk, CallsOk, OneWinner, PendingOk;
    s := OnMain(members, writer, merger, artifact, lines);
    SerialIsReached(s, 6, members, lines);
    ReachedIsInv(s, 6, members, lines);
    if s.log.tagged != [] {
      LogMeansTags(s.repo.tags, s.log.tagged);
    }
    NoVersionsYet(s.repo, artifact + "/sub");
    FirstVersions();
    s := OpenAndTag(s, 6, merger, artifact + "/sub", "patch", [], LOW, lines);
    assert ["shared", artifact] in MainTree(s.repo).Keys;
  }

  /** A branch that was merged, but not yet dropped, is written again. */
  lemma WrittenBeforeDrop(members: Memberships, writer: Actor, merger: Actor, artifact: string, lines: LineMerge)
    returns (s: Sys)
    requires CanWork(members, writer) && Can(EffectiveRole(members, merger), ProposalMerge) && IsSlug(artifact)
    ensures Reached(s, 6, false, members, lines) && DropsWork(s, Drop(0))
  {
    hide Can, EffectiveRole, ProposalBranch, GitWrite, Reached, DoWrite;
    s := ResolvedNotDropped(members, writer, merger, artifact, lines);
    SerialIsReached(s, 5, members, lines);
    WriteDot(s.repo, ProposalBranch(writer.username, artifact), artifact, "2");
    Wrote(s, writer, artifact, [File(".", "2")]);
    s := Go(s, 5, Write(writer, artifact, [File(".", "2")], false), false, members, lines);
  }

  /** A write that falls between the merge of its branch and the delete of that branch is lost. */
  lemma WorkCanBeLost(members: Memberships, writer: Actor, merger: Actor, artifact: string, lines: LineMerge)
    returns (s: Sys)
    requires CanWork(members, writer) && Can(EffectiveRole(members, merger), ProposalMerge) && IsSlug(artifact)
    ensures Reached(s, 7, false, members, lines) && !AllHeld(s)
  {
    hide Apply, DropsWork, AllHeld, Inv, CanWork, Can, EffectiveRole, Run.Valid;
    var before := WrittenBeforeDrop(members, writer, merger, artifact, lines);
    s := Go(before, 6, Drop(0), false, members, lines);
    var run: Run :| EndsIn(run, before, 6, false, members, lines);
    LengthOf(run);
    RunKeeps(run, 6);
    DropLoses(before, Drop(0), lines);
  }

  lemma LengthOf(run: Run)
    requires run.Valid()
    ensures |run.states| == |run.steps| + 1
  {
  }

  /** Merging the first branch of an empty project. */
  lemma FirstMerge(r: Repo, branch: string, artifact: string, content: Content, lines: LineMerge)
    requires branch != MAIN
    requires r == Repo([Root(map[]), Child(0, map[["shared", artifact] := content])],
                       map[MAIN := 0, branch := 1], map[])
    ensures var (t, result) := GitMerge(r, branch, None, lines);
            && result.MergedAt? && t.heads == map[MAIN := 2, branch := 1] && t.tags == r.tags
            && r.commits <= t.commits && |t.commits| == 3 && t.commits[2].tree == OneFile(artifact, content)
  {
    var base, tree := map[], map[["shared", artifact] := content];
    assert Anc(r.commits, 0) == {0};
    assert MergeBase(r.commits, 0, 1) == 0;
    assert MergeAt(base, base, tree, lines, ["shared", artifact]) == Clean(Some(content));
    assert MergedTree(base, base, tree, lines) == tree;
    assert ConflictPaths(base, base, tree, lines, branch) == {};
  }

  // Rows that stop being merged

  /** One file that is the artifact. */
  function OneFile(artifact: string, content: Content): Tree {
    map[["shared", artifact] := content]
  }

  predicate Apart(mine: string, theirs: string) {
    mine != theirs && mine != MAIN && theirs != MAIN
  }

  /** Both users cut their branches from the empty main. */
  ghost predicate TwoBranches(r: Repo, mine: string, theirs: string, artifact: string) {
    && r.commits == [Root(map[]), Child(0, OneFile(artifact, "2")), Child(0, OneFile(artifact, "1"))]
    && r.heads == map[MAIN := 0, theirs := 1, mine := 2]
  }

  /** The first is merged. */
  ghost predicate OneMerged(r: Repo, mine: string, theirs: string, artifact: string) {
    && r.commits == [Root(map[]), Child(0, OneFile(artifact, "2")), Child(0, OneFile(artifact, "1")),
                     Join(0, 2, OneFile(artifact, "1"))]
    && r.heads == map[MAIN := 3, theirs := 1, mine := 2]
  }

  /** The second was rewritten to agree with main. */
  ghost predicate Agreed(r: Repo, mine: string, theirs: string, artifact: string) {
    && r.commits == [Root(map[]), Child(0, OneFile(artifact, "2")), Child(0, OneFile(artifact, "1")),
                     Join(0, 2, OneFile(artifact, "1")), Child(1, OneFile(artifact, "1"))]
    && r.heads == map[MAIN := 3, theirs := 4, mine := 2]
  }

  lemma MineMerges(r: Repo, mine: string, theirs: string, artifact: string, lines: LineMerge)
    requires TwoBranches(r, mine, theirs, artifact) && Apart(mine, theirs)
    ensures var (t, result) := GitMerge(r, mine, None, lines); result.MergedAt? && OneMerged(t, mine, theirs, artifact)
  {
    var empty, tree := map[], OneFile(artifact, "1");
    assert Anc(r.commits, 0) == {0};
    assert MergeBase(r.commits, 0, 2) == 0;
    assert MergeAt(empty, empty, tree, lines, ["shared", artifact]) == Clean(Some("1"));
    assert MergedTree(empty, empty, tree, lines) == tree;
    assert ConflictPaths(empty, empty, tree, lines, mine) == {};
  }

  lemma TheirsClash(r: Repo, mine: string, theirs: string, artifact: string, lines: LineMerge)
    requires OneMerged(r, mine, theirs, artifact) && Apart(mine, theirs) && lines.file(None, "1", "2").None?
    ensures var (t, result) := GitMerge(r, theirs, None, lines); result.Conflicted? && t == r
  {
    var empty, p := map[], ["shared", artifact];
    assert Anc(r.commits, 0) == {0} && Anc(r.commits, 1) == {0, 1} && Anc(r.commits, 2) == {0, 2};
    assert Anc(r.commits, 3) == {0, 2, 3};
    assert MergeBase(r.commits, 3, 1) == 0;
    assert MergeAt(empty, OneFile(artifact, "1"), OneFile(artifact, "2"), lines, p).Clash?;
    assert p in ConflictPaths(empty, OneFile(artifact, "1"), OneFile(artifact, "2"), lines, theirs);
  }

  lemma TheirsAgrees(r: Repo, mine: string, theirs: string, artifact: string)
    requires OneMerged(r, mine, theirs, artifact) && Apart(mine, theirs) && IsSlug(artifact)
    ensures var (t, sha) := GitWrite(r, theirs, artifact, [File(".", "1")], false);
            sha.Some? && Agreed(t, mine, theirs, artifact)
  {
    hide GitWrite, IsSlug;
    WriteDot(r, theirs, artifact, "1");
  }

  lemma TheirsMerges(r: Repo, mine: string, theirs: string, artifact: string, lines: LineMerge)
    requires Agreed(r, mine, theirs, artifact) && Apart(mine, theirs)
    ensures GitMerge(r, theirs, None, lines).1.MergedAt?
  {
    var empty, tree := map[], OneFile(artifact, "1");
    assert Anc(r.commits, 0) == {0} && Anc(r.commits, 1) == {0, 1} && Anc(r.commits, 2) == {0, 2};
    assert Anc(r.commits, 3) == {0, 2, 3} && Anc(r.commits, 4) == {0, 1, 4};
    assert MergeBase(r.commits, 3, 4) == 0;
    assert MergedTree(empty, tree, tree, lines) == tree;
    assert ConflictPaths(empty, tree, tree, lines, theirs) == {};
  }

  /** Two branches, cut from the empty main. */
  lemma BothWrite(members: Memberships, a: Actor, b: Actor, artifact: string, lines: LineMerge) returns (s: Sys)
    requires CanWork(members, a) && CanWork(members, b) && IsSlug(artifact) && a.username != b.username
    ensures Reached(s, 4, false, members, lines)
    ensures var mine, theirs := ProposalBranch(a.username, artifact), ProposalBranch(b.username, artifact);
            && TwoBranches(s.repo, mine, theirs, artifact) && Apart(mine, theirs)
            && s.members == members && !s.solo && s.calls == map[]
            && OpenRow(s, 7, mine) && OpenRow(s, 8, theirs)
  {
    hide Can, EffectiveRole, ProposalBranch, GitWrite, Reached, DoWrite, DoPropose;
    var mine, theirs := ProposalBranch(a.username, artifact), ProposalBranch(b.username, artifact);
    WorkBranch(a, artifact);
    WorkBranch(b, artifact);
    UsernameIsPlain(a.username);
    UsernameIsPlain(b.username);
    ProposalBranchInjective(a.username, artifact, b.username, artifact);
    s := Begin(members, lines);
    SerialIsReached(s, 0, members, lines);
    WriteDot(s.repo, theirs, artifact, "2");
    Wrote(s, b, artifact, [File(".", "2")]);
    s := Go(s, 0, Write(b, artifact, [File(".", "2")], false), false, members, lines);
    WriteDot(s.repo, mine, artifact, "1");
    Wrote(s, a, artifact, [File(".", "1")]);
    s := Go(s, 1, Write(a, artifact, [File(".", "1")], false), false, members, lines);
    RowOpens(s, a, artifact, 7);
    s := Go(s, 2, Propose(a, artifact, 7), false, members, lines);
    RowOpens(s, b, artifact, 8);
    s := Go(s, 3, Propose(b, artifact, 8), false, members, lines);
  }

  /** The first is merged by call 0, which stops there; the merge of the second by call 1 hits conflicts. */
  lemma SecondClashes(members: Memberships, a: Actor, b: Actor, merger: Actor, artifact: string, lines: LineMerge)
    returns (s: Sys)
    requires CanWork(members, a) && CanWork(members, b) && Can(EffectiveRole(members, merger), ProposalMerge)
    requires IsSlug(artifact) && a.username != b.username && lines.file(None, "1", "2").None?
    ensures Reached(s, 8, false, members, lines)
    ensures var mine, theirs := ProposalBranch(a.username, artifact), ProposalBranch(b.username, artifact);
            && OneMerged(s.repo, mine, theirs, artifact) && Apart(mine, theirs)
            && s.members == members && !s.solo && s.calls.Keys == {0, 1}
            && s.calls[1].ToResolve? && s.calls[1].id == 8 && s.calls[1].result.Conflicted?
            && OpenRow(s, 8, theirs)
  {
    hide Can, EffectiveRole, ProposalBranch, GitMerge, LookUp, Included, Reached, DoOpenMerge, DoRunMerge;
    hide TwoBranches, OneMerged, CanWork;
    var mine, theirs := ProposalBranch(a.username, artifact), ProposalBranch(b.username, artifact);
    s := BothWrite(members, a, b, artifact, lines);
    MineMerges(s.repo, mine, theirs, artifact, lines);
    MergeOpens(s, 0, merger, 7);
    s := Go(s, 4, OpenMerge(0, merger, 7), false, members, lines);
    MergeRuns(s, 0, None, lines);
    s := Go(s, 5, RunMerge(0, None), false, members, lines);
    TheirsClash(s.repo, mine, theirs, artifact, lines);
    MergeOpens(s, 1, merger, 8);
    s := Go(s, 6, OpenMerge(1, merger, 8), false, members, lines);
    MergeRuns(s, 1, None, lines);
    s := Go(s, 7, RunMerge(1, None), false, members, lines);
  }

  /** ResolveProposal has no guard: a call whose merge hit conflicts, but whose bookkeeping comes after that of another
      call that merged the row, turns the merged row into a conflicted one. */
  lemma MergedRowCanReopen(members: Memberships, a: Actor, b: Actor, merger: Actor, artifact: string, lines: LineMerge)
    returns (before: Sys, after: Sys)
    requires CanWork(members, a) && CanWork(members, b) && Can(EffectiveRole(members, merger), ProposalMerge)
    requires IsSlug(artifact) && a.username != b.username && lines.file(None, "1", "2").None?
    ensures Reached(before, 12, false, members, lines) && HasMerged(before, 8)
    ensures after == Apply(before, Resolve(1, true), lines) && Reached(after, 13, false, members, lines)
    ensures 8 in after.db.proposals && after.db.proposals[8].status == Conflicting
  {
    hide Can, EffectiveRole, ProposalBranch, GitWrite, GitMerge, LookUp, Included, Reached;
    hide DoWrite, DoOpenMerge, DoRunMerge, DoResolve, OneMerged, Agreed, IsSlug;
    var mine, theirs := ProposalBranch(a.username, artifact), ProposalBranch(b.username, artifact);
    var s := SecondClashes(members, a, b, merger, artifact, lines);
    TheirsAgrees(s.repo, mine, theirs, artifact);
    Wrote(s, b, artifact, [File(".", "1")]);
    s := Go(s, 8, Write(b, artifact, [File(".", "1")], false), false, members, lines);
    TheirsMerges(s.repo, mine, theirs, artifact, lines);
    MergeOpens(s, 2, merger, 8);
    s := Go(s, 9, OpenMerge(2, merger, 8), false, members, lines);
    MergeRuns(s, 2, None, lines);
    s := Go(s, 10, RunMerge(2, None), false, members, lines);
    ResolveSets(s, 2);
    before := Go(s, 11, Resolve(2, true), false, members, lines);
    ResolveSets(before, 1);
    after := Go(before, 12, Resolve(1, true), false, members, lines);
  }

  /** The step is the bookkeeping of a call on row id whose merge hit conflicts. */
  ghost predicate Reopens(s: Sys, step: Step, id: nat) {
    && step.Resolve? && step.dbOk && step.call in s.calls
    && s.calls[step.call].ToResolve? && s.calls[step.call].id == id && s.calls[step.call].result.Conflicted?
  }

  /** That is the only way out: a merged row stays merged through a step if and only if the step is not one. */
  lemma MergedStaysExactly(s: Sys, step: Step, id: nat, lines: LineMerge)
    requires id in s.db.proposals && s.db.proposals[id].status == Merged
    ensures id in Apply(s, step, lines).db.proposals
    ensures Apply(s, step, lines).db.proposals[id].status == Merged <==> !Reopens(s, step, id)
  {
    hide GitWrite, GitMerge, GitDelete, GitTag, Lists, Can, EffectiveRole, String, Latest, Bump, HasRelease;
    if !step.Resolve? && !step.Propose? {
      OtherStepsKeepRows(s, step, lines);
    }
  }

  lemma MergedStep(run: Run, k: nat, id: nat)
    requires run.Valid() && k < |run.steps| && HasMerged(run.states[k], id)
    ensures HasMerged(run.states[k + 1], id) <==> !Reopens(run.states[k], run.steps[k], id)
  {
    hide Apply, Reopens;
    assert run.Stepped(k);
    MergedStaysExactly(run.states[k], run.steps[k], id, run.lines);
  }

  /** The call is between its read of row id and the bookkeeping of it. */
  ghost predicate Handles(s: Sys, call: nat, id: nat) {
    call in s.calls && (s.calls[call].ToMerge? || s.calls[call].ToResolve?) && s.calls[call].id == id
  }

  /** Step j opens the call on row id, and it has not come to its bookkeeping before step k. */
  ghost predicate HandlesSince(run: Run, j: nat, k: nat, call: nat, id: nat)
    requires run.Valid() && j < k < |run.states|
  {
    && run.steps[j].OpenMerge? && run.steps[j].call == call && run.steps[j].id == id
    && call !in run.states[j].calls && forall i :: j < i <= k ==> Handles(run.states[i], call, id)
  }

  /** Step k books conflicts for a call on row id that was opened at step j, and between the two another call booked a
      clean merge of that row. */
  ghost predicate OverruledSince(run: Run, j: nat, m: nat, k: nat, id: nat)
    requires run.Valid() && j < m < k < |run.steps|
  {
    && Reopens(run.states[k], run.steps[k], id) && HandlesSince(run, j, k, run.steps[k].call, id)
    && Merges(run.states[m], run.steps[m], id) && run.steps[m].call != run.steps[k].call
  }

  ghost predicate Overruled(run: Run, k: nat)
    requires run.Valid() && k < |run.steps|
  {
    exists j, m, id :: 0 <= j < m < k && OverruledSince(run, j, m, k, id)
  }

  /** Such a call read a row that was not merged. */
  lemma HandlingStep(s: Sys, step: Step, call: nat, id: nat, lines: LineMerge)
    requires Handles(Apply(s, step, lines), call, id) && !Handles(s, call, id)
    ensures step.OpenMerge? && step.call == call && step.id == id && call !in s.calls
    ensures id in s.db.proposals && !HasMerged(Apply(s, step, lines), id)
  {
    hide GitWrite, GitMerge, GitDelete, GitTag, Lists, Can, EffectiveRole, String, Latest, Bump, HasRelease, LookUp;
    hide VersionTexts, ProposalBranch, TagName, ResolveRow, CreateReleaseRow, EnsureReleaseRow, Included;
  }

  lemma {:induction false} HandlerWasOpened(run: Run, k: nat, call: nat, id: nat) returns (j: nat)
    requires run.Valid() && k < |run.states| && Handles(run.states[k], call, id)
    ensures j < k && HandlesSince(run, j, k, call, id) && !HasMerged(run.states[j + 1], id)
  {
    hide Apply, Handles, HasMerged;
    assert k > 0 by { NobodyHandles(run.states[0].solo, run.states[0].members, call, id); }
    assert run.Stepped(k - 1);
    if Handles(run.states[k - 1], call, id) {
      j := HandlerWasOpened(run, k - 1, call, id);
    } else {
      j := k - 1;
      HandlingStep(run.states[j], run.steps[j], call, id, run.lines);
    }
  }

  lemma NobodyHandles(solo: bool, members: Memberships, call: nat, id: nat)
    ensures !Handles(Init(solo, members), call, id)
  {
  }

  lemma {:induction false} MergedBetween(run: Run, j: nat, k: nat, id: nat) returns (m: nat)
    requires run.Valid() && j <= k < |run.states| && !HasMerged(run.states[j], id) && HasMerged(run.states[k], id)
    ensures j <= m < k && Merges(run.states[m], run.steps[m], id)
  {
    hide Apply, HasMerged, Merges;
    assert k > 0 && run.Stepped(k - 1);
    if HasMerged(run.states[k - 1], id) {
      m := MergedBetween(run, j, k - 1, id);
    } else {
      m := k - 1;
      MergingStep(run.states[m], run.steps[m], id, run.lines);
    }
  }

  /** The call of that step has done its bookkeeping. */
  lemma MergerIsDone(run: Run, m: nat, id: nat)
    requires run.Valid() && m < |run.steps| && Merges(run.states[m], run.steps[m], id)
    ensures HasMerged(run.states[m + 1], id) && !Handles(run.states[m + 1], run.steps[m].call, id)
  {
    hide ResolveRow;
    assert run.Stepped(m);
    ResolvedIsMerged(run.states[m].db, id);
  }

  lemma ResolvedIsMerged(t: Rows, id: nat)
    requires id in t.proposals
    ensures var u := ResolveRow(t, id, Merged, {}); id in u.proposals && u.proposals[id].status == Merged
  {
  }

  /** A merged row that is reopened at step k is reopened by an overruled call. */
  lemma ReopenerIsOverruled(run: Run, k: nat, id: nat)
    requires run.Valid() && k < |run.steps| && HasMerged(run.states[k], id)
    requires Reopens(run.states[k], run.steps[k], id)
    ensures Overruled(run, k)
  {
    hide Apply, HasMerged, Merges, Run.Valid;
    LengthOf(run);
    var call := run.steps[k].call;
    var j := HandlerWasOpened(run, k, call, id);
    var m := MergedBetween(run, j + 1, k, id);
    MergerIsDone(run, m, id);
    assert OverruledSince(run, j, m, k, id);
  }

  /** Merged rows stay merged throughout a run if and only if no call of the run is overruled: no call books conflicts
      for a row that another call booked as merged after this one read it. */
  lemma MergedStaysThroughout(run: Run)
    requires run.Valid()
    ensures (forall j, k, id :: 0 <= j <= k < |run.states| && HasMerged(run.states[j], id) ==>
               HasMerged(run.states[k], id)) <==>
            (forall k :: 0 <= k < |run.steps| ==> !Overruled(run, k))
  {
    hide HasMerged, Reopens, Merges, HandlesSince;
    if k :| 0 <= k < |run.steps| && Overruled(run, k) {
      var j, m, id :| 0 <= j < m < k && OverruledSince(run, j, m, k, id);
      MergerIsDone(run, m, id);
      if HasMerged(run.states[k], id) {
        MergedStep(run, k, id);
        assert !HasMerged(run.states[k + 1], id);
      } else {
        assert HasMerged(run.states[m + 1], id);
      }
    } else {
      forall j, k, id | 0 <= j <= k < |run.states| && HasMerged(run.states[j], id)
        ensures HasMerged(run.states[k], id)
      {
        MergedSoFar(run, j, k, id);
      }
    }
  }

  lemma {:induction false} MergedSoFar(run: Run, j: nat, k: nat, id: nat)
    requires run.Valid() && j <= k < |run.states| && HasMerged(run.states[j], id)
    requires forall i :: 0 <= i < |run.steps| ==> !Overruled(run, i)
    ensures HasMerged(run.states[k], id)
  {
    hide HasMerged, Reopens, Overruled, Apply;
    if j < k {
      MergedSoFar(run, j, k - 1, id);
      MergedStep(run, k - 1, id);
      if Reopens(run.states[k - 1], run.steps[k - 1], id) {
        ReopenerIsOverruled(run, k - 1, id);
      }
    }
  }
}
