/** Proposals whose branch does not exist when they are merged: git then reads the branch name as a revision, doc~1 as
    the commit before the tip of the branch for doc, and the merge changes shared/doc, which is not the artifact of
    the row. */
module Strays {
  import opened Wrappers
  import opened Paths
  import opened FileTree
  import opened Dag
  import opened Repos
  import opened Authz
  import opened Service
  import opened Invariants
  import opened Limits

  /** Whatever the history and whatever commit git may read in the name, merging this proposal changes main inside the
      row's own artifact only; the histories are those that have the branch, or those that do not. */
  ghost predicate AlwaysInside(u: string, artifact: string, branchExists: bool, lines: LineMerge) {
    forall r: Repo, other: Option<nat> :: Sound(r) && (ProposalBranch(u, artifact) in r.heads) == branchExists ==>
      SameOutside(MainTree(r), MainTree(GitMerge(r, ProposalBranch(u, artifact), other, lines).0), artifact)
  }

  /** One write to the branch of a slug. */
  function OneWrite(u: string, slug: string): Repo {
    GitWrite(EmptyRepo(), ProposalBranch(u, slug), slug, [File(".", "1")], false).0
  }

  /** The first commit after the root holds one file, and main is still at the root. */
  ghost predicate FirstAhead(r: Repo, slug: string) {
    && |r.commits| > 1 && r.commits[0] == Root(map[]) && r.commits[1] == Child(0, OneFile(slug, "1"))
    && r.heads[MAIN] == 0
  }

  /** Merging that commit under any name without a branch brings the artifact of the slug to main. */
  lemma FirstCommitMerges(r: Repo, slug: string, name: string, lines: LineMerge)
    requires FirstAhead(r, slug) && name !in r.heads
    ensures MainTree(r) == map[]
    ensures var (t, result) := GitMerge(r, name, Some(1), lines); result.MergedAt? && MainTree(t) == OneFile(slug, "1")
  {
    var empty, tree := map[], OneFile(slug, "1");
    assert Anc(r.commits, 0) == {0} && Anc(r.commits, 1) == {0, 1};
    assert MergeBase(r.commits, 0, 1) == 0;
    assert MergeAt(empty, empty, tree, lines, ["shared", slug]) == Clean(Some("1"));
    assert MergedTree(empty, empty, tree, lines) == tree;
    assert ConflictPaths(empty, empty, tree, lines, name) == {};
  }

  /** Which is outside any other artifact. */
  lemma OneFileIsOutside(slug: string, artifact: string)
    requires slug != artifact
    ensures !SameOutside(map[], OneFile(slug, "1"), artifact)
  {
    var p := ["shared", slug];
    assert p[1] == slug;
    assert !Under(p, artifact);
    assert At(OneFile(slug, "1"), p) == Some("1") && At(map[], p) == None;
  }

  lemma FirstCommitStrays(r: Repo, slug: string, name: string, artifact: string, lines: LineMerge)
    requires FirstAhead(r, slug) && name !in r.heads && slug != artifact
    ensures !SameOutside(MainTree(r), MainTree(GitMerge(r, name, Some(1), lines).0), artifact)
  {
    hide SameOutside, GitMerge;
    FirstCommitMerges(r, slug, name, lines);
    OneFileIsOutside(slug, artifact);
  }

  lemma OneWriteIsAhead(u: string, slug: string)
    requires NoSlash(u) && IsSlug(slug)
    ensures FirstAhead(OneWrite(u, slug), slug) && Sound(OneWrite(u, slug))
    ensures OneWrite(u, slug).heads == map[MAIN := 0, ProposalBranch(u, slug) := 1]
  {
    hide GitWrite, IsSlug, Sound;
    ProposalBranchInjective(u, slug, u, slug);
    WriteDot(EmptyRepo(), ProposalBranch(u, slug), slug, "1");
    EmptyIsSound();
    assert IsBranchOf(ProposalBranch(u, slug), slug);
    WriteKeepsSound(EmptyRepo(), ProposalBranch(u, slug), slug, [File(".", "1")], false);
  }

  lemma TwoSlugs()
    ensures IsSlug("doc") && IsSlug("foo") && "doc" != "foo"
  {
  }

  /** The exact condition a caller can check: the merge of a proposal stays inside the row's own artifact, for every
      history and every reading, if and only if the histories are those in which the branch of the row exists. No form
      of the name is safe without it, a plain slug included. */
  lemma ConfinedExactly(u: string, artifact: string, branchExists: bool, lines: LineMerge)
    requires NoSlash(u)
    ensures AlwaysInside(u, artifact, branchExists, lines) <==> branchExists
  {
    hide GitMerge, Sound, SameOutside, IsSlug, OneWrite, FirstAhead;
    var name := ProposalBranch(u, artifact);
    if branchExists {
      forall r: Repo, other: Option<nat> | Sound(r) && name in r.heads
        ensures SameOutside(MainTree(r), MainTree(GitMerge(r, name, other, lines).0), artifact)
      {
        MergeConfined(r, u, artifact, other, lines);
      }
    } else {
      TwoSlugs();
      var slug := if artifact == "doc" then "foo" else "doc";
      OneWriteIsAhead(u, slug);
      ProposalBranchInjective(u, artifact, u, slug);
      FirstCommitStrays(OneWrite(u, slug), slug, name, artifact, lines);
    }
  }

  // Runs that stray

  /** One or two writes to the branch of a slug, and nothing else. */
  lemma WritesAhead(members: Memberships, writer: Actor, slug: string, twice: bool, lines: LineMerge) returns (s: Sys)
    requires CanWork(members, writer) && IsSlug(slug)
    ensures Reached(s, if twice then 2 else 1, true, members, lines) && FirstAhead(s.repo, slug)
    ensures s.members == members && !s.solo && s.calls == map[] && s.db.proposals == map[]
    ensures var branch := ProposalBranch(writer.username, slug);
            && s.repo.heads.Keys == {MAIN, branch} && branch != MAIN
            && s.repo.heads[branch] == (if twice then 2 else 1)
            && (twice ==> |s.repo.commits| == 3 && s.repo.commits[2] == Child(1, OneFile(slug, "2")))
  {
    hide Can, EffectiveRole, GitWrite, IsSlug, Reached, DoWrite, ProposalBranch;
    var branch := ProposalBranch(writer.username, slug);
    WorkBranch(writer, slug);
    s := Begin(members, lines);
    WriteDot(s.repo, branch, slug, "1");
    Wrote(s, writer, slug, [File(".", "1")]);
    s := Go(s, 0, Write(writer, slug, [File(".", "1")], false), true, members, lines);
    if twice {
      WriteDot(s.repo, branch, slug, "2");
      Wrote(s, writer, slug, [File(".", "2")]);
      s := Go(s, 1, Write(writer, slug, [File(".", "2")], false), true, members, lines);
    }
  }

  /** A row for another artifact is proposed and opened for merging. */
  lemma OpensStray(s: Sys, n: nat, writer: Actor, merger: Actor, artifact: string, lines: LineMerge) returns (t: Sys)
    requires Reached(s, n, true, s.members, lines) && n < 10 && !s.solo && s.calls == map[] && s.db.proposals == map[]
    requires CanWork(s.members, writer) && Can(EffectiveRole(s.members, merger), ProposalMerge)
    ensures Reached(t, n + 2, true, s.members, lines) && t.repo == s.repo
    ensures 0 in t.calls && t.calls[0].ToMerge? && t.calls[0].row.artifact == artifact
    ensures t.calls[0].row.branch == ProposalBranch(writer.username, artifact)
  {
    hide Can, EffectiveRole, Reached, ProposalBranch, DoOpenMerge;
    t := Go(s, n, Propose(writer, artifact, 7), true, s.members, lines);
    MergeOpens(t, 0, merger, 7);
    t := Go(t, n + 1, OpenMerge(0, merger, 7), true, s.members, lines);
  }

  lemma StrayStep(s: Sys, slug: string, lines: LineMerge)
    requires 0 in s.calls && s.calls[0].ToMerge? && FirstAhead(s.repo, slug)
    requires s.calls[0].row.branch !in s.repo.heads && s.calls[0].row.artifact != slug
    ensures !SameOutside(MainTree(s.repo), MainTree(Apply(s, RunMerge(0, Some(1)), lines).repo),
        s.calls[0].row.artifact)
  {
    hide GitMerge, SameOutside, Included;
    FirstCommitMerges(s.repo, slug, s.calls[0].row.branch, lines);
    FirstCommitStrays(s.repo, slug, s.calls[0].row.branch, s.calls[0].row.artifact, lines);
    MergeRuns(s, 0, Some(1), lines);
  }

  /** For every artifact name, slugs included, a serial run in which the row has no branch, git reads the tip of another
      one in its name, and the merge changes main outside the row's artifact. */
  lemma RowsCanStray(members: Memberships, writer: Actor, merger: Actor, artifact: string, slug: string,
                     lines: LineMerge)
    returns (before: Sys)
    requires CanWork(members, writer) && Can(EffectiveRole(members, merger), ProposalMerge)
    requires IsSlug(slug) && slug != artifact
    ensures Reached(before, 3, true, members, lines)
    ensures 0 in before.calls && before.calls[0].ToMerge? && before.calls[0].row.artifact == artifact
    ensures ProposalBranch(writer.username, slug) in before.repo.heads
    ensures before.repo.heads[ProposalBranch(writer.username, slug)] == 1
    ensures !SameOutside(MainTree(before.repo), MainTree(Apply(before, RunMerge(0, Some(1)), lines).repo), artifact)
  {
    hide IsSlug, Reached, ProposalBranch, SameOutside, FirstAhead, CanWork, Can, EffectiveRole, Apply;
    var s := WritesAhead(members, writer, slug, false, lines);
    before := OpensStray(s, 1, writer, merger, artifact, lines);
    UsernameIsPlain(writer.username);
    ProposalBranchInjective(writer.username, artifact, writer.username, slug);
    StrayStep(before, slug, lines);
  }

  /** The name doc~1: after two writes to doc the commit read in it is the parent of the tip. */
  lemma DocTildeOneStrays(members: Memberships, writer: Actor, merger: Actor, lines: LineMerge) returns (before: Sys)
    requires CanWork(members, writer) && Can(EffectiveRole(members, merger), ProposalMerge)
    ensures Reached(before, 4, true, members, lines)
    ensures 0 in before.calls && before.calls[0].ToMerge? && before.calls[0].row.artifact == "doc~1"
    ensures var branch := ProposalBranch(writer.username, "doc");
            && branch in before.repo.heads
            && before.repo.commits[before.repo.heads[branch]] == Child(1, OneFile("doc", "2"))
    ensures !SameOutside(MainTree(before.repo), MainTree(Apply(before, RunMerge(0, Some(1)), lines).repo), "doc~1")
  {
    hide IsSlug, Reached, ProposalBranch, SameOutside, FirstAhead, CanWork, Can, EffectiveRole, Apply, OneFile;
    TwoSlugs();
    var s := WritesAhead(members, writer, "doc", true, lines);
    before := OpensStray(s, 2, writer, merger, "doc~1", lines);
    UsernameIsPlain(writer.username);
    ProposalBranchInjective(writer.username, "doc~1", writer.username, "doc");
    StrayStep(before, "doc", lines);
  }

  /** A slug of the form git takes for an abbreviated commit hash. */
  lemma SlugStrays(members: Memberships, writer: Actor, merger: Actor, lines: LineMerge) returns (before: Sys)
    requires CanWork(members, writer) && Can(EffectiveRole(members, merger), ProposalMerge)
    ensures IsSlug("foo-g1a2b3c4") && Reached(before, 3, true, members, lines)
    ensures 0 in before.calls && before.calls[0].ToMerge? && before.calls[0].row.artifact == "foo-g1a2b3c4"
    ensures !SameOutside(MainTree(before.repo), MainTree(Apply(before, RunMerge(0, Some(1)), lines).repo),
        "foo-g1a2b3c4")
  {
    hide Reached, SameOutside, CanWork, Can, EffectiveRole, Apply;
    TwoSlugs();
    before := RowsCanStray(members, writer, merger, "foo-g1a2b3c4", "doc", lines);
  }
}
