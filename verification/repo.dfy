/** One bare repository as a value, and the gitstore calls as atomic steps on it. */
module Repos {
  import opened Wrappers
  import opened Paths
  import opened FileTree
  import opened Dag

  const MAX_FILE_BYTES := 0x10_0000
  const MAX_FILES_WRITE := 200

  datatype RepoData = Repo(commits: History, heads: map<string, nat>, tags: map<string, nat>) {
    ghost predicate WellFormed() {
      && MAIN in heads
      && (forall b :: b in heads ==> heads[b] < |commits|)
      && (forall t :: t in tags ==> tags[t] < |commits|)
    }
  }

  type Repo = r: RepoData | r.WellFormed() ghost witness Repo([Root(map[])], map[MAIN := 0], map[])

  /** What EnsureRepo leaves: one empty commit on main. */
  function EmptyRepo(): Repo {
    Repo([Root(map[])], map[MAIN := 0], map[])
  }

  /** The commits reachable from main. */
  function Trunk(r: Repo): set<nat> {
    Anc(r.commits, r.heads[MAIN])
  }

  function MainTree(r: Repo): Tree {
    r.commits[r.heads[MAIN]].tree
  }

  // Calls

  /** The checks WriteFiles makes before it takes the lock. */
  predicate WriteAllowed(artifact: string, files: seq<File>) {
    && IsSlug(artifact)
    && 1 <= |files| <= MAX_FILES_WRITE
    && forall i :: 0 <= i < |files| ==> ValidRelPath(files[i].path) && |files[i].content| <= MAX_FILE_BYTES
  }

  /** Where a clone for branch starts: the branch, or main when there is no such branch or cloning it failed. */
  function CloneTip(r: Repo, branch: string, fallback: bool): nat {
    if branch in r.heads && !fallback then r.heads[branch] else r.heads[MAIN]
  }

  /** The commit WriteFiles makes in its clone; None when a check or a file write fails. */
  function WriteCommit(r: Repo, branch: string, artifact: string, files: seq<File>, fallback: bool): Option<Commit> {
    var tip := CloneTip(r, branch, fallback);
    if !WriteAllowed(artifact, files) then None
    else match PlaceAll(r.commits[tip].tree, artifact, files)
      case None => None
      case Some(tree) => Some(Child(tip, tree))
  }

  /** A plain push of a new commit on tip is accepted: the branch is new or its head is behind the commit. */
  predicate Forward(r: Repo, branch: string, tip: nat)
    requires tip < |r.commits|
  {
    branch in r.heads ==> r.heads[branch] in Anc(r.commits, tip)
  }

  /** WriteFiles: the repository afterwards and the sha returned. */
  function GitWrite(r: Repo, branch: string, artifact: string, files: seq<File>, fallback: bool): (Repo, Option<nat>) {
    match WriteCommit(r, branch, artifact, files, fallback)
    case None => (r, None)
    case Some(c) =>
      var sha := |r.commits|;
      if !Forward(r, branch, CloneTip(r, branch, fallback)) then (r, None)
      else (Repo(r.commits + [c], r.heads[branch := sha], r.tags), Some(sha))
  }

  /** The commit that git reads in a name: the branch if there is one, else any commit or none, depending on how the
      name reads as a revision: doc~1, doc^{}, doc@{0}, or the abbreviated hash in doc-g1a2b3c4. */
  function LookUp(r: Repo, name: string, other: Option<nat>): (c: Option<nat>)
    ensures c.Some? ==> c.value < |r.commits|
    ensures name in r.heads ==> c == Some(r.heads[name])
  {
    if name in r.heads then Some(r.heads[name])
    else if other.Some? && other.value < |r.commits| then other
    else None
  }

  /** The branches whose tip is in the history of commit c. */
  function Included(r: Repo, c: nat): set<string>
    requires c < |r.commits|
  {
    set b | b in r.heads.Keys && b != MAIN && r.heads[b] in Anc(r.commits, c)
  }

  datatype MergeResult = MergeFailed | Conflicted(paths: set<Path>) | MergedAt(sha: nat)

  /** The outcome of git merge in the clone: what main becomes, and the commit to create if any. */
  datatype MergePlan = NoBranch | UpToDate | Blocked(paths: set<Path>) | Create(commit: Commit)

  function PlanMerge(r: Repo, branch: string, other: Option<nat>, lines: LineMerge): MergePlan {
    if LookUp(r, branch, other).None? then NoBranch
    else
      var ours, theirs := r.heads[MAIN], LookUp(r, branch, other).value;
      if theirs in Anc(r.commits, ours) then UpToDate
      else
        var base := r.commits[MergeBase(r.commits, ours, theirs)].tree;
        var ourTree, theirTree := r.commits[ours].tree, r.commits[theirs].tree;
        var conflicts := ConflictPaths(base, ourTree, theirTree, lines, branch);
        if conflicts != {} then Blocked(conflicts)
        else Create(Join(ours, theirs, MergedTree(base, ourTree, theirTree, lines)))
  }

  /** Merge: the repository afterwards and its result. */
  function GitMerge(r: Repo, branch: string, other: Option<nat>, lines: LineMerge): (Repo, MergeResult) {
    match PlanMerge(r, branch, other, lines)
    case NoBranch => (r, MergeFailed)
    case UpToDate => (r, MergedAt(r.heads[MAIN]))
    case Blocked(paths) => (r, Conflicted(paths))
    case Create(c) =>
      var sha := |r.commits|;
      (Repo(r.commits + [c], r.heads[MAIN := sha], r.tags), MergedAt(sha))
  }

  /** DeleteBranch, with whether git found the branch. Callers only ever pass proposal branches. */
  function GitDelete(r: Repo, branch: string): (Repo, bool) {
    if branch in r.heads && branch != MAIN then (Repo(r.commits, r.heads - {branch}, r.tags), true)
    else (r, false)
  }

  /** Characters git refuses in a ref name. */
  predicate RefChar(c: char) {
    c > ' ' && c !in "~^:?*[\\" && c != 0x7f as char
  }

  predicate RefNameOk(name: string) {
    forall i :: 0 <= i < |name| ==> RefChar(name[i])
  }

  /** Tag: an annotated tag on main, refused when the name is taken. */
  function GitTag(r: Repo, artifact: string, version: string): (Repo, bool) {
    var tag := TagName(artifact, version);
    if tag in r.tags || !RefNameOk(tag) then (r, false)
    else (Repo(r.commits, r.heads, r.tags[tag := r.heads[MAIN]]), true)
  }

  // Reading

  /** The version texts of an artifact's tags. */
  function VersionTexts(r: Repo, artifact: string): (vs: set<string>)
    ensures forall v :: v in vs <==> TagName(artifact, v) in r.tags
  {
    var stem := TagName(artifact, "");
    var vs := set t | t in r.tags.Keys && stem <= t :: t[|stem|..];
    assert forall v :: TagName(artifact, v)[|stem|..] == v && TagName(artifact, v) == stem + v;
    assert forall t :: t in r.tags.Keys && stem <= t ==> t == TagName(artifact, t[|stem|..]);
    vs
  }

  /** A list that names each element of s once. */
  ghost predicate Lists(xs: seq<string>, s: set<string>) {
    && (forall x :: x in xs <==> x in s)
    && (forall i, j :: 0 <= i < j < |xs| ==> xs[i] != xs[j])
  }

  /** The top-level names under shared/ on main. */
  function ArtifactNames(r: Repo): set<string> {
    set p | p in MainTree(r).Keys && |p| > 1 && p[0] == "shared" :: p[1]
  }

  /** The branches below u/. */
  function ProposalBranches(r: Repo): set<string> {
    set b | b in r.heads.Keys && "u/" <= b
  }

  /** ReadFile at a commit, a tag or a branch resolved to commit c: git show c:shared/artifact/rel, where git takes the
      path as it is and finds no entry called ".". */
  function Show(r: Repo, c: nat, artifact: string, rel: string): Option<Content>
    requires c < |r.commits|
  {
    if !ValidRelPath(rel) || rel == "." then None else At(r.commits[c].tree, Split(Joined(artifact, rel)))
  }

  // What every call keeps

  /** The proposal branches of artifact: u/<somebody>/artifact. */
  ghost predicate IsBranchOf(branch: string, artifact: string) {
    exists u :: NoSlash(u) && branch == ProposalBranch(u, artifact)
  }

  /** A proposal branch is a chain of changes to its own artifact, rooted in main's history. */
  ghost predicate BranchChain(r: Repo, branch: string) {
    branch in r.heads &&
    exists artifact :: IsSlug(artifact) && IsBranchOf(branch, artifact) &&
        Chain(r.commits, r.heads[branch], Trunk(r), artifact)
  }

  /** A commit is in main's history or leaves it by a chain of changes to one artifact. */
  ghost predicate OnChain(r: Repo, c: nat)
    requires c < |r.commits|
  {
    exists artifact :: IsSlug(artifact) && Chain(r.commits, c, Trunk(r), artifact)
  }

  /** Commits that no ref holds any more included. */
  ghost predicate AllOnChains(r: Repo) {
    forall c: nat :: c < |r.commits| ==> OnChain(r, c)
  }

  ghost predicate Sound(r: Repo) {
    && TreesGrow(r.commits)
    && AllOnChains(r)
    && (forall b :: b in r.heads && b != MAIN ==> BranchChain(r, b))
    && (forall b, c :: b in r.heads && c in r.heads && b != c && b != MAIN && c != MAIN ==>
          Links(r.commits, r.heads[b], Trunk(r)) !! Links(r.commits, r.heads[c], Trunk(r)))
    && (forall t :: t in r.tags ==> r.tags[t] in Trunk(r))
  }

  /** Later states keep commits, move main only to descendants and never move a tag. */
  ghost predicate Extends(r: Repo, s: Repo) {
    && r.commits <= s.commits
    && r.heads[MAIN] in Trunk(s)
    && (forall t :: t in r.tags ==> t in s.tags && s.tags[t] == r.tags[t])
  }

  lemma ExtendsTransitive(r: Repo, s: Repo, t: Repo)
    requires Extends(r, s) && Extends(s, t)
    ensures Extends(r, t)
  {
    AncGrows(s.commits, t.commits, s.heads[MAIN]);
    AncTransitive(t.commits, t.heads[MAIN], s.heads[MAIN]);
  }

  /** The trunk only grows. */
  lemma TrunkGrows(r: Repo, s: Repo)
    requires Extends(r, s)
    ensures Trunk(r) <= Trunk(s)
  {
    AncGrows(r.commits, s.commits, r.heads[MAIN]);
    AncTransitive(s.commits, s.heads[MAIN], r.heads[MAIN]);
  }

  lemma {:induction false} LinksGrow(h: History, h2: History, c: nat, trunk: set<nat>, trunk2: set<nat>)
    requires h <= h2 && trunk <= trunk2 && c < |h|
    ensures Links(h2, c, trunk2) <= Links(h, c, trunk)
  {
    assert h2[c] == h[c];
    if c !in trunk && h[c].Child? {
      LinksGrow(h, h2, h[c].parent, trunk, trunk2);
    }
  }

  lemma LinksOfLater(r: Repo, s: Repo, b: string, c: string)
    requires Sound(r) && Extends(r, s)
    requires b in r.heads && c in r.heads && b != c && b != MAIN && c != MAIN
    ensures Links(s.commits, r.heads[b], Trunk(s)) !! Links(s.commits, r.heads[c], Trunk(s))
  {
    TrunkGrows(r, s);
    LinksGrow(r.commits, s.commits, r.heads[b], Trunk(r), Trunk(s));
    LinksGrow(r.commits, s.commits, r.heads[c], Trunk(r), Trunk(s));
  }

  /** A branch that did not move stays a chain. */
  lemma ChainOfLater(r: Repo, s: Repo, b: string)
    requires Sound(r) && Extends(r, s)
    requires b in r.heads && b != MAIN && b in s.heads && s.heads[b] == r.heads[b]
    ensures BranchChain(s, b)
  {
    assert BranchChain(r, b);
    var artifact :| IsSlug(artifact) && IsBranchOf(b, artifact) && Chain(r.commits, r.heads[b], Trunk(r), artifact);
    TrunkGrows(r, s);
    ChainMonotone(r.commits, s.commits, r.heads[b], Trunk(r), Trunk(s), artifact);
  }

  /** A branch name determines its artifact, so the chain is confined to that one. */
  lemma ChainOfArtifact(r: Repo, branch: string, artifact: string)
    requires BranchChain(r, branch) && IsBranchOf(branch, artifact)
    ensures Chain(r.commits, r.heads[branch], Trunk(r), artifact)
    ensures branch != MAIN && IsSlug(artifact)
  {
    var u :| NoSlash(u) && branch == ProposalBranch(u, artifact);
    var a :| IsSlug(a) && IsBranchOf(branch, a) && Chain(r.commits, r.heads[branch], Trunk(r), a);
    var v :| NoSlash(v) && branch == ProposalBranch(v, a);
    ProposalBranchInjective(u, artifact, v, a);
  }

  lemma TrunkOnChain(r: Repo, c: nat)
    requires c in Trunk(r)
    ensures c < |r.commits| && OnChain(r, c)
  {
    assert IsSlug("a");
    assert Chain(r.commits, c, Trunk(r), "a");
  }

  lemma EmptyIsSound()
    ensures Sound(EmptyRepo())
  {
    TrunkOnChain(EmptyRepo(), 0);
  }

  /** Old commits stay on their chains. */
  lemma OldOnChain(r: Repo, s: Repo, c: nat)
    requires AllOnChains(r) && Extends(r, s) && c < |r.commits|
    ensures OnChain(s, c)
  {
    hide IsSlug;
    assert OnChain(r, c);
    var artifact :| IsSlug(artifact) && Chain(r.commits, c, Trunk(r), artifact);
    TrunkGrows(r, s);
    ChainMonotone(r.commits, s.commits, c, Trunk(r), Trunk(s), artifact);
  }

  /** So a step that adds at most one commit only has that one to answer for. */
  lemma OnChainsLater(r: Repo, s: Repo)
    requires AllOnChains(r) && Extends(r, s) && |s.commits| <= |r.commits| + 1
    requires |s.commits| > |r.commits| ==> OnChain(s, |r.commits|)
    ensures AllOnChains(s)
  {
    forall c: nat | c < |s.commits| ensures OnChain(s, c) {
      if c < |r.commits| {
        OldOnChain(r, s, c);
      }
    }
  }

  /** Sound carries over to a later state in which only main or one checked branch moved. */
  lemma SoundLater(r: Repo, s: Repo, moved: string)
    requires Sound(r) && Extends(r, s) && TreesGrow(s.commits) && AllOnChains(s)
    requires s.tags == r.tags
    requires forall b :: b in s.heads && b != MAIN && b != moved ==> b in r.heads && s.heads[b] == r.heads[b]
    requires moved != MAIN && moved in s.heads ==>
               BranchChain(s, moved) &&
               forall b :: b in s.heads && b != MAIN && b != moved ==>
                 Links(s.commits, s.heads[moved], Trunk(s)) !! Links(s.commits, s.heads[b], Trunk(s))
    ensures Sound(s)
  {
    TrunkGrows(r, s);
    forall b | b in s.heads && b != MAIN && b != moved ensures BranchChain(s, b) {
      ChainOfLater(r, s, b);
    }
    forall b, c | b in s.heads && c in s.heads && b != c && b != MAIN && c != MAIN
      ensures Links(s.commits, s.heads[b], Trunk(s)) !! Links(s.commits, s.heads[c], Trunk(s))
    {
      if b != moved && c != moved {
        LinksOfLater(r, s, b, c);
      }
    }
  }

  /** Who may write where: main, or a proposal branch of the artifact. */
  ghost predicate WriteTarget(branch: string, artifact: string) {
    branch == MAIN || IsBranchOf(branch, artifact)
  }

  /** A commit that keeps the paths of its parents keeps the history growing. */
  lemma TreesGrowWith(h: History, c: Commit)
    requires TreesGrow(h) && c.Below(|h|) && ProperTree(c.tree)
    requires c.Child? ==> h[c.parent].tree.Keys <= c.tree.Keys
    requires c.Join? ==> h[c.ours].tree.Keys <= c.tree.Keys && h[c.theirs].tree.Keys <= c.tree.Keys
    ensures TreesGrow(h + [c])
  {
    hide ProperTree;
  }

  lemma WriteExtends(r: Repo, branch: string, artifact: string, files: seq<File>, fallback: bool)
    requires TreesGrow(r.commits)
    ensures var s := GitWrite(r, branch, artifact, files, fallback).0;
            Extends(r, s) && TreesGrow(s.commits) && (branch != MAIN ==> Trunk(s) == Trunk(r))
  {
    hide WriteAllowed, PlaceAll, ProperTree;
    var s := GitWrite(r, branch, artifact, files, fallback).0;
    AncGrows(r.commits, s.commits, r.heads[MAIN]);
    if WriteCommit(r, branch, artifact, files, fallback).Some? {
      WriteHasGoodNames(r, branch, artifact, files, fallback);
      PlaceAllConfined(r.commits[CloneTip(r, branch, fallback)].tree, artifact, files);
      TreesGrowWith(r.commits, WriteCommit(r, branch, artifact, files, fallback).value);
    }
  }

  lemma WriteHasGoodNames(r: Repo, branch: string, artifact: string, files: seq<File>, fallback: bool)
    requires WriteCommit(r, branch, artifact, files, fallback).Some?
    ensures NamesOk(artifact, files)
  {
    hide PlaceAll, ValidRelPath, IsSlug;
  }

  /** Where a write starts is on a chain of its artifact. */
  lemma WriteStartsOnChain(r: Repo, branch: string, artifact: string, fallback: bool)
    requires Sound(r) && WriteTarget(branch, artifact)
    ensures Chain(r.commits, CloneTip(r, branch, fallback), Trunk(r), artifact)
  {
    if branch in r.heads && branch != MAIN {
      ChainOfArtifact(r, branch, artifact);
    }
  }

  /** What is beyond main after a write was beyond it on the same branch, or is the new commit. */
  lemma WriteLinks(r: Repo, branch: string, artifact: string, files: seq<File>, fallback: bool)
    requires GitWrite(r, branch, artifact, files, fallback).1.Some? && branch != MAIN
    requires Extends(r, GitWrite(r, branch, artifact, files, fallback).0)
    ensures var (s, sha) := GitWrite(r, branch, artifact, files, fallback);
            Links(s.commits, sha.value, Trunk(s)) <=
            {sha.value} + (if branch in r.heads then Links(r.commits, r.heads[branch], Trunk(r)) else {})
  {
    hide WriteAllowed, PlaceAll;
    var (s, sha) := GitWrite(r, branch, artifact, files, fallback);
    TrunkGrows(r, s);
    var tip := CloneTip(r, branch, fallback);
    LinksGrow(r.commits, s.commits, tip, Trunk(r), Trunk(s));
    assert tip == r.heads[MAIN] ==> Links(r.commits, tip, Trunk(r)) == {};
  }

  lemma WriteKeepsSound(r: Repo, branch: string, artifact: string, files: seq<File>, fallback: bool)
    requires Sound(r) && WriteTarget(branch, artifact)
    ensures var s := GitWrite(r, branch, artifact, files, fallback).0; Sound(s) && Extends(r, s)
  {
    hide WriteAllowed, PlaceAll, ProperTree, TreesGrow, Forward, IsSlug;
    var (s, sha) := GitWrite(r, branch, artifact, files, fallback);
    WriteExtends(r, branch, artifact, files, fallback);
    if s != r {
      var tip := CloneTip(r, branch, fallback);
      TrunkGrows(r, s);
      WriteHasGoodNames(r, branch, artifact, files, fallback);
      PlaceAllConfined(r.commits[tip].tree, artifact, files);
      WriteStartsOnChain(r, branch, artifact, fallback);
      ChainMonotone(r.commits, s.commits, tip, Trunk(r), Trunk(s), artifact);
      assert Chain(s.commits, sha.value, Trunk(s), artifact);
      assert OnChain(s, |r.commits|);
      OnChainsLater(r, s);
      if branch != MAIN {
        WriteLinks(r, branch, artifact, files, fallback);
        forall b | b in s.heads && b != MAIN && b != branch
          ensures Links(s.commits, sha.value, Trunk(s)) !! Links(s.commits, s.heads[b], Trunk(s))
        {
          LinksGrow(r.commits, s.commits, r.heads[b], Trunk(r), Trunk(s));
        }
      }
      SoundLater(r, s, branch);
    }
  }

  // What a write does, call by call

  /** The call holds a slug and 1 to 200 files of at most a megabyte, each with a relative path of ordinary components,
      or with the path ".". */
  ghost predicate Checked(artifact: string, files: seq<File>) {
    && 1 <= |artifact| <= 40 && artifact[0] != '-'
    && (forall c :: c in artifact ==> 'a' <= c <= 'z' || '0' <= c <= '9' || c == '-')
    && 1 <= |files| <= 200
    && forall i :: 0 <= i < |files| ==>
         && Sane(files[i].path) && (files[i].path == "." || PlainRelative(files[i].path))
         && |files[i].content| <= 0x10_0000
  }

  lemma CheckedExactly(artifact: string, files: seq<File>)
    ensures WriteAllowed(artifact, files) <==> Checked(artifact, files)
  {
    hide ValidRelPath, Sane, PlainRelative;
    assert forall i :: 0 <= i < |artifact| ==> artifact[i] in artifact;
    forall i | 0 <= i < |files|
      ensures ValidRelPath(files[i].path) <==>
              Sane(files[i].path) && (files[i].path == "." || PlainRelative(files[i].path))
    {
      ValidRelPathExactly(files[i].path);
    }
  }

  /** No later file of the call has the same place. */
  ghost predicate Lands(artifact: string, files: seq<File>, i: nat)
    requires i < |files|
  {
    forall j :: i < j < |files| ==> FullPath(artifact, files[j].path) != FullPath(artifact, files[i].path)
  }

  /** The tree after the files were written over it. */
  ghost predicate Overwritten(before: Tree, after: Tree, artifact: string, files: seq<File>) {
    && (forall i :: 0 <= i < |files| && Lands(artifact, files, i) ==>
          && Under(FullPath(artifact, files[i].path), artifact)
          && At(after, FullPath(artifact, files[i].path)) == Some(files[i].content))
    && forall p :: (forall i :: 0 <= i < |files| ==> FullPath(artifact, files[i].path) != p) ==>
         At(after, p) == At(before, p)
  }

  /** A write goes through exactly when its call passes the checks, no file is in the way of another or of what is
      there, and, after a clone that failed, main has what is on the branch. It then adds one commit on the head of the
      branch, or of main for want of one, and moves the branch there. */
  lemma WriteMeans(r: Repo, branch: string, artifact: string, files: seq<File>, fallback: bool)
    ensures var (s, sha) := GitWrite(r, branch, artifact, files, fallback);
            var tip := if branch in r.heads && !fallback then r.heads[branch] else r.heads[MAIN];
            && (sha.Some? <==>
                  && Checked(artifact, files) && RoomFor(r.commits[tip].tree, artifact, files)
                  && (branch in r.heads && fallback ==> r.heads[branch] in Trunk(r)))
            && (sha.None? ==> s == r)
            && (sha.Some? ==>
                  && sha.value == |r.commits| && |s.commits| == |r.commits| + 1 && s.tags == r.tags
                  && s.heads == r.heads[branch := sha.value]
                  && s.commits == r.commits + [Child(tip, s.commits[sha.value].tree)]
                  && Overwritten(r.commits[tip].tree, s.commits[sha.value].tree, artifact, files))
  {
    hide WriteAllowed, PlaceAll, Checked, RoomFor, Overwritten;
    var tip := CloneTip(r, branch, fallback);
    CheckedExactly(artifact, files);
    PlaceAllSucceedsExactly(r.commits[tip].tree, artifact, files);
    if WriteCommit(r, branch, artifact, files, fallback).Some? {
      WriteHasGoodNames(r, branch, artifact, files, fallback);
      PlacedMeans(r.commits[tip].tree, artifact, files);
    }
  }

  lemma PlacedMeans(t: Tree, artifact: string, files: seq<File>)
    requires NamesOk(artifact, files) && PlaceAll(t, artifact, files).Some?
    ensures Overwritten(t, PlaceAll(t, artifact, files).value, artifact, files)
  {
    hide PlaceAll, FullPath, IsSlug, ValidRelPath;
    forall i | 0 <= i < |files| && Lands(artifact, files, i)
      ensures Under(FullPath(artifact, files[i].path), artifact)
      ensures At(PlaceAll(t, artifact, files).value, FullPath(artifact, files[i].path)) == Some(files[i].content)
    {
      FullPathStaysUnder(artifact, files[i].path);
      PlaceAllWrites(t, artifact, files, i);
    }
    forall p | forall i :: 0 <= i < |files| ==> FullPath(artifact, files[i].path) != p
      ensures At(PlaceAll(t, artifact, files).value, p) == At(t, p)
    {
      PlaceAllKeeps(t, artifact, files, p);
    }
  }

  /** On an empty tree every call that passes the checks goes through, unless one of its files is in the way of
      another. */
  lemma FirstWriteGoesThrough(branch: string, artifact: string, files: seq<File>)
    requires Checked(artifact, files)
    ensures GitWrite(EmptyRepo(), branch, artifact, files, false).1.Some? <==>
            forall i, j :: 0 <= i < |files| && 0 <= j < |files| ==>
              !Within(FullPath(artifact, files[i].path), FullPath(artifact, files[j].path))
  {
    hide Checked, FullPath, GitWrite, Overwritten;
    WriteMeans(EmptyRepo(), branch, artifact, files, false);
  }

  /** The safety of a plain push: the write moves its branch forward or not at all, and no other ref, so that no commit
      that a ref had in its history drops out of it. */
  lemma WriteDropsNothing(r: Repo, branch: string, artifact: string, files: seq<File>, fallback: bool)
    ensures var s := GitWrite(r, branch, artifact, files, fallback).0;
            && r.commits <= s.commits && s.tags == r.tags
            && (forall b :: b in r.heads ==> b in s.heads && Anc(r.commits, r.heads[b]) <= Anc(s.commits, s.heads[b]))
            && forall b :: b in s.heads && b != branch ==> b in r.heads && s.heads[b] == r.heads[b]
  {
    hide WriteAllowed, PlaceAll;
    var s := GitWrite(r, branch, artifact, files, fallback).0;
    forall b | b in r.heads ensures b in s.heads && Anc(r.commits, r.heads[b]) <= Anc(s.commits, s.heads[b]) {
      AncGrows(r.commits, s.commits, r.heads[b]);
      if s != r && b == branch {
        AncGrows(r.commits, s.commits, CloneTip(r, branch, fallback));
        AncTransitive(r.commits, CloneTip(r, branch, fallback), r.heads[branch]);
      }
    }
  }

  /** A write whose clone of the branch failed goes through if and only if main has the branch or there is none. */
  lemma FallbackAcceptedExactly(r: Repo, branch: string, artifact: string, files: seq<File>)
    requires WriteCommit(r, branch, artifact, files, true).Some?
    ensures GitWrite(r, branch, artifact, files, true).1.Some? <==> branch !in r.heads || r.heads[branch] in Trunk(r)
  {
    hide WriteAllowed, PlaceAll;
  }

  /** Where it goes through it is the plain write if and only if the branch is at main's head or there is none. */
  lemma FallbackIsPlainExactly(r: Repo, branch: string, artifact: string, files: seq<File>)
    requires GitWrite(r, branch, artifact, files, true).1.Some?
    ensures GitWrite(r, branch, artifact, files, true) == GitWrite(r, branch, artifact, files, false) <==>
            branch !in r.heads || r.heads[branch] == r.heads[MAIN]
  {
    hide WriteAllowed, PlaceAll;
    var s, t := GitWrite(r, branch, artifact, files, true).0, GitWrite(r, branch, artifact, files, false).0;
    assert s.commits[|r.commits|].parent == r.heads[MAIN];
    if t != r {
      assert t.commits[|r.commits|].parent == CloneTip(r, branch, false);
    }
  }

  /** The commit a merge creates has both tips as parents and every path of both. */
  lemma CreatedCommit(r: Repo, branch: string, other: Option<nat>, lines: LineMerge)
    requires TreesGrow(r.commits) && PlanMerge(r, branch, other, lines).Create?
    ensures var c := PlanMerge(r, branch, other, lines).commit;
            && c.Join? && c.ours == r.heads[MAIN] && LookUp(r, branch, other) == Some(c.theirs)
            && ProperTree(c.tree)
            && r.commits[c.ours].tree.Keys <= c.tree.Keys && r.commits[c.theirs].tree.Keys <= c.tree.Keys
  {
    hide ProperTree, MergedTree, ConflictPaths, LookUp;
    var ours, theirs := r.heads[MAIN], LookUp(r, branch, other).value;
    var base := MergeBase(r.commits, ours, theirs);
    AncestorsHaveFewerPaths(r.commits, ours, base);
    AncestorsHaveFewerPaths(r.commits, theirs, base);
    MergeKeepsPaths(r.commits[base].tree, r.commits[ours].tree, r.commits[theirs].tree, lines, branch);
  }

  /** What a merge of commit c into main does, path by path. */
  ghost predicate MergesPathByPath(r: Repo, c: nat, name: string, lines: LineMerge, s: Repo, result: MergeResult)
    requires c < |r.commits|
  {
    var base := r.commits[MergeBase(r.commits, r.heads[MAIN], c)].tree;
    var ours, theirs := MainTree(r), r.commits[c].tree;
    if c in Trunk(r) then s == r && result == MergedAt(r.heads[MAIN])
    else if exists q :: InConflict(base, ours, theirs, lines, name, q) then
      s == r && result.Conflicted? &&
      forall q :: q in result.paths <==> InConflict(base, ours, theirs, lines, name, q)
    else
      && result == MergedAt(|r.commits|)
      && s == Repo(r.commits + [Join(r.heads[MAIN], c, MainTree(s))], r.heads[MAIN := |r.commits|], r.tags)
      && forall p :: ThreeWay(At(base, p), At(ours, p), At(theirs, p), lines, At(MainTree(s), p))
  }

  /** A merge that is needed reports exactly the paths that both sides changed and git cannot merge, and the files
      where the other side has a directory. Without any, main gets a commit in which every path has what either side
      alone made of it, or what git made of both. */
  lemma MergeIsThreeWay(r: Repo, name: string, other: Option<nat>, lines: LineMerge)
    requires TreesGrow(r.commits)
    ensures var (s, result) := GitMerge(r, name, other, lines);
            match LookUp(r, name, other)
            case None => s == r && result == MergeFailed
            case Some(c) => MergesPathByPath(r, c, name, lines, s, result)
  {
    hide ProperTree, MergedTree, ConflictPaths, LookUp, InConflict, ThreeWay;
    if LookUp(r, name, other).Some? {
      var ours, theirs := r.heads[MAIN], LookUp(r, name, other).value;
      var base := MergeBase(r.commits, ours, theirs);
      AncestorsHaveFewerPaths(r.commits, ours, base);
      AncestorsHaveFewerPaths(r.commits, theirs, base);
      ThreeWayMerge(r.commits[base].tree, r.commits[ours].tree, r.commits[theirs].tree, lines, name);
    }
  }

  lemma MergeExtends(r: Repo, branch: string, other: Option<nat>, lines: LineMerge)
    requires TreesGrow(r.commits)
    ensures var s := GitMerge(r, branch, other, lines).0; Extends(r, s) && TreesGrow(s.commits)
  {
    hide ProperTree, PlanMerge, TreesGrow;
    var s := GitMerge(r, branch, other, lines).0;
    AncGrows(r.commits, s.commits, r.heads[MAIN]);
    if PlanMerge(r, branch, other, lines).Create? {
      CreatedCommit(r, branch, other, lines);
      TreesGrowWith(r.commits, PlanMerge(r, branch, other, lines).commit);
    }
  }

  lemma MergeKeepsSound(r: Repo, branch: string, other: Option<nat>, lines: LineMerge)
    requires Sound(r)
    ensures var s := GitMerge(r, branch, other, lines).0; Sound(s) && Extends(r, s)
  {
    hide PlanMerge, LookUp;
    var s := GitMerge(r, branch, other, lines).0;
    MergeExtends(r, branch, other, lines);
    if s != r {
      if |s.commits| > |r.commits| {
        TrunkOnChain(s, |r.commits|);
      }
      OnChainsLater(r, s);
      SoundLater(r, s, MAIN);
    }
  }

  lemma DeleteKeepsSound(r: Repo, branch: string)
    requires Sound(r)
    ensures var s := GitDelete(r, branch).0; Sound(s) && Extends(r, s)
  {
    OnChainsLater(r, GitDelete(r, branch).0);
    SoundLater(r, GitDelete(r, branch).0, MAIN);
  }

  lemma TagKeepsSound(r: Repo, artifact: string, version: string)
    requires Sound(r)
    ensures var s := GitTag(r, artifact, version).0; Sound(s) && Extends(r, s)
  {
    var s := GitTag(r, artifact, version).0;
    OnChainsLater(r, s);
    forall b | b in s.heads && b != MAIN ensures BranchChain(s, b) {
      ChainOfLater(r, s, b);
    }
  }

  // What the calls mean on a sound repository

  /** A branch that exists is a chain of its artifact. */
  lemma BranchIsChain(r: Repo, u: string, artifact: string)
    requires Sound(r) && NoSlash(u) && ProposalBranch(u, artifact) in r.heads
    ensures ProposalBranch(u, artifact) != MAIN && IsSlug(artifact)
    ensures Chain(r.commits, r.heads[ProposalBranch(u, artifact)], Trunk(r), artifact)
  {
    ProposalBranchInjective(u, artifact, u, artifact);
    assert BranchChain(r, ProposalBranch(u, artifact));
    assert IsBranchOf(ProposalBranch(u, artifact), artifact);
    ChainOfArtifact(r, ProposalBranch(u, artifact), artifact);
  }

  /** Whatever commit git reads in a name, it and main have exactly one best common ancestor. */
  lemma OneMergeBase(r: Repo, name: string, other: Option<nat>)
    requires Sound(r) && LookUp(r, name, other).Some?
    ensures var c := LookUp(r, name, other).value;
            forall d :: IsMergeBase(r.commits, r.heads[MAIN], c, d) <==> d == MergeBase(r.commits, r.heads[MAIN], c)
  {
    var c := LookUp(r, name, other).value;
    assert OnChain(r, c);
    var artifact :| IsSlug(artifact) && Chain(r.commits, c, Trunk(r), artifact);
    ChainHasOneMergeBase(r.commits, c, r.heads[MAIN], artifact);
  }

  /** The merge touches main only inside this artifact, and reports conflicts only for it. */
  ghost predicate MergesInside(r: Repo, name: string, other: Option<nat>, lines: LineMerge, artifact: string) {
    var (s, result) := GitMerge(r, name, other, lines);
    && SameOutside(MainTree(r), MainTree(s), artifact)
    && (result.Conflicted? ==> result.paths != {} && s == r && forall p :: p in result.paths ==> Reports(p, artifact))
  }

  /** Whatever commit git reads in a name, merging it touches main inside one artifact, or reports conflicts for one, no
      matter what was merged since. */
  lemma MergeStaysInOneArtifact(r: Repo, name: string, other: Option<nat>, lines: LineMerge)
    requires Sound(r)
    ensures exists artifact :: IsSlug(artifact) && MergesInside(r, name, other, lines, artifact)
  {
    hide Sound, SameOutside, IsSlug, GitMerge, MergesInside;
    if LookUp(r, name, other).Some? {
      var c := LookUp(r, name, other).value;
      CommitOnChain(r, c);
      var artifact :| IsSlug(artifact) && Chain(r.commits, c, Trunk(r), artifact);
      ChainMerges(r, name, other, lines, artifact);
    } else {
      NothingMerges(r, name, other, lines, "a");
      assert IsSlug("a") by { ASlug(); }
    }
  }

  lemma ASlug()
    ensures IsSlug("a")
  {
  }

  lemma CommitOnChain(r: Repo, c: nat)
    requires Sound(r) && c < |r.commits|
    ensures OnChain(r, c)
  {
  }

  lemma NothingMerges(r: Repo, name: string, other: Option<nat>, lines: LineMerge, artifact: string)
    requires LookUp(r, name, other).None?
    ensures MergesInside(r, name, other, lines, artifact)
  {
  }

  lemma ChainMerges(r: Repo, name: string, other: Option<nat>, lines: LineMerge, artifact: string)
    requires Sound(r) && LookUp(r, name, other).Some?
    requires Chain(r.commits, LookUp(r, name, other).value, Trunk(r), artifact)
    ensures MergesInside(r, name, other, lines, artifact)
  {
    hide LookUp, Sound, Trunk, ConflictPaths, MergedTree, SameOutside, Chain;
    assert r.heads[MAIN := r.heads[MAIN]] == r.heads;
    SameOutsideItself(MainTree(r), artifact);
    ChainMergesInside(r, LookUp(r, name, other).value, name, artifact, lines);
    TrunkIsMerged(r, LookUp(r, name, other).value);
  }

  /** If the commit is in the history of a proposal branch, the merge is confined to the artifact of that branch. */
  lemma AncestorMergesInside(r: Repo, name: string, other: Option<nat>, lines: LineMerge, u: string, artifact: string)
    requires Sound(r) && NoSlash(u) && ProposalBranch(u, artifact) in r.heads && LookUp(r, name, other).Some?
    requires LookUp(r, name, other).value in Anc(r.commits, r.heads[ProposalBranch(u, artifact)])
    ensures MergesInside(r, name, other, lines, artifact)
  {
    hide Sound, LookUp, MergesInside;
    var tip, c := r.heads[ProposalBranch(u, artifact)], LookUp(r, name, other).value;
    BranchIsChain(r, u, artifact);
    AncestorsOnChain(r.commits, tip, c, r.heads[MAIN], artifact);
    ChainMerges(r, name, other, lines, artifact);
  }

  /** So a proposal whose branch exists is merged inside its own artifact, however else its name could be read. */
  lemma MergeConfined(r: Repo, u: string, artifact: string, other: Option<nat>, lines: LineMerge)
    requires Sound(r) && NoSlash(u) && ProposalBranch(u, artifact) in r.heads
    ensures MergesInside(r, ProposalBranch(u, artifact), other, lines, artifact)
  {
    hide Sound, MergesInside;
    AncestorMergesInside(r, ProposalBranch(u, artifact), other, lines, u, artifact);
  }

  lemma TrunkIsMerged(r: Repo, c: nat)
    requires c < |r.commits|
    ensures c in Trunk(r) <==> c in Anc(r.commits, r.heads[MAIN])
  {
  }

  /** Merging a chain of an artifact leaves main's tree alone outside it, and clashes only inside it. */
  lemma ChainMergesInside(r: Repo, theirs: nat, name: string, artifact: string, lines: LineMerge)
    requires Sound(r) && theirs < |r.commits| && Chain(r.commits, theirs, Trunk(r), artifact)
    ensures var ours := r.heads[MAIN];
            var base := r.commits[MergeBase(r.commits, ours, theirs)].tree;
            && SameOutside(MainTree(r), MergedTree(base, MainTree(r), r.commits[theirs].tree, lines), artifact)
            && forall p :: p in ConflictPaths(base, MainTree(r), r.commits[theirs].tree, lines, name) ==>
                 Reports(p, artifact)
  {
    hide SameOutside, Chain, ConflictPaths, MergedTree, ProperTree;
    var ours := r.heads[MAIN];
    ChainHasOneMergeBase(r.commits, theirs, ours, artifact);
    ChainShape(r.commits, theirs, ours, artifact);
    var base := r.commits[MergeBase(r.commits, ours, theirs)].tree;
    MergeKeepsOurs(base, MainTree(r), r.commits[theirs].tree, lines, artifact);
    ConflictsConfined(base, MainTree(r), r.commits[theirs].tree, lines, name, artifact);
  }

  /** Paths never leave main, so neither do artifact names. */
  lemma MainPathsGrow(r: Repo, s: Repo)
    requires Extends(r, s) && TreesGrow(s.commits)
    ensures MainTree(r).Keys <= MainTree(s).Keys
    ensures ArtifactNames(r) <= ArtifactNames(s)
  {
    AncestorsHaveFewerPaths(s.commits, s.heads[MAIN], r.heads[MAIN]);
    forall a | a in ArtifactNames(r) ensures a in ArtifactNames(s) {
      var p :| p in MainTree(r).Keys && |p| > 1 && p[0] == "shared" && p[1] == a;
      assert p in MainTree(s).Keys;
    }
  }

  /** A tag reads the same in every later state, and its commit stays in main's history. */
  lemma TagReadsForever(r: Repo, s: Repo, tag: string, artifact: string, rel: string)
    requires Sound(r) && Extends(r, s) && tag in r.tags
    ensures tag in s.tags && s.tags[tag] in Trunk(s)
    ensures Show(s, s.tags[tag], artifact, rel) == Show(r, r.tags[tag], artifact, rel)
    ensures s.commits[s.tags[tag]] == r.commits[r.tags[tag]]
  {
    TrunkGrows(r, s);
  }

  /** A proposal whose artifact nobody changed on main since the branch was cut always merges, and main then has
      the artifact exactly as the branch has it. */
  lemma UncontendedProposalLands(r: Repo, branch: string, artifact: string, other: Option<nat>, lines: LineMerge)
    requires Sound(r) && IsBranchOf(branch, artifact) && branch in r.heads
    requires SameInside(r.commits[MergeBase(r.commits, r.heads[MAIN], r.heads[branch])].tree, MainTree(r), artifact)
    ensures var (s, result) := GitMerge(r, branch, other, lines);
            && result.MergedAt? && result.sha == s.heads[MAIN]
            && SameInside(r.commits[r.heads[branch]].tree, MainTree(s), artifact)
            && SameOutside(MainTree(r), MainTree(s), artifact)
  {
    hide ProperTree, ConflictPaths, MergedTree, SameInside, SameOutside, IsBranchOf;
    assert BranchChain(r, branch) by { assert branch != MAIN by { ProposalIsNotMain(branch, artifact); } }
    ChainOfArtifact(r, branch, artifact);
    var ours, theirs := r.heads[MAIN], r.heads[branch];
    ChainHasOneMergeBase(r.commits, theirs, ours, artifact);
    ChainShape(r.commits, theirs, ours, artifact);
    var base := r.commits[MergeBase(r.commits, ours, theirs)].tree;
    UncontendedMerge(base, r.commits[ours].tree, r.commits[theirs].tree, lines, branch, artifact);
    SameOutsideItself(MainTree(r), artifact);
  }

  lemma SameOutsideItself(t: Tree, artifact: string)
    ensures SameOutside(t, t, artifact)
  {
  }

  lemma ProposalIsNotMain(branch: string, artifact: string)
    requires IsBranchOf(branch, artifact)
    ensures branch != MAIN
  {
    var u :| NoSlash(u) && branch == ProposalBranch(u, artifact);
    ProposalBranchInjective(u, artifact, u, artifact);
  }

  /** The round trip of a proposal: files written to a new branch and merged read back from main, and from a tag
      put on main then, with the contents written. */
  lemma WrittenMergedTaggedReads(r: Repo, branch: string, artifact: string, files: seq<File>, i: nat,
                                 version: string, other: Option<nat>, lines: LineMerge)
    requires Sound(r) && IsBranchOf(branch, artifact) && branch !in r.heads
    requires GitWrite(r, branch, artifact, files, false).1.Some? && i < |files|
    requires Lands(artifact, files, i)
    ensures var written := GitWrite(r, branch, artifact, files, false).0;
            var (merged, result) := GitMerge(written, branch, other, lines);
            var (tagged, ok) := GitTag(merged, artifact, version);
            && result.MergedAt?
            && var shown := if files[i].path == "." then None else Some(files[i].content);
            && Show(merged, merged.heads[MAIN], artifact, files[i].path) == shown
            && (ok ==> Show(tagged, tagged.tags[TagName(artifact, version)], artifact, files[i].path) == shown)
  {
    hide FullPath, ValidRelPath, Joined, Split, IsSlug;
    hide WriteAllowed, PlaceAll, ProperTree, SameInside, IsBranchOf, PlanMerge, Sound, RefNameOk;
    var (s, sha) := GitWrite(r, branch, artifact, files, false);
    ProposalIsNotMain(branch, artifact);
    WriteKeepsSound(r, branch, artifact, files, false);
    FreshBranchBase(r, branch, artifact, files);
    UncontendedProposalLands(s, branch, artifact, other, lines);
    PlaceAllWrites(r.commits[r.heads[MAIN]].tree, artifact, files, i);
    var merged := GitMerge(s, branch, other, lines).0;
    WriteHasGoodNames(r, branch, artifact, files, false);
    InsideReads(s.commits[sha.value].tree, MainTree(merged), artifact, files[i].path);
  }

  lemma InsideReads(t: Tree, u: Tree, artifact: string, rel: string)
    requires SameInside(t, u, artifact) && IsSlug(artifact) && ValidRelPath(rel)
    ensures At(t, FullPath(artifact, rel)) == At(u, FullPath(artifact, rel))
    ensures rel != "." ==> Split(Joined(artifact, rel)) == FullPath(artifact, rel)
  {
    hide FullPath, ValidRelPath, Joined, Split;
    FullPathStaysUnder(artifact, rel);
    SplitJoined(artifact, rel);
  }

  /** A branch cut from main meets main where it was cut. */
  lemma FreshBranchBase(r: Repo, branch: string, artifact: string, files: seq<File>)
    requires branch != MAIN && branch !in r.heads && GitWrite(r, branch, artifact, files, false).1.Some?
    ensures var s := GitWrite(r, branch, artifact, files, false).0;
            && branch in s.heads
            && MergeBase(s.commits, s.heads[MAIN], s.heads[branch]) == r.heads[MAIN] == s.heads[MAIN]
            && SameInside(s.commits[r.heads[MAIN]].tree, MainTree(s), artifact)
  {
    hide WriteAllowed, PlaceAll;
    var s := GitWrite(r, branch, artifact, files, false).0;
    assert s.commits[s.heads[branch]].Child? && s.commits[s.heads[branch]].parent == r.heads[MAIN];
  }
}
