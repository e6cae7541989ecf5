/** The artifact plane: bare repositories by path, changed only through a clone that is pushed at the end. */
module GitStores {
  import opened Wrappers
  import opened Paths
  import opened FileTree
  import opened Dag
  import opened Repos
  import opened Sorts

  /** Stands for one sync.Mutex; its identity is what matters. */
  class Mutex {
    constructor () {}
  }

  class GitStore {
    var repos: map<string, Repo>
    var locks: map<string, Mutex>

    constructor ()
      ensures repos == map[] && locks == map[]
    {
      repos, locks := map[], map[];
    }

    /** Different paths have different mutexes. */
    ghost predicate LocksDistinct()
      reads this
    {
      forall p, q :: p in locks && q in locks && p != q ==> locks[p] != locks[q]
    }

    /** repoLock: one mutex per path, made on first use and the same ever after. */
    method RepoLock(path: string) returns (l: Mutex)
      requires LocksDistinct()
      modifies this`locks
      ensures LocksDistinct()
      ensures path in locks && locks[path] == l
      ensures forall p :: p in old(locks) ==> p in locks && locks[p] == old(locks[p])
      ensures forall p :: p in locks ==> p in old(locks) || (p == path && fresh(l))
    {
      if path in locks {
        l := locks[path];
      } else {
        l := new Mutex();
        locks := locks[path := l];
      }
    }

    /** The checks in front of the lock. */
    method CheckFiles(artifact: string, files: seq<File>) returns (ok: bool)
      ensures ok == WriteAllowed(artifact, files) && (ok <==> Checked(artifact, files))
    {
      hide Checked;
      CheckedExactly(artifact, files);
      if !IsSlug(artifact) || |files| == 0 || |files| > MAX_FILES_WRITE {
        return false;
      }
      for i := 0 to |files|
        invariant forall k :: 0 <= k < i ==> ValidRelPath(files[k].path) && |files[k].content| <= MAX_FILE_BYTES
      {
        if !ValidRelPath(files[i].path) || |files[i].content| > MAX_FILE_BYTES {
          return false;
        }
      }
      return true;
    }

    /** The loop that writes the files into a work tree. */
    method WriteInto(tree: Tree, artifact: string, files: seq<File>) returns (work: Option<Tree>)
      ensures work == PlaceAll(tree, artifact, files)
    {
      var t := tree;
      for i := 0 to |files|
        invariant PlaceAll(tree, artifact, files[..i]) == Some(t)
      {
        assert files[..i + 1][..i] == files[..i];
        var full := FullPath(artifact, files[i].path);
        if !Placeable(t, full) {
          PlaceAllStops(tree, artifact, files, i + 1);
          return None;
        }
        t := t[full := files[i].content];
      }
      assert files[..|files|] == files;
      return Some(t);
    }

    /** WriteFiles: check, clone, write the files into the work tree, commit, push; the push is refused when the clone
        of an existing branch failed, so that main was cloned, and main does not have what is on the branch. */
    method WriteFiles(path: string, branch: string, artifact: string, files: seq<File>, cloneFails: bool)
      returns (sha: Option<nat>)
      requires path in repos && LocksDistinct()
      modifies this
      ensures LocksDistinct()
      ensures sha == GitWrite(old(repos[path]), branch, artifact, files, cloneFails).1
      ensures repos == old(repos)[path := GitWrite(old(repos[path]), branch, artifact, files, cloneFails).0]
      ensures sha.None? ==> repos == old(repos)
      ensures sha.Some? ==>
                && Checked(artifact, files)
                && repos[path].heads == old(repos[path]).heads[branch := sha.value] && sha.value < |repos[path].commits|
                && var tip := if branch in old(repos[path]).heads && !cloneFails then old(repos[path]).heads[branch]
                              else old(repos[path]).heads[MAIN];
                   Overwritten(old(repos[path]).commits[tip].tree, repos[path].commits[sha.value].tree, artifact, files)
    {
      hide WriteAllowed, PlaceAll, Checked, Overwritten, RoomFor;
      WriteMeans(repos[path], branch, artifact, files, cloneFails);
      assert repos == repos[path := repos[path]];
      var ok := CheckFiles(artifact, files);
      if !ok {
        return None;
      }
      var lock := RepoLock(path);
      var clone: Repo := repos[path];
      var tip := CloneTip(clone, branch, cloneFails);
      var work := WriteInto(clone.commits[tip].tree, artifact, files);
      if work == None {
        return None;
      }
      if !Forward(clone, branch, tip) {
        return None;
      }
      sha := Some(|clone.commits|);
      var pushed := Repo(clone.commits + [Child(tip, work.value)], clone.heads[branch := |clone.commits|], clone.tags);
      repos := repos[path := pushed];
    }

    /** Merge: clone main, merge the branch into it, push; on conflict report the paths and push nothing. */
    method Merge(path: string, branch: string, other: Option<nat>, lines: LineMerge) returns (result: MergeResult)
      requires path in repos && LocksDistinct()
      modifies this
      ensures LocksDistinct()
      ensures result == GitMerge(old(repos[path]), branch, other, lines).1
      ensures repos == old(repos)[path := GitMerge(old(repos[path]), branch, other, lines).0]
    {
      hide ConflictPaths, MergedTree;
      assert repos == repos[path := repos[path]];
      var lock := RepoLock(path);
      var clone := repos[path];
      assert clone.heads[MAIN := clone.heads[MAIN]] == clone.heads;
      var named := LookUp(clone, branch, other);
      if named == None {
        return MergeFailed;
      }
      var head, theirs := clone.heads[MAIN], named.value;
      var commits := clone.commits;
      if theirs !in Anc(commits, head) {
        var base := commits[MergeBase(commits, head, theirs)].tree;
        var conflicts := ConflictPaths(base, commits[head].tree, commits[theirs].tree, lines, branch);
        if conflicts != {} {
          return Conflicted(conflicts);
        }
        commits := commits + [Join(head, theirs, MergedTree(base, commits[head].tree, commits[theirs].tree, lines))];
        head := |clone.commits|;
      }
      repos := repos[path := Repo(commits, clone.heads[MAIN := head], clone.tags)];
      result := MergedAt(head);
    }

    /** DeleteBranch */
    method DeleteBranch(path: string, branch: string) returns (ok: bool)
      requires path in repos && LocksDistinct()
      modifies this
      ensures LocksDistinct()
      ensures ok == GitDelete(old(repos[path]), branch).1 == (branch in old(repos[path]).heads && branch != "main")
      ensures repos == old(repos)[path := GitDelete(old(repos[path]), branch).0]
      ensures ok ==> repos[path] == old(repos[path]).(heads := old(repos[path]).heads - {branch})
      ensures !ok ==> repos == old(repos)
    {
      var lock := RepoLock(path);
      var repo: Repo := repos[path];
      ok := branch in repo.heads && branch != MAIN;
      if ok {
        repo := Repo(repo.commits, repo.heads - {branch}, repo.tags);
      }
      repos := repos[path := repo];
    }

    /** Tag */
    method Tag(path: string, artifact: string, version: string) returns (ok: bool)
      requires path in repos && LocksDistinct()
      modifies this
      ensures LocksDistinct()
      ensures repos == old(repos)[path := GitTag(old(repos[path]), artifact, version).0]
      ensures var r, tag := old(repos[path]), "artifacts/" + artifact + "/" + version;
              && ok == GitTag(r, artifact, version).1 == (tag !in r.tags && RefNameOk(tag))
              && (ok ==> repos[path] == r.(tags := r.tags[tag := r.heads["main"]]))
      ensures !ok ==> repos == old(repos)
    {
      var lock := RepoLock(path);
      var repo: Repo := repos[path];
      var tag := "artifacts/" + artifact + "/" + version;
      ok := tag !in repo.tags && RefNameOk(tag);
      if ok {
        repo := Repo(repo.commits, repo.heads, repo.tags[tag := repo.heads[MAIN]]);
      }
      repos := repos[path := repo];
    }

    /** Versions: the tags under the artifact's prefix, with the prefix cut off. */
    method Versions(path: string, artifact: string) returns (versions: seq<string>)
      requires path in repos
      ensures Lists(versions, VersionTexts(repos[path], artifact))
      ensures forall v :: v in versions <==> "artifacts/" + artifact + "/" + v in repos[path].tags
    {
      var stem := "artifacts/" + artifact + "/";
      assert stem == TagName(artifact, "");
      var rest := set t | t in repos[path].tags.Keys && stem <= t;
      versions := [];
      while rest != {}
        invariant rest <= repos[path].tags.Keys && forall t :: t in rest ==> stem <= t
        invariant forall v :: TagName(artifact, v) in repos[path].tags <==>
            v in versions || TagName(artifact, v) in rest
        invariant forall v :: v in versions ==> TagName(artifact, v) !in rest
        invariant forall i, j :: 0 <= i < j < |versions| ==> versions[i] != versions[j]
        decreases rest
      {
        var t :| t in rest;
        var v := t[|stem|..];
        assert t == TagName(artifact, v) && TagName(artifact, v)[|stem|..] == v;
        SuffixDecides(artifact);
        rest := rest - {t};
        versions := versions + [v];
      }
    }

    /** Branches: the proposal branches. */
    method Branches(path: string) returns (names: seq<string>)
      requires path in repos
      ensures Lists(names, ProposalBranches(repos[path]))
      ensures forall b :: b in names <==> b in repos[path].heads && "u/" <= b
    {
      names := [];
      var rest := repos[path].heads.Keys;
      while rest != {}
        invariant rest <= repos[path].heads.Keys
        invariant forall b :: b in ProposalBranches(repos[path]) <==> b in names || (b in rest && "u/" <= b)
        invariant forall b :: b in names ==> b !in rest
        invariant forall i, j :: 0 <= i < j < |names| ==> names[i] != names[j]
        decreases rest
      {
        var b :| b in rest;
        rest := rest - {b};
        if "u/" <= b {
          names := names + [b];
        }
      }
    }

    /** ListArtifacts: the names directly under shared/ on main, sorted. */
    method ListArtifacts(path: string) returns (names: seq<string>)
      requires path in repos
      ensures Lists(names, ArtifactNames(repos[path])) && SortedBy(names, Self)
      ensures forall a :: a in names <==> exists p :: p in MainTree(repos[path]) && Under(p, a)
    {
      NamesAreArtifacts(repos[path]);
      hide Leq;
      var found: seq<string> := [];
      var rest := ArtifactNames(repos[path]);
      while rest != {}
        invariant forall a :: a in ArtifactNames(repos[path]) <==> a in found || a in rest
        invariant forall a :: a in found ==> a !in rest
        invariant forall i, j :: 0 <= i < j < |found| ==> found[i] != found[j]
        decreases rest
      {
        var a :| a in rest;
        rest := rest - {a};
        found := found + [a];
      }
      var slice := new string[|found|](i requires 0 <= i < |found| => found[i]);
      assert slice[..] == found;
      SortSlice(slice, Self);
      SortingKeepsDistinct(found, slice[..], Self);
      names := slice[..];
    }
  }

  lemma NamesAreArtifacts(r: Repo)
    ensures forall a :: a in ArtifactNames(r) <==> exists p :: p in MainTree(r) && Under(p, a)
  {
    forall a ensures a in ArtifactNames(r) <==> exists p :: p in MainTree(r) && Under(p, a) {
      if p :| p in MainTree(r) && Under(p, a) {
        assert p in MainTree(r).Keys && |p| > 1 && p[0] == ["shared", a][0] && p[1] == ["shared", a][1];
      }
      if a in ArtifactNames(r) {
        var p :| p in MainTree(r).Keys && |p| > 1 && p[0] == "shared" && p[1] == a;
        assert Under(p, a);
      }
    }
  }

  lemma SuffixDecides(artifact: string)
    ensures forall v, w :: TagName(artifact, v) == TagName(artifact, w) ==> v == w
  {
    forall v, w | TagName(artifact, v) == TagName(artifact, w) ensures v == w {
      var stem := TagName(artifact, "");
      assert TagName(artifact, v)[|stem|..] == v && TagName(artifact, w)[|stem|..] == w;
    }
  }

  /** A file write that failed fails the whole commit. */
  lemma {:induction false} PlaceAllStops(t: Tree, artifact: string, files: seq<File>, k: nat)
    requires k <= |files| && PlaceAll(t, artifact, files[..k]) == None
    ensures PlaceAll(t, artifact, files) == None
    decreases |files| - k
  {
    if k < |files| {
      assert files[..k + 1][..k] == files[..k];
      PlaceAllStops(t, artifact, files, k + 1);
    } else {
      assert files[..k] == files;
    }
  }
}
