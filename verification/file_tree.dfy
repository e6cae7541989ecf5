/** Trees of files as commits record them, writing into one, and three-way merging per file. */
module FileTree {
  import opened Wrappers
  import opened Paths

  type Content = string
  type Tree = map<Path, Content>

  datatype File = File(path: string, content: Content)

  /** What git brings to a merge: the merge of one file changed on both sides, from base, ours and theirs, with None for
      a conflict; and what it appends to the name of a file that is in the way of a directory, given the name merged,
      the trees of both sides and the path. */
  datatype LineMerge = LineMerge(
    file: (Option<Content>, Content, Content) -> Option<Content>,
    suffix: (string, Tree, Tree, Path) -> string)

  function At(t: Tree, p: Path): Option<Content> {
    if p in t then Some(t[p]) else None
  }

  predicate Within(p: Path, q: Path) {
    p < q
  }

  /** Files lie inside a directory of shared/ or are such an entry, and none is also a directory. */
  ghost predicate ProperTree(t: Tree) {
    && (forall p :: p in t ==> |p| > 1)
    && (forall p, q :: p in t && q in t ==> !Within(p, q))
  }

  // Writing

  /** A file can be created at p: no file on the way, no directory in its place. */
  predicate Placeable(t: Tree, p: Path) {
    forall q :: q in t ==> !Within(q, p) && !Within(p, q)
  }

  /** MkdirAll and WriteFile for the files in order; None when one of them fails. */
  function PlaceAll(t: Tree, artifact: string, files: seq<File>): Option<Tree> {
    if files == [] then Some(t)
    else match PlaceAll(t, artifact, files[..|files| - 1])
      case None => None
      case Some(u) =>
        var file := files[|files| - 1];
        var p := FullPath(artifact, file.path);
        if Placeable(u, p) then Some(u[p := file.content]) else None
  }

  /** t and u hold the same files outside artifact. */
  ghost predicate SameOutside(t: Tree, u: Tree, artifact: string) {
    forall p :: !Under(p, artifact) ==> At(t, p) == At(u, p)
  }

  /** What the checks in front of a write say of the names in it. */
  predicate NamesOk(artifact: string, files: seq<File>) {
    IsSlug(artifact) && forall i :: 0 <= i < |files| ==> ValidRelPath(files[i].path)
  }

  lemma {:induction false} PlaceAllConfined(t: Tree, artifact: string, files: seq<File>)
    requires NamesOk(artifact, files) && PlaceAll(t, artifact, files).Some?
    ensures var u := PlaceAll(t, artifact, files).value;
            SameOutside(t, u, artifact) && t.Keys <= u.Keys && (ProperTree(t) ==> ProperTree(u))
  {
    if files == [] {
    } else {
      hide FullPath, ValidRelPath, IsSlug, Under, SameOutside, ProperTree, Placeable;
      var init, last := files[..|files| - 1], files[|files| - 1];
      PlaceAllConfined(t, artifact, init);
      FullPathStaysUnder(artifact, last.path);
      PlaceOne(t, PlaceAll(t, artifact, init).value, artifact, FullPath(artifact, last.path), last.content);
    }
  }

  lemma PlaceOne(t: Tree, u: Tree, artifact: string, p: Path, content: Content)
    requires Placeable(u, p) && Under(p, artifact) && SameOutside(t, u, artifact)
    ensures SameOutside(t, u[p := content], artifact) && (ProperTree(u) ==> ProperTree(u[p := content]))
  {
  }

  /** The last write to a path wins. */
  lemma {:induction false} PlaceAllWrites(t: Tree, artifact: string, files: seq<File>, i: nat)
    requires PlaceAll(t, artifact, files).Some? && i < |files|
    requires forall j :: i < j < |files| ==> FullPath(artifact, files[j].path) != FullPath(artifact, files[i].path)
    ensures At(PlaceAll(t, artifact, files).value, FullPath(artifact, files[i].path)) == Some(files[i].content)
  {
    if i < |files| - 1 {
      PlaceAllWrites(t, artifact, files[..|files| - 1], i);
    }
  }

  /** Everything that no file of the call names stays. */
  lemma {:induction false} PlaceAllKeeps(t: Tree, artifact: string, files: seq<File>, p: Path)
    requires PlaceAll(t, artifact, files).Some?
    requires forall i :: 0 <= i < |files| ==> FullPath(artifact, files[i].path) != p
    ensures At(PlaceAll(t, artifact, files).value, p) == At(t, p)
  {
    hide FullPath;
    if files != [] {
      PlaceAllKeeps(t, artifact, files[..|files| - 1], p);
    }
  }

  /** No file of the call is in the way of what is there or of another one, nor anything there in its way. */
  ghost predicate RoomFor(t: Tree, artifact: string, files: seq<File>) {
    && (forall i :: 0 <= i < |files| ==> Placeable(t, FullPath(artifact, files[i].path)))
    && forall i, j :: 0 <= i < |files| && 0 <= j < |files| ==>
         !Within(FullPath(artifact, files[i].path), FullPath(artifact, files[j].path))
  }

  /** Writing succeeds exactly then, and the tree holds what was there and the files of the call. */
  lemma {:induction false} PlaceAllSucceedsExactly(t: Tree, artifact: string, files: seq<File>)
    ensures PlaceAll(t, artifact, files).Some? <==> RoomFor(t, artifact, files)
    ensures PlaceAll(t, artifact, files).Some? ==>
              forall p :: p in PlaceAll(t, artifact, files).value <==>
                p in t || exists i :: 0 <= i < |files| && p == FullPath(artifact, files[i].path)
  {
    hide FullPath;
    if files != [] {
      var init, last := files[..|files| - 1], files[|files| - 1];
      PlaceAllSucceedsExactly(t, artifact, init);
      var p := FullPath(artifact, last.path);
      assert forall i :: 0 <= i < |init| ==> init[i] == files[i];
      if PlaceAll(t, artifact, init).Some? {
        OneMore(t, PlaceAll(t, artifact, init).value, artifact, files);
      }
    }
  }

  lemma OneMore(t: Tree, u: Tree, artifact: string, files: seq<File>)
    requires files != [] && RoomFor(t, artifact, files[..|files| - 1])
    requires forall p :: p in u <==>
               p in t || exists i :: 0 <= i < |files| - 1 && p == FullPath(artifact, files[i].path)
    ensures Placeable(u, FullPath(artifact, files[|files| - 1].path)) <==> RoomFor(t, artifact, files)
  {
    hide FullPath;
    var init := files[..|files| - 1];
    forall i | 0 <= i < |init| ensures init[i] == files[i] && FullPath(artifact, files[i].path) in u {
    }
  }

  // Merging

  datatype Slot = Clean(content: Option<Content>) | Clash

  function MergeFile(base: Option<Content>, ours: Option<Content>, theirs: Option<Content>, lines: LineMerge): Slot {
    if ours == theirs || theirs == base then Clean(ours)
    else if ours == base then Clean(theirs)
    else match (ours, theirs)
      case (Some(x), Some(y)) =>
        var merged := lines.file(base, x, y);
        if merged.Some? then Clean(merged) else Clash
      case _ => Clash
  }

  function MergeAt(base: Tree, ours: Tree, theirs: Tree, lines: LineMerge, p: Path): Slot {
    MergeFile(At(base, p), At(ours, p), At(theirs, p), lines)
  }

  function MergedTree(base: Tree, ours: Tree, theirs: Tree, lines: LineMerge): Tree {
    map p | p in ours.Keys + theirs.Keys
            && MergeAt(base, ours, theirs, lines, p).Clean? && MergeAt(base, ours, theirs, lines, p).content.Some?
      :: MergeAt(base, ours, theirs, lines, p).content.value
  }

  /** Files with clashing contents. */
  function Clashes(base: Tree, ours: Tree, theirs: Tree, lines: LineMerge): set<Path> {
    set p | p in ours.Keys + theirs.Keys && MergeAt(base, ours, theirs, lines, p).Clash?
  }

  /** Files where the other side has a directory. */
  function InTheWay(base: Tree, ours: Tree, theirs: Tree, lines: LineMerge): set<Path> {
    var merged := MergedTree(base, ours, theirs, lines);
    set p | p in merged.Keys && exists q :: q in merged.Keys && Within(p, q)
  }

  /** The path git gives a file that is in the way. */
  function Aside(p: Path, suffix: string): Path {
    if p == [] then p else p[..|p| - 1] + [p[|p| - 1] + "~" + suffix]
  }

  /** The paths git reports as unmerged when it merges what name denotes. */
  function ConflictPaths(base: Tree, ours: Tree, theirs: Tree, lines: LineMerge, name: string): set<Path> {
    Clashes(base, ours, theirs, lines) +
    set p | p in InTheWay(base, ours, theirs, lines) :: Aside(p, lines.suffix(name, ours, theirs, p))
  }

  /** A path reported for an artifact: inside it, or the artifact itself, put aside as a file. */
  predicate Reports(p: Path, artifact: string) {
    Under(p, artifact) || (|p| == 2 && p[0] == "shared" && artifact + "~" <= p[1])
  }

  lemma AsideReports(p: Path, suffix: string, artifact: string)
    requires Under(p, artifact)
    ensures Reports(Aside(p, suffix), artifact)
  {
    var q := Aside(p, suffix);
    if |p| == 2 {
      assert q[1] == artifact + "~" + suffix;
    }
  }

  lemma NoConflicts(base: Tree, ours: Tree, theirs: Tree, lines: LineMerge, name: string)
    ensures ConflictPaths(base, ours, theirs, lines, name) == {} <==>
            Clashes(base, ours, theirs, lines) == {} && InTheWay(base, ours, theirs, lines) == {}
  {
    hide Clashes, InTheWay, Aside;
    forall p | p in InTheWay(base, ours, theirs, lines)
      ensures ConflictPaths(base, ours, theirs, lines, name) != {}
    {
      assert Aside(p, lines.suffix(name, ours, theirs, p)) in ConflictPaths(base, ours, theirs, lines, name);
    }
  }

  /** A path that theirs left as in the base keeps our version, whatever happened on our side. */
  lemma MergeKeepsOurs(base: Tree, ours: Tree, theirs: Tree, lines: LineMerge, artifact: string)
    requires SameOutside(base, theirs, artifact)
    ensures SameOutside(ours, MergedTree(base, ours, theirs, lines), artifact)
    ensures forall p :: !Under(p, artifact) ==> !MergeAt(base, ours, theirs, lines, p).Clash?
  {
    var merged := MergedTree(base, ours, theirs, lines);
    forall p | !Under(p, artifact)
      ensures At(ours, p) == At(merged, p) && !MergeAt(base, ours, theirs, lines, p).Clash?
    {
      assert At(base, p) == At(theirs, p);
      if p !in ours { assert p !in merged; }
    }
  }

  /** When neither side deleted anything the merge deletes nothing, and a clean one is a proper tree. */
  lemma MergeKeepsPaths(base: Tree, ours: Tree, theirs: Tree, lines: LineMerge, name: string)
    requires base.Keys <= ours.Keys && base.Keys <= theirs.Keys && ProperTree(ours) && ProperTree(theirs)
    requires ConflictPaths(base, ours, theirs, lines, name) == {}
    ensures MergedTree(base, ours, theirs, lines).Keys == ours.Keys + theirs.Keys
    ensures ProperTree(MergedTree(base, ours, theirs, lines))
  {
    var merged := MergedTree(base, ours, theirs, lines);
    NoConflicts(base, ours, theirs, lines, name);
    forall p | p in ours.Keys + theirs.Keys ensures p in merged.Keys {
      assert p !in Clashes(base, ours, theirs, lines);
    }
    forall p, q | p in merged && q in merged ensures !Within(p, q) {
      assert p !in InTheWay(base, ours, theirs, lines);
    }
  }

  // What a merge means, path by path

  /** A side that alone changed the file has its way; a file that both changed differently holds what git makes of the
      two. */
  ghost predicate ThreeWay(base: Option<Content>, ours: Option<Content>, theirs: Option<Content>, lines: LineMerge,
                           out: Option<Content>) {
    && (theirs == base ==> out == ours)
    && (ours == base ==> out == theirs)
    && (ours == theirs ==> out == ours)
    && (ours != theirs && ours != base && theirs != base ==>
          ours.Some? && theirs.Some? && out.Some? && lines.file(base, ours.value, theirs.value) == out)
  }

  /** Both sides changed the file, differently, and git cannot merge the lines. */
  ghost predicate Unmerged(base: Tree, ours: Tree, theirs: Tree, lines: LineMerge, p: Path) {
    && p in ours && p in theirs && ours[p] != theirs[p]
    && At(base, p) != Some(ours[p]) && At(base, p) != Some(theirs[p])
    && lines.file(At(base, p), ours[p], theirs[p]) == None
  }

  /** A file where one of the two sides has a directory. */
  ghost predicate FileAndDirectory(ours: Tree, theirs: Tree, p: Path) {
    (p in ours || p in theirs) && exists q :: (q in ours || q in theirs) && p < q
  }

  /** The paths to report. */
  ghost predicate InConflict(base: Tree, ours: Tree, theirs: Tree, lines: LineMerge, name: string, q: Path) {
    || Unmerged(base, ours, theirs, lines, q)
    || exists p :: p != [] && FileAndDirectory(ours, theirs, p) &&
         q == p[..|p| - 1] + [p[|p| - 1] + "~" + lines.suffix(name, ours, theirs, p)]
  }

  lemma MergedFile(base: Tree, ours: Tree, theirs: Tree, lines: LineMerge, p: Path)
    requires base.Keys <= ours.Keys && base.Keys <= theirs.Keys
    ensures MergeAt(base, ours, theirs, lines, p).Clash? <==> Unmerged(base, ours, theirs, lines, p)
    ensures !Unmerged(base, ours, theirs, lines, p) ==>
              ThreeWay(At(base, p), At(ours, p), At(theirs, p), lines, At(MergedTree(base, ours, theirs, lines), p))
    ensures p in MergedTree(base, ours, theirs, lines) <==>
              (p in ours || p in theirs) && !Unmerged(base, ours, theirs, lines, p)
  {
    assert p in base ==> p in ours && p in theirs;
  }

  /** A file and a directory of the same name come from different sides, so neither is changed on both. */
  lemma WaysAreApart(base: Tree, ours: Tree, theirs: Tree, lines: LineMerge, p: Path)
    requires base.Keys <= ours.Keys && base.Keys <= theirs.Keys && ProperTree(ours) && ProperTree(theirs)
    ensures p in InTheWay(base, ours, theirs, lines) <==> FileAndDirectory(ours, theirs, p)
    ensures FileAndDirectory(ours, theirs, p) ==> p != []
  {
    hide MergedTree;
    var merged := MergedTree(base, ours, theirs, lines);
    MergedFile(base, ours, theirs, lines, p);
    forall q ensures q in merged <==> (q in ours || q in theirs) && !Unmerged(base, ours, theirs, lines, q) {
      MergedFile(base, ours, theirs, lines, q);
    }
    if FileAndDirectory(ours, theirs, p) {
      var q :| (q in ours || q in theirs) && p < q;
      assert Within(p, q);
    }
  }

  /** The paths reported are exactly those in conflict; without any, every path of either side has what it must have. */
  lemma ThreeWayMerge(base: Tree, ours: Tree, theirs: Tree, lines: LineMerge, name: string)
    requires base.Keys <= ours.Keys && base.Keys <= theirs.Keys && ProperTree(ours) && ProperTree(theirs)
    ensures forall q :: q in ConflictPaths(base, ours, theirs, lines, name) <==>
              InConflict(base, ours, theirs, lines, name, q)
    ensures ConflictPaths(base, ours, theirs, lines, name) == {} ==>
              forall p :: ThreeWay(At(base, p), At(ours, p), At(theirs, p), lines,
                                   At(MergedTree(base, ours, theirs, lines), p))
  {
    hide MergedTree, ThreeWay, Unmerged, FileAndDirectory, MergeAt, InTheWay, ProperTree;
    forall p ensures p in Clashes(base, ours, theirs, lines) <==> Unmerged(base, ours, theirs, lines, p) {
      MergedFile(base, ours, theirs, lines, p);
      UnmergedIsThere(base, ours, theirs, lines, p);
    }
    forall p ensures p in InTheWay(base, ours, theirs, lines) <==> FileAndDirectory(ours, theirs, p)
             ensures FileAndDirectory(ours, theirs, p) ==> p != [] {
      WaysAreApart(base, ours, theirs, lines, p);
    }
    if ConflictPaths(base, ours, theirs, lines, name) == {} {
      NoConflicts(base, ours, theirs, lines, name);
      forall p ensures ThreeWay(At(base, p), At(ours, p), At(theirs, p), lines,
                                At(MergedTree(base, ours, theirs, lines), p)) {
        assert p !in Clashes(base, ours, theirs, lines);
        MergedFile(base, ours, theirs, lines, p);
      }
    }
  }

  lemma UnmergedIsThere(base: Tree, ours: Tree, theirs: Tree, lines: LineMerge, p: Path)
    ensures Unmerged(base, ours, theirs, lines, p) ==> p in ours.Keys + theirs.Keys
  {
  }

  /** Conflicts are only reported for the artifact that theirs changed. */
  lemma ConflictsConfined(base: Tree, ours: Tree, theirs: Tree, lines: LineMerge, name: string, artifact: string)
    requires SameOutside(base, theirs, artifact) && ProperTree(ours) && ProperTree(theirs)
    ensures forall p :: p in ConflictPaths(base, ours, theirs, lines, name) ==> Reports(p, artifact)
  {
    hide Reports;
    ClashesConfined(base, ours, theirs, lines, artifact);
    forall p | p in InTheWay(base, ours, theirs, lines)
      ensures Reports(Aside(p, lines.suffix(name, ours, theirs, p)), artifact)
    {
      AsideReports(p, lines.suffix(name, ours, theirs, p), artifact);
    }
    forall p | p in Clashes(base, ours, theirs, lines) ensures Reports(p, artifact) {
      InsideReports(p, artifact);
    }
  }

  lemma InsideReports(p: Path, artifact: string)
    requires Under(p, artifact)
    ensures Reports(p, artifact)
  {
  }

  lemma ClashesConfined(base: Tree, ours: Tree, theirs: Tree, lines: LineMerge, artifact: string)
    requires SameOutside(base, theirs, artifact) && ProperTree(ours) && ProperTree(theirs)
    ensures forall p :: p in Clashes(base, ours, theirs, lines) ==> Under(p, artifact)
    ensures forall p :: p in InTheWay(base, ours, theirs, lines) ==> Under(p, artifact)
  {
    var merged := MergedTree(base, ours, theirs, lines);
    MergeKeepsOurs(base, ours, theirs, lines, artifact);
    forall p, q | p in merged && q in merged && Within(p, q) ensures Under(p, artifact) {
      assert !Under(p, artifact) ==> At(ours, p) == At(merged, p);
      assert !Under(q, artifact) ==> At(ours, q) == At(merged, q);
      if Under(q, artifact) {
        assert p[..2] == q[..2] == ["shared", artifact];
      }
    }
  }

  /** t and u hold the same files inside artifact. */
  ghost predicate SameInside(t: Tree, u: Tree, artifact: string) {
    forall p :: Under(p, artifact) ==> At(t, p) == At(u, p)
  }

  lemma MergedInside(base: Tree, ours: Tree, theirs: Tree, lines: LineMerge, artifact: string)
    requires SameInside(base, ours, artifact)
    ensures SameInside(theirs, MergedTree(base, ours, theirs, lines), artifact)
    ensures forall p :: Under(p, artifact) ==> !MergeAt(base, ours, theirs, lines, p).Clash?
  {
    var merged := MergedTree(base, ours, theirs, lines);
    forall p | Under(p, artifact)
      ensures At(theirs, p) == At(merged, p) && !MergeAt(base, ours, theirs, lines, p).Clash?
    {
      assert At(base, p) == At(ours, p);
    }
  }

  lemma UnderTogether(p: Path, q: Path, artifact: string)
    requires |p| > 1 && Within(p, q)
    ensures Under(p, artifact) <==> Under(q, artifact)
  {
    assert p[..2] == q[..2];
    assert Under(p, artifact) <==> p[..2] == ["shared", artifact];
    assert Under(q, artifact) <==> q[..2] == ["shared", artifact];
  }

  /** An artifact that only their side changed merges without conflict and ends as they have it. */
  lemma UncontendedMerge(base: Tree, ours: Tree, theirs: Tree, lines: LineMerge, name: string, artifact: string)
    requires SameInside(base, ours, artifact) && SameOutside(base, theirs, artifact)
    requires ProperTree(ours) && ProperTree(theirs)
    ensures ConflictPaths(base, ours, theirs, lines, name) == {}
    ensures SameInside(theirs, MergedTree(base, ours, theirs, lines), artifact)
    ensures SameOutside(ours, MergedTree(base, ours, theirs, lines), artifact)
  {
    hide MergedTree, MergeAt, SameInside, SameOutside;
    var merged := MergedTree(base, ours, theirs, lines);
    MergeKeepsOurs(base, ours, theirs, lines, artifact);
    MergedInside(base, ours, theirs, lines, artifact);
    forall p, q | p in merged && q in merged ensures !Within(p, q) {
      PlaceOf(ours, theirs, merged, artifact, p);
      PlaceOf(ours, theirs, merged, artifact, q);
      if Within(p, q) {
        UnderTogether(p, q, artifact);
      }
    }
    assert forall p :: !MergeAt(base, ours, theirs, lines, p).Clash?;
    NoConflicts(base, ours, theirs, lines, name);
  }

  lemma PlaceOf(ours: Tree, theirs: Tree, merged: Tree, artifact: string, p: Path)
    requires SameInside(theirs, merged, artifact) && SameOutside(ours, merged, artifact) && p in merged
    ensures if Under(p, artifact) then p in theirs else p in ours
  {
    assert At(merged, p).Some?;
  }
}
