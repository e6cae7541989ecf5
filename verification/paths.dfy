/** Names and paths: slugs, proposal branches, release tags and the path rule for artifact files.
    A string stands for the bytes of the program's string, one character a byte. */
module Paths {

  type Path = seq<string>

  // Splitting and joining at '/'

  predicate NoSlash(s: string) {
    forall i :: 0 <= i < |s| ==> s[i] != '/'
  }

  /** strings.Split(s, "/"). */
  function Split(s: string): (parts: Path)
    ensures parts != []
    ensures forall i :: 0 <= i < |parts| ==> NoSlash(parts[i])
  {
    if s == "" then [""]
    else
      var rest := Split(s[1..]);
      if s[0] == '/' then [""] + rest
      else [[s[0]] + rest[0]] + rest[1..]
  }

  function Join(parts: Path): string {
    if parts == [] then ""
    else if |parts| == 1 then parts[0]
    else parts[0] + "/" + Join(parts[1..])
  }

  lemma {:induction false} JoinSplit(s: string)
    ensures Join(Split(s)) == s
  {
    if s != "" {
      var rest := Split(s[1..]);
      JoinSplit(s[1..]);
      if s[0] == '/' {
        assert ([""] + rest)[1..] == rest;
      } else {
        var parts := [[s[0]] + rest[0]] + rest[1..];
        assert parts[1..] == rest[1..];
        if |rest| > 1 {
          assert Join(parts) == ([s[0]] + rest[0]) + "/" + Join(rest[1..]);
          assert Join(rest) == rest[0] + "/" + Join(rest[1..]);
        }
        assert Join(parts) == [s[0]] + Join(rest);
      }
    }
  }

  /** Split of text in front of the first slash. */
  lemma {:induction false} SplitAtSlash(head: string, tail: string)
    requires NoSlash(head)
    ensures Split(head) == [head]
    ensures Split(head + "/" + tail) == [head] + Split(tail)
  {
    var s := head + "/" + tail;
    if head == "" {
      assert s[1..] == tail;
    } else {
      SplitAtSlash(head[1..], tail);
      assert s[1..] == head[1..] + "/" + tail;
      assert [head[0]] + head[1..] == head;
    }
  }

  lemma {:induction false} SplitJoin(parts: Path)
    requires parts != [] && forall i :: 0 <= i < |parts| ==> NoSlash(parts[i])
    ensures Split(Join(parts)) == parts
  {
    SplitAtSlash(parts[0], "");
    if |parts| > 1 {
      SplitJoin(parts[1..]);
      SplitAtSlash(parts[0], Join(parts[1..]));
    }
  }

  // Slugs, branch names and tag names

  predicate SlugChar(c: char) {
    'a' <= c <= 'z' || '0' <= c <= '9'
  }

  /** ^[a-z0-9][a-z0-9-]{0,39}$ */
  predicate IsSlug(s: string) {
    1 <= |s| <= 40 && SlugChar(s[0]) && forall i :: 0 <= i < |s| ==> SlugChar(s[i]) || s[i] == '-'
  }

  const MAIN := "main"

  function ProposalBranch(username: string, artifact: string): string {
    "u/" + username + "/" + artifact
  }

  function TagName(artifact: string, version: string): string {
    "artifacts/" + artifact + "/" + version
  }

  /** Usernames are slugs, so a branch name tells its owner and its artifact apart. */
  lemma ProposalBranchInjective(u1: string, a1: string, u2: string, a2: string)
    requires NoSlash(u1) && NoSlash(u2)
    ensures ProposalBranch(u1, a1) == ProposalBranch(u2, a2) ==> u1 == u2 && a1 == a2
    ensures ProposalBranch(u1, a1) != MAIN
  {
    assert ProposalBranch(u1, a1)[1] == '/' && MAIN[1] == 'a';
    var b1, b2 := ProposalBranch(u1, a1), ProposalBranch(u2, a2);
    if b1 == b2 {
      assert b1[2..] == u1 + "/" + a1 && b2[2..] == u2 + "/" + a2;
      SplitAtSlash(u1, a1);
      SplitAtSlash(u2, a2);
      JoinSplit(a1);
      JoinSplit(a2);
      assert ([u1] + Split(a1))[1..] == Split(a1) && ([u2] + Split(a2))[1..] == Split(a2);
    }
  }

  /** The version is the text after the last slash, so one tag stands for one release. */
  lemma TagNameInjective(a1: string, v1: string, a2: string, v2: string)
    requires NoSlash(v1) && NoSlash(v2)
    ensures TagName(a1, v1) == TagName(a2, v2) ==> a1 == a2 && v1 == v2
  {
    var t1, t2 := TagName(a1, v1), TagName(a2, v2);
    if t1 == t2 {
      if |v1| < |v2| {
        SlashInside(a1, v1, v2);
      } else if |v2| < |v1| {
        SlashInside(a2, v2, v1);
      }
      var stem := "artifacts/";
      assert |a1| == |a2|;
      assert t1[|stem|..|stem| + |a1|] == a1 && t2[|stem|..|stem| + |a2|] == a2;
      assert t1[|stem| + |a1| + 1..] == v1 && t2[|stem| + |a2| + 1..] == v2;
    }
  }

  lemma SlashInside(a: string, short: string, long: string)
    requires NoSlash(long) && |short| < |long|
    ensures forall b :: TagName(a, short) != TagName(b, long)
  {
    var k := |"artifacts/"| + |a|;
    assert TagName(a, short)[k] == '/';
    forall b ensures TagName(a, short) != TagName(b, long) {
      var t := TagName(b, long);
      if |t| == |TagName(a, short)| {
        assert t[k] == long[k - (|t| - |long|)];
      }
    }
  }

  /** A tag listed for an artifact is of that artifact, or of one whose name goes on after a slash. */
  lemma TagNameReads(a: string, text: string, b: string, v: string)
    requires NoSlash(v) && TagName(a, text) == TagName(b, v)
    ensures (a == b && text == v) || a + "/" <= b
  {
    var t, stem := TagName(a, text), "artifacts/";
    if |text| < |v| {
      SlashInside(a, text, v);
    } else {
      assert t[|stem|..|stem| + |b|] == b && t[|stem|..|stem| + |a|] == a && t[|stem| + |a|] == '/';
      if |text| > |v| {
        assert b[..|a|] == t[|stem|..|stem| + |a|] && b[|a|] == '/';
        assert b[..|a| + 1] == a + "/";
      } else {
        assert t[|stem| + |a| + 1..] == text && t[|stem| + |b| + 1..] == v;
      }
    }
  }

  /** A tag of such an artifact is listed, under a text with a slash. */
  lemma NestedTagName(a: string, b: string, v: string)
    requires a + "/" <= b
    ensures TagName(b, v) == TagName(a, b[|a| + 1..] + "/" + v) && !NoSlash(b[|a| + 1..] + "/" + v)
  {
    var rest := b[|a| + 1..];
    assert b == a + "/" + rest;
    assert (rest + "/" + v)[|rest|] == '/';
  }

  // filepath.Clean

  /** One path element against the elements kept so far. */
  function Push(stack: Path, part: string, rooted: bool): Path {
    if part == "" || part == "." then stack
    else if part == ".." then
      if stack != [] && stack[|stack| - 1] != ".." then stack[..|stack| - 1]
      else if rooted then stack
      else stack + [".."]
    else stack + [part]
  }

  function PushAll(stack: Path, parts: Path, rooted: bool): Path
    decreases |parts|
  {
    if parts == [] then stack else PushAll(Push(stack, parts[0], rooted), parts[1..], rooted)
  }

  /** filepath.Clean on a system with '/' as separator. */
  function Clean(p: string): string {
    var rooted := p != "" && p[0] == '/';
    var stack := PushAll([], Split(p), rooted);
    if rooted then "/" + Join(stack) else if stack == [] then "." else Join(stack)
  }

  predicate Contains(s: string, c: char) {
    exists i :: 0 <= i < |s| && s[i] == c
  }

  predicate HasPrefix(s: string, prefix: string) {
    prefix <= s
  }

  predicate TextAt(s: string, i: nat, text: string) {
    i + |text| <= |s| && s[i..i + |text|] == text
  }

  /** strings.Contains */
  predicate ContainsText(s: string, text: string) {
    exists i :: 0 <= i <= |s| && TextAt(s, i, text)
  }

  /** The checks of validRelPath in its order; true stands for its nil error. */
  predicate ValidRelPath(p: string) {
    if p == "" || |p| > 300 then false
    else if Contains(p, '\\') || Contains(p, '\0') || Contains(p, '\n') || Contains(p, '\r') then false
    else if Clean(p) != p || HasPrefix(p, "/") || HasPrefix(p, "../") || ContainsText(p, "/../") then false
    else forall i :: 0 <= i < |Split(p)| ==> Split(p)[i] != ".git" && Split(p)[i] != ".." && Split(p)[i] != ""
  }

  predicate PlainPart(part: string) {
    part != "" && part != "." && part != ".." && part != ".git"
  }

  predicate CleanPart(part: string) {
    part != "" && part != "." && part != ".." && NoSlash(part)
  }

  lemma {:induction false} PushAllPlain(stack: Path, parts: Path)
    requires forall i :: 0 <= i < |parts| ==> CleanPart(parts[i])
    ensures PushAll(stack, parts, false) == stack + parts
    decreases |parts|
  {
    if parts != [] {
      PushAllPlain(stack + [parts[0]], parts[1..]);
      assert stack + [parts[0]] + parts[1..] == stack + parts;
    } else {
      assert stack + parts == stack;
    }
  }

  predicate Kept(stack: Path) {
    forall i :: 0 <= i < |stack| ==> stack[i] != "" && stack[i] != "." && NoSlash(stack[i])
  }

  /** What Clean keeps has no empty and no "." element. */
  lemma {:induction false} PushAllKeeps(stack: Path, parts: Path, rooted: bool)
    requires Kept(stack) && forall i :: 0 <= i < |parts| ==> NoSlash(parts[i])
    ensures Kept(PushAll(stack, parts, rooted))
    decreases |parts|
  {
    if parts != [] {
      PushAllKeeps(Push(stack, parts[0], rooted), parts[1..], rooted);
    }
  }

  /** A relative path with only ordinary components. */
  predicate PlainRelative(p: string) {
    forall i :: 0 <= i < |Split(p)| ==> PlainPart(Split(p)[i])
  }

  predicate Sane(p: string) {
    1 <= |p| <= 300 && forall i :: 0 <= i < |p| ==> p[i] != '\\' && p[i] != '\0' && p[i] != '\n' && p[i] != '\r'
  }

  /** A leading slash is an empty first component, an inner "/../" is a ".." component. */
  lemma {:induction false} SplitShows(p: string)
    ensures HasPrefix(p, "/") ==> Split(p)[0] == ""
    ensures HasPrefix(p, "../") ==> Split(p)[0] == ".."
    ensures ContainsText(p, "/../") ==> ".." in Split(p)
  {
    if HasPrefix(p, "../") {
      assert p == ".." + "/" + p[3..];
      SplitAtSlash("..", p[3..]);
    }
    if ContainsText(p, "/../") {
      var i :| 0 <= i <= |p| && TextAt(p, i, "/../");
      assert p[i..i + 4] == "/../";
      var tail := p[i + 1..];
      assert p[i] == '/' && p[i + 1] == '.' && p[i + 2] == '.' && p[i + 3] == '/';
      assert tail == ".." + "/" + p[i + 4..];
      SplitAtSlash("..", p[i + 4..]);
      SplitTail(p, i);
    }
  }

  /** Whatever follows a slash is split the same on its own. */
  lemma {:induction false} SplitTail(p: string, i: nat)
    requires i < |p| && p[i] == '/'
    ensures forall part :: part in Split(p[i + 1..]) ==> part in Split(p)
  {
    var rest := Split(p[1..]);
    if i == 0 {
      assert Split(p) == [""] + rest;
    } else {
      SplitTail(p[1..], i - 1);
      assert p[1..][i..] == p[i + 1..];
      SplitLater(p[1..], i - 1);
      assert forall part :: part in rest[1..] ==> part in Split(p);
    }
  }

  lemma {:induction false} SplitLater(p: string, i: nat)
    requires i < |p| && p[i] == '/'
    ensures |Split(p)| > 1 && forall part :: part in Split(p[i + 1..]) ==> part in Split(p)[1..]
  {
    var rest := Split(p[1..]);
    if i == 0 {
      assert Split(p)[1..] == rest;
    } else {
      SplitLater(p[1..], i - 1);
      assert p[1..][i..] == p[i + 1..];
      forall part | part in Split(p[i + 1..]) ensures part in Split(p)[1..] {
        assert part in rest[1..];
        if p[0] == '/' {
          assert Split(p)[1..] == [rest[0]] + rest[1..];
        } else {
          assert Split(p)[1..] == rest[1..];
        }
      }
    }
  }

  /** Clean leaves a path alone exactly when it is "." or, for a relative path without "..",
      when no component is empty or ".". */
  lemma CleanFixes(p: string)
    requires p != "" && !HasPrefix(p, "/") && ".." !in Split(p)
    ensures Clean(p) == p <==> p == "." || forall i :: 0 <= i < |Split(p)| ==> CleanPart(Split(p)[i])
  {
    var stack := PushAll([], Split(p), false);
    JoinSplit(p);
    PushAllKeeps([], Split(p), false);
    if forall i :: 0 <= i < |Split(p)| ==> CleanPart(Split(p)[i]) {
      PushAllPlain([], Split(p));
      assert [] + Split(p) == Split(p);
    }
    if p == "." {
      SplitAtSlash(".", "");
      assert PushAll([], ["."], false) == [];
    } else if Clean(p) == p {
      assert stack != [];
      SplitJoin(stack);
    }
  }

  /** The rule, component by component: the literal "." or only ordinary components. */
  lemma ValidRelPathExactly(p: string)
    ensures ValidRelPath(p) <==> Sane(p) && (p == "." || PlainRelative(p))
  {
    SplitShows(p);
    SplitAtSlash(".", "");
    if p != "" && !HasPrefix(p, "/") && ".." !in Split(p) {
      CleanFixes(p);
    }
    if Sane(p) && PlainRelative(p) {
      assert forall i :: 0 <= i < |Split(p)| ==> CleanPart(Split(p)[i]);
    }
    if p == "." {
      assert !HasPrefix(p, "/") && !HasPrefix(p, "../") && !ContainsText(p, "/../");
    }
  }

  /** The path WriteFiles builds: filepath.Join(shared, artifact, rel) before it cleans. */
  function Joined(artifact: string, rel: string): string {
    "shared" + "/" + (artifact + "/" + rel)
  }

  /** filepath.Join of the artifact directory and a path, as components below the root. */
  function FullPath(artifact: string, rel: string): Path {
    Split(Clean(Joined(artifact, rel)))
  }

  /** p is the entry shared/<artifact> or lies under it. */
  predicate Under(p: Path, artifact: string) {
    ["shared", artifact] <= p
  }

  lemma SplitJoined(artifact: string, rel: string)
    requires NoSlash(artifact)
    ensures Split(Joined(artifact, rel)) == ["shared", artifact] + Split(rel)
    ensures !HasPrefix(Joined(artifact, rel), "/")
  {
    hide Split;
    SplitAtSlash("shared", artifact + "/" + rel);
    SplitAtSlash(artifact, rel);
    assert ["shared"] + ([artifact] + Split(rel)) == ["shared", artifact] + Split(rel);
    assert Joined(artifact, rel)[0] == 's';
  }

  lemma PushAllDot(stack: Path)
    requires forall i :: 0 <= i < |stack| ==> CleanPart(stack[i])
    ensures PushAll([], stack + ["."], false) == stack
  {
    PushAllAppend([], stack, ["."]);
    PushAllPlain([], stack);
    assert ["."][1..] == [];
    assert [] + stack == stack;
  }

  lemma {:induction false} PushAllAppend(stack: Path, xs: Path, ys: Path)
    ensures PushAll(stack, xs + ys, false) == PushAll(PushAll(stack, xs, false), ys, false)
    decreases |xs|
  {
    if xs == [] {
      assert xs + ys == ys;
    } else {
      PushAllAppend(Push(stack, xs[0], false), xs[1..], ys);
      assert (xs + ys)[1..] == xs[1..] + ys;
    }
  }

  /** Cleaning a relative path keeps the components that are left on the stack. */
  lemma CleanSplits(p: string, stack: Path)
    requires !HasPrefix(p, "/") && PushAll([], Split(p), false) == stack != []
    requires forall i :: 0 <= i < |stack| ==> CleanPart(stack[i])
    ensures Split(Clean(p)) == stack
  {
    hide PushAll, Split, Join;
    assert p == "" || p[0] != '/' by { assert p != "" && p[0] == '/' ==> "/" <= p; }
    SplitJoin(stack);
  }

  /** An accepted path stays in its artifact: joining and cleaning gives the entry or a path below it, component by
      component. */
  lemma FullPathStaysUnder(artifact: string, rel: string)
    requires IsSlug(artifact) && ValidRelPath(rel)
    ensures FullPath(artifact, rel) == ["shared", artifact] + (if rel == "." then [] else Split(rel))
    ensures Under(FullPath(artifact, rel), artifact)
  {
    hide PushAll, Split, Join, ValidRelPath, Clean, HasPrefix, Joined;
    ValidRelPathExactly(rel);
    SplitJoined(artifact, rel);
    var dir := ["shared", artifact];
    var full := dir + (if rel == "." then [] else Split(rel));
    assert forall i :: 0 <= i < |full| ==> CleanPart(full[i]);
    if rel == "." {
      SplitAtSlash(".", "");
      PushAllDot(dir);
      assert full == dir;
    } else {
      PushAllPlain([], full);
      assert [] + full == full;
    }
    CleanSplits(Joined(artifact, rel), full);
  }

  /** A path that the check refuses can lead out of the artifact. */
  lemma RefusedPathsClimb(artifact: string)
    requires IsSlug(artifact)
    ensures !ValidRelPath("../x") && FullPath(artifact, "../x") == ["shared", "x"]
  {
    hide PushAll, ValidRelPath, Split, Join, Clean, HasPrefix, Joined;
    SplitAtSlash("..", "x");
    SplitAtSlash("x", "");
    assert ".." + "/" + "x" == "../x" && [".."] + ["x"] == ["..", "x"];
    SplitJoined(artifact, "../x");
    ValidRelPathExactly("../x");
    assert !PlainPart(Split("../x")[0]);
    ClimbsOut(artifact);
    CleanSplits(Joined(artifact, "../x"), ["shared", "x"]);
  }

  lemma ClimbsOut(artifact: string)
    requires CleanPart(artifact)
    ensures PushAll([], ["shared", artifact] + ["..", "x"], false) == ["shared", "x"]
  {
    var dir := ["shared", artifact];
    PushAllAppend([], dir, ["..", "x"]);
    PushAllPlain([], dir);
    assert [] + dir == dir;
    ClimbsAndEnters(dir);
  }

  lemma ClimbsAndEnters(dir: Path)
    requires |dir| > 1 && dir[|dir| - 1] != ".."
    ensures PushAll(dir, ["..", "x"], false) == dir[..|dir| - 1] + ["x"]
  {
    assert ["..", "x"][1..] == ["x"] && ["x"][1..] == [];
    assert Push(dir, "..", false) == dir[..|dir| - 1];
    assert PushAll(dir, ["..", "x"], false) == PushAll(dir[..|dir| - 1], ["x"], false);
  }
}
