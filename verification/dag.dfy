/** The commit graph of a repository. A commit is named by its position, so a new one is always fresh. */
module Dag {
  import opened FileTree

  datatype Commit =
    | Root(tree: Tree)
    | Child(parent: nat, tree: Tree)
    | Join(ours: nat, theirs: nat, tree: Tree)
  {
    predicate Below(n: nat) {
      match this
      case Root(_) => n == 0
      case Child(p, _) => p < n
      case Join(p, q, _) => p < n && q < n
    }
  }

  /** One root, parents before children. */
  ghost predicate IsHistory(h: seq<Commit>) {
    |h| > 0 && forall i :: 0 <= i < |h| ==> h[i].Below(i)
  }

  type History = h: seq<Commit> | IsHistory(h) ghost witness [Root(map[])]

  /** The commits reachable from c, itself included. */
  function Anc(h: History, c: nat): (r: set<nat>)
    requires c < |h|
    ensures c in r && 0 in r && forall d :: d in r ==> d <= c
  {
    match h[c]
    case Root(_) => {c}
    case Child(p, _) => {c} + Anc(h, p)
    case Join(p, q, _) => {c} + Anc(h, p) + Anc(h, q)
  }

  lemma {:induction false} AncGrows(h: History, h2: History, c: nat)
    requires h <= h2 && c < |h|
    ensures Anc(h2, c) == Anc(h, c)
  {
    assert h2[c] == h[c];
    match h[c]
    case Root(_) =>
    case Child(p, _) => AncGrows(h, h2, p);
    case Join(p, q, _) => AncGrows(h, h2, p); AncGrows(h, h2, q);
  }

  lemma {:induction false} AncTransitive(h: History, c: nat, d: nat)
    requires c < |h| && d in Anc(h, c)
    ensures Anc(h, d) <= Anc(h, c)
  {
    if d != c {
      match h[c]
      case Root(_) =>
      case Child(p, _) => AncTransitive(h, p, d);
      case Join(p, q, _) => if d in Anc(h, p) { AncTransitive(h, p, d); } else { AncTransitive(h, q, d); }
    }
  }

  // Best common ancestors

  /** c is a common ancestor of a and b and no other common ancestor descends from it. */
  ghost predicate IsMergeBase(h: History, a: nat, b: nat, c: nat)
    requires a < |h| && b < |h|
  {
    && c in Anc(h, a) * Anc(h, b)
    && forall d :: d in Anc(h, a) * Anc(h, b) && c in Anc(h, d) ==> d == c
  }

  /** The newest common ancestor at or below k. */
  function NewestCommon(h: History, a: nat, b: nat, k: nat): (c: nat)
    requires a < |h| && b < |h|
    ensures c in Anc(h, a) * Anc(h, b) && c <= k
    ensures forall d :: d in Anc(h, a) * Anc(h, b) && d <= k ==> d <= c
  {
    if k in Anc(h, a) && k in Anc(h, b) then k
    else NewestCommon(h, a, b, k - 1)
  }

  function MergeBase(h: History, a: nat, b: nat): (c: nat)
    requires a < |h| && b < |h|
    ensures c in Anc(h, a) * Anc(h, b)
  {
    NewestCommon(h, a, b, a)
  }

  /** The newest common ancestor is always a best one. */
  lemma MergeBaseIsBest(h: History, a: nat, b: nat)
    requires a < |h| && b < |h|
    ensures IsMergeBase(h, a, b, MergeBase(h, a, b))
  {
  }

  // Chains

  /** Going back from c, only single-parent commits confined to artifact until trunk is reached. */
  ghost predicate Chain(h: History, c: nat, trunk: set<nat>, artifact: string)
    requires c < |h|
  {
    c in trunk ||
    (h[c].Child? && SameOutside(h[h[c].parent].tree, h[c].tree, artifact) && Chain(h, h[c].parent, trunk, artifact))
  }

  /** The commits of the chain that are not in trunk. */
  function Links(h: History, c: nat, trunk: set<nat>): (r: set<nat>)
    requires c < |h|
    ensures r !! trunk && forall d :: d in r ==> d <= c
  {
    if c in trunk || !h[c].Child? then {} else {c} + Links(h, h[c].parent, trunk)
  }

  /** Where the chain leaves trunk. */
  function Fork(h: History, c: nat, trunk: set<nat>): (r: nat)
    requires c < |h|
    ensures r <= c
  {
    if c in trunk || !h[c].Child? then c else Fork(h, h[c].parent, trunk)
  }

  lemma {:induction false} ChainShape(h: History, c: nat, m: nat, artifact: string)
    requires c < |h| && m < |h| && Chain(h, c, Anc(h, m), artifact)
    ensures var r := Fork(h, c, Anc(h, m));
            && r in Anc(h, m) && r in Anc(h, c)
            && Anc(h, c) == Anc(h, r) + Links(h, c, Anc(h, m))
            && Anc(h, c) * Anc(h, m) == Anc(h, r)
            && SameOutside(h[r].tree, h[c].tree, artifact)
  {
    var trunk := Anc(h, m);
    if c in trunk {
      AncTransitive(h, m, c);
    } else {
      ChainShape(h, h[c].parent, m, artifact);
    }
  }

  /** A chain meets trunk in one best common ancestor: the history is never criss-cross. */
  lemma ChainHasOneMergeBase(h: History, c: nat, m: nat, artifact: string)
    requires c < |h| && m < |h| && Chain(h, c, Anc(h, m), artifact)
    ensures MergeBase(h, m, c) == Fork(h, c, Anc(h, m))
    ensures forall d :: IsMergeBase(h, m, c, d) <==> d == MergeBase(h, m, c)
  {
    ChainShape(h, c, m, artifact);
    var r := Fork(h, c, Anc(h, m));
    assert Anc(h, m) * Anc(h, c) == Anc(h, r);
    AncTransitive(h, m, r);
    MergeBaseIsBest(h, m, c);
    forall d | IsMergeBase(h, m, c, d) ensures d == r {
      assert d in Anc(h, r);
    }
  }

  /** Every ancestor of a commit on a chain is on that chain or in trunk. */
  lemma {:induction false} AncestorsOnChain(h: History, c: nat, d: nat, m: nat, artifact: string)
    requires c < |h| && m < |h| && d in Anc(h, c) && Chain(h, c, Anc(h, m), artifact)
    ensures d < |h| && Chain(h, d, Anc(h, m), artifact)
  {
    if c in Anc(h, m) {
      AncTransitive(h, m, c);
    } else if d != c {
      AncestorsOnChain(h, h[c].parent, d, m, artifact);
    }
  }

  /** A longer history and a larger trunk keep every chain. */
  lemma {:induction false} ChainMonotone(h: History, h2: History, c: nat, trunk: set<nat>, trunk2: set<nat>,
                                         artifact: string)
    requires h <= h2 && trunk <= trunk2 && c < |h| && Chain(h, c, trunk, artifact)
    ensures Chain(h2, c, trunk2, artifact)
  {
    assert h2[c] == h[c];
    if c !in trunk {
      ChainMonotone(h, h2, h[c].parent, trunk, trunk2, artifact);
    }
  }

  // Trees along the history

  /** No commit drops a path of a parent, and no commit confuses a file with a directory. */
  ghost predicate TreesGrow(h: History) {
    forall i :: 0 <= i < |h| ==>
      && ProperTree(h[i].tree)
      && (h[i].Child? ==> h[h[i].parent].tree.Keys <= h[i].tree.Keys)
      && (h[i].Join? ==> h[h[i].ours].tree.Keys <= h[i].tree.Keys && h[h[i].theirs].tree.Keys <= h[i].tree.Keys)
  }

  lemma {:induction false} AncestorsHaveFewerPaths(h: History, c: nat, d: nat)
    requires TreesGrow(h) && c < |h| && d in Anc(h, c)
    ensures h[d].tree.Keys <= h[c].tree.Keys
  {
    if d != c {
      match h[c]
      case Root(_) =>
      case Child(p, _) => AncestorsHaveFewerPaths(h, p, d);
      case Join(p, q, _) =>
        if d in Anc(h, p) { AncestorsHaveFewerPaths(h, p, d); } else { AncestorsHaveFewerPaths(h, q, d); }
    }
  }
}
