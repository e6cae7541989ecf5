/** Sorting a slice in place by a string key. */
module Sorts {
  /** Byte order on strings. */
  predicate Leq(s: string, t: string) {
    s == "" || (t != "" && (s[0] < t[0] || (s[0] == t[0] && Leq(s[1..], t[1..]))))
  }

  lemma {:induction false} LeqTotal(s: string, t: string)
    ensures Leq(s, t) || Leq(t, s)
    ensures Leq(s, t) && Leq(t, s) ==> s == t
  {
    if s != "" && t != "" {
      LeqTotal(s[1..], t[1..]);
      assert s == [s[0]] + s[1..] && t == [t[0]] + t[1..];
    }
  }

  lemma {:induction false} LeqTransitive(s: string, t: string, u: string)
    requires Leq(s, t) && Leq(t, u)
    ensures Leq(s, u)
  {
    if s != "" && t != "" && u != "" && s[0] == t[0] == u[0] {
      LeqTransitive(s[1..], t[1..], u[1..]);
    }
  }

  /** One string comes before another when it is a prefix of it or has the smaller byte where they first differ. */
  lemma {:induction false} LeqIsByteOrder(s: string, t: string)
    ensures Leq(s, t) <==>
            s <= t || exists i :: 0 <= i < |s| && i < |t| && s[..i] == t[..i] && s[i] < t[i]
  {
    if s != "" && t != "" {
      LeqIsByteOrder(s[1..], t[1..]);
      if s[0] == t[0] && Leq(s[1..], t[1..]) && !(s[1..] <= t[1..]) {
        var i :| 0 <= i < |s[1..]| && i < |t[1..]| && s[1..][..i] == t[1..][..i] && s[1..][i] < t[1..][i];
        assert s[..i + 1] == [s[0]] + s[1..][..i] && t[..i + 1] == [t[0]] + t[1..][..i];
        assert s[i + 1] < t[i + 1];
      }
      if i :| 0 <= i < |s| && i < |t| && s[..i] == t[..i] && s[i] < t[i] {
        if i > 0 {
          assert s[0] == s[..i][0] == t[0];
          assert s[1..][..i - 1] == s[..i][1..] && t[1..][..i - 1] == t[..i][1..];
          assert s[1..][i - 1] < t[1..][i - 1];
        } else {
          assert s[..0] == t[..0];
        }
      }
      if s[0] < t[0] {
        assert s[..0] == t[..0];
      }
      assert s == [s[0]] + s[1..] && t == [t[0]] + t[1..];
    }
  }

  ghost predicate SortedBy<T(!new)>(xs: seq<T>, key: T -> string) {
    forall i, j :: 0 <= i < j < |xs| ==> Leq(key(xs[i]), key(xs[j]))
  }

  ghost predicate Sorting<T(!new)>(xs: seq<T>, sorted: seq<T>, key: T -> string) {
    SortedBy(sorted, key) && multiset(sorted) == multiset(xs)
  }

  /** The key picks out the element. */
  ghost predicate KeyDetermines<T(!new)>(xs: seq<T>, key: T -> string) {
    forall x, y :: x in xs && y in xs && key(x) == key(y) ==> x == y
  }

  /** In order except perhaps at j. */
  ghost predicate SortedBut<T(!new)>(xs: seq<T>, j: int, key: T -> string) {
    forall p, q :: 0 <= p < q < |xs| && q != j ==> Leq(key(xs[p]), key(xs[q]))
  }

  lemma SwapKeepsContents<T>(xs: seq<T>, i: nat, j: nat)
    requires i < |xs| && j < |xs|
    ensures multiset(xs[i := xs[j]][j := xs[i]]) == multiset(xs)
  {
  }

  /** Moving a smaller element one place forward. */
  lemma SwapForward<T(!new)>(xs: seq<T>, j: nat, key: T -> string)
    requires 0 < j < |xs| && SortedBut(xs, j, key) && Leq(key(xs[j]), key(xs[j - 1]))
    requires forall q :: j < q < |xs| ==> Leq(key(xs[j]), key(xs[q]))
    ensures var ys := xs[j := xs[j - 1]][j - 1 := xs[j]];
            SortedBut(ys, j - 1, key) && forall q :: j - 1 < q < |ys| ==> Leq(key(ys[j - 1]), key(ys[q]))
  {
  }

  /** Moves a[i] forward to its place among the sorted elements before it. */
  method Sift<T(!new)>(a: array<T>, i: nat, key: T -> string)
    requires i < a.Length && SortedBy(a[..i], key)
    modifies a
    ensures SortedBy(a[..i + 1], key)
    ensures multiset(a[..]) == multiset(old(a[..]))
  {
    hide Leq;
    var j := i;
    while j > 0 && !Leq(key(a[j - 1]), key(a[j]))
      invariant 0 <= j <= i
      invariant SortedBut(a[..i + 1], j, key)
      invariant forall q :: j < q <= i ==> Leq(key(a[j]), key(a[q]))
      invariant multiset(a[..]) == multiset(old(a[..]))
    {
      ghost var xs, all := a[..i + 1], a[..];
      LeqTotal(key(a[j - 1]), key(a[j]));
      SwapForward(xs, j, key);
      SwapKeepsContents(all, j, j - 1);
      a[j], a[j - 1] := a[j - 1], a[j];
      assert a[..i + 1] == xs[j := xs[j - 1]][j - 1 := xs[j]];
      assert a[..] == all[j := all[j - 1]][j - 1 := all[j]];
      j := j - 1;
    }
    InPlace(a[..i + 1], j, key);
  }

  /** sort.Slice with the key's order, in place. */
  method SortSlice<T(!new)>(a: array<T>, key: T -> string)
    modifies a
    ensures Sorting(old(a[..]), a[..], key)
  {
    hide Leq;
    for i := 0 to a.Length
      invariant SortedBy(a[..i], key)
      invariant multiset(a[..]) == multiset(old(a[..]))
    {
      Sift(a, i, key);
    }
    assert a[..a.Length] == a[..];
  }

  lemma InPlace<T(!new)>(xs: seq<T>, j: nat, key: T -> string)
    requires j < |xs| && SortedBut(xs, j, key) && (j > 0 ==> Leq(key(xs[j - 1]), key(xs[j])))
    ensures SortedBy(xs, key)
  {
    forall p | 0 <= p < j ensures Leq(key(xs[p]), key(xs[j])) {
      if p < j - 1 {
        LeqTransitive(key(xs[p]), key(xs[j - 1]), key(xs[j]));
      }
    }
  }

  /** Two sorted lists with the same elements, each picked out by its key, are the same list. */
  lemma {:induction false} SortedSame<T(!new)>(s: seq<T>, t: seq<T>, key: T -> string)
    requires KeyDetermines(s, key) && SortedBy(s, key) && SortedBy(t, key) && multiset(s) == multiset(t)
    ensures s == t
    decreases |s|
  {
    hide Leq, SortedBy;
    if s == [] || t == [] {
      assert |s| == |multiset(s)| && |t| == |multiset(t)|;
    } else {
      FirstIsLeast(s, t, key);
      FirstIsLeast(t, s, key);
      LeqTotal(key(s[0]), key(t[0]));
      assert t[0] in multiset(t);
      assert s[0] == t[0];
      TailSorted(s, key);
      TailSorted(t, key);
      SortedSame(s[1..], t[1..], key);
    }
  }

  /** A list whose keys determine its elements can be sorted in one way only. */
  lemma SortingUnique<T(!new)>(xs: seq<T>, s: seq<T>, t: seq<T>, key: T -> string)
    requires KeyDetermines(xs, key) && Sorting(xs, s, key) && Sorting(xs, t, key)
    ensures s == t
  {
    hide SortedBy;
    assert forall x :: x in s ==> x in multiset(s) && x in multiset(xs) && x in xs;
    SortedSame(s, t, key);
  }

  lemma TailSorted<T(!new)>(s: seq<T>, key: T -> string)
    requires SortedBy(s, key) && s != []
    ensures SortedBy(s[1..], key) && multiset(s[1..]) == multiset(s) - multiset{s[0]} && s == [s[0]] + s[1..]
  {
    assert s == [s[0]] + s[1..];
  }

  lemma FirstIsLeast<T(!new)>(s: seq<T>, t: seq<T>, key: T -> string)
    requires SortedBy(s, key) && multiset(s) == multiset(t) && s != [] && t != []
    ensures Leq(key(s[0]), key(t[0]))
  {
    assert t[0] in multiset(s);
    var k :| 0 <= k < |s| && s[k] == t[0];
    LeqTotal(key(s[0]), key(s[0]));
  }

  /** Where two entries share a key and differ, there are two ways to sort. */
  lemma SortingNotUnique<T(!new)>(xs: seq<T>, s: seq<T>, key: T -> string)
    requires Sorting(xs, s, key) && !KeyDetermines(xs, key)
    ensures exists t :: Sorting(xs, t, key) && t != s
  {
    var x, y :| x in xs && y in xs && key(x) == key(y) && x != y;
    assert x in multiset(s) && y in multiset(s);
    var i :| 0 <= i < |s| && s[i] == x;
    var j :| 0 <= j < |s| && s[j] == y;
    var t := s[i := y][j := x];
    assert forall k :: 0 <= k < |s| ==> key(t[k]) == key(s[k]);
    SwapKeepsContents(s, i, j);
    assert t[i] != s[i];
    assert Sorting(xs, t, key);
  }

  /** The sorted list is determined exactly when the keys determine the entries. */
  lemma OneSortingExactly<T(!new)>(xs: seq<T>, s: seq<T>, key: T -> string)
    requires Sorting(xs, s, key)
    ensures (forall t :: Sorting(xs, t, key) ==> t == s) <==> KeyDetermines(xs, key)
  {
    hide Sorting;
    if KeyDetermines(xs, key) {
      forall t | Sorting(xs, t, key) ensures t == s {
        SortingUnique(xs, s, t, key);
      }
    } else {
      SortingNotUnique(xs, s, key);
    }
  }

  /** Strings are their own key. */
  function Self(s: string): string {
    s
  }

  /** Sorting changes neither what is in a list nor that nothing is twice. */
  lemma SortingKeepsDistinct<T(!new)>(xs: seq<T>, sorted: seq<T>, key: T -> string)
    requires Sorting(xs, sorted, key) && forall i, j :: 0 <= i < j < |xs| ==> xs[i] != xs[j]
    ensures forall x :: x in sorted <==> x in xs
    ensures forall i, j :: 0 <= i < j < |sorted| ==> sorted[i] != sorted[j]
  {
    forall x ensures x in sorted <==> x in xs {
      assert x in sorted <==> x in multiset(sorted);
      assert x in xs <==> x in multiset(xs);
    }
    forall i, j | 0 <= i < j < |sorted| ensures sorted[i] != sorted[j] {
      if sorted[i] == sorted[j] {
        TwiceCountsTwo(sorted, i, j);
        OnceCountsOne(xs, sorted[i]);
      }
    }
  }

  lemma TwiceCountsTwo<T>(xs: seq<T>, i: nat, j: nat)
    requires i < j < |xs| && xs[i] == xs[j]
    ensures multiset(xs)[xs[i]] >= 2
  {
    assert xs == xs[..j] + [xs[j]] + xs[j + 1..];
    assert xs[..j][i] == xs[i] && xs[i] in multiset(xs[..j]);
  }

  lemma {:induction false} OnceCountsOne<T>(xs: seq<T>, x: T)
    requires forall i, j :: 0 <= i < j < |xs| ==> xs[i] != xs[j]
    ensures multiset(xs)[x] <= 1
  {
    if xs != [] {
      var init, last := xs[..|xs| - 1], xs[|xs| - 1];
      OnceCountsOne(init, x);
      assert xs == init + [last];
      assert last in init ==> last in multiset(init);
      assert last !in init;
    }
  }
}
