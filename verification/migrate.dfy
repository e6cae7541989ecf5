/** The migration runner: each file runs in one transaction with the row that records it; any attempt may be cut off. */
module Migrations {
  import opened Sorts

  /** The recorded names, and the files whose changes are in the schema, in the order they were committed. */
  datatype Db = Db(recorded: set<string>, applied: seq<string>)

  /** What goes wrong at one file, if anything. A commit may land although its reply is lost. */
  datatype Fault = Fine | QueryFails | FileFails | BeginFails | ExecFails | RecordFails | CommitFails(landed: bool) |
      Dies(landed: bool)

  /** The transaction: the file and its row together. */
  function Commit(db: Db, name: string): Db {
    Db(db.recorded + {name}, db.applied + [name])
  }

  /** One turn of the loop: the database afterwards, and whether the loop goes on. */
  function Turn(db: Db, name: string, fault: Fault): (Db, bool) {
    if fault.QueryFails? then (db, false)
    else if name in db.recorded then (db, !fault.Dies?)
    else match fault
      case Fine => (Commit(db, name), true)
      case CommitFails(landed) => (if landed then Commit(db, name) else db, false)
      case Dies(landed) => (if landed then Commit(db, name) else db, false)
      case _ => (db, false)
  }

  /** One attempt over the sorted names: the database afterwards, and whether Migrate returned without an error. */
  function Attempt(db: Db, names: seq<string>, faults: string -> Fault): (Db, bool)
    decreases |names|
  {
    if names == [] then (db, true)
    else
      var (next, on) := Turn(db, names[0], faults(names[0]));
      if on then Attempt(next, names[1..], faults) else (next, false)
  }

  // The loop

  /** strings.HasSuffix */
  predicate HasSuffix(name: string, suffix: string) {
    |suffix| <= |name| && name[|name| - |suffix|..] == suffix
  }

  predicate IsSql(name: string) {
    HasSuffix(name, ".sql")
  }

  function SqlNames(entries: seq<string>): seq<string> {
    if entries == [] then []
    else SqlNames(entries[..|entries| - 1]) + (if IsSql(entries[|entries| - 1]) then [entries[|entries| - 1]] else [])
  }

  /** The names to run: the directory entries that end in .sql, as often as they occur, in byte order. */
  ghost predicate RunsOver(entries: seq<string>, names: seq<string>) {
    && (forall i, j :: 0 <= i < j < |names| ==> Leq(names[i], names[j]))
    && forall name :: multiset(names)[name] == if HasSuffix(name, ".sql") then multiset(entries)[name] else 0
  }

  lemma {:induction false} SqlNamesCount(entries: seq<string>, name: string)
    ensures multiset(SqlNames(entries))[name] == if IsSql(name) then multiset(entries)[name] else 0
  {
    if entries != [] {
      var init, last := entries[..|entries| - 1], entries[|entries| - 1];
      SqlNamesCount(init, name);
      assert entries == init + [last];
    }
  }

  lemma RunsOverSorting(entries: seq<string>, names: seq<string>)
    ensures RunsOver(entries, names) <==> Sorting(SqlNames(entries), names, Self)
  {
    hide Leq, HasSuffix, SqlNames;
    forall name {
      SqlNamesCount(entries, name);
    }
    if RunsOver(entries, names) {
      assert forall name :: multiset(names)[name] == multiset(SqlNames(entries))[name];
      assert multiset(names) == multiset(SqlNames(entries));
    }
  }

  class Database {
    var recorded: set<string>
    var applied: seq<string>

    constructor ()
      ensures View() == Db({}, [])
    {
      recorded, applied := {}, [];
    }

    function View(): Db
      reads this
    {
      Db(recorded, applied)
    }

    /** Migrate, once the tracking table is there; entries is the embedded directory. */
    method Migrate(entries: seq<string>, faults: string -> Fault) returns (ok: bool)
      modifies this
      ensures forall names :: RunsOver(entries, names) ==> (View(), ok) == Attempt(old(View()), names, faults)
    {
      hide RunsOver;
      forall names {
        RunsOverSorting(entries, names);
      }
      var found: seq<string> := [];
      for i := 0 to |entries|
        invariant found == SqlNames(entries[..i])
      {
        assert entries[..i + 1][..i] == entries[..i];
        if IsSql(entries[i]) {
          found := found + [entries[i]];
        }
      }
      assert entries[..|entries|] == entries;
      var names := new string[|found|](i requires 0 <= i < |found| => found[i]);
      assert names[..] == found;
      SortSlice(names, Self);
      OneSortingExactly(found, names[..], Self);
      ok := Run(names, faults);
    }

    /** The loop over the sorted names. */
    method Run(names: array<string>, faults: string -> Fault) returns (ok: bool)
      modifies this
      ensures (View(), ok) == Attempt(old(View()), names[..], faults)
    {
      assert names[0..] == names[..];
      for i := 0 to names.Length
        invariant Attempt(old(View()), names[..], faults) == Attempt(View(), names[i..], faults)
      {
        var name := names[i];
        var fault := faults(name);
        assert names[i..][0] == name && names[i..][1..] == names[i + 1..];
        if fault.QueryFails? {
          return false;
        }
        if name in recorded {
          if fault.Dies? {
            return false;
          }
        } else {
          if fault.Fine? || (fault.CommitFails? && fault.landed) || (fault.Dies? && fault.landed) {
            recorded, applied := recorded + {name}, applied + [name];
          }
          if !fault.Fine? {
            return false;
          }
        }
      }
      return true;
    }
  }

  // What the attempts keep

  predicate Distinct(names: seq<string>) {
    forall i, j :: 0 <= i < j < |names| ==> names[i] != names[j]
  }

  /** The names not recorded yet, in order. */
  function Missing(names: seq<string>, recorded: set<string>): (r: seq<string>)
    ensures forall x :: x in r <==> x in names && x !in recorded
  {
    if names == [] then []
    else (if names[0] in recorded then [] else [names[0]]) + Missing(names[1..], recorded)
  }

  /** Recorded exactly what was applied, each file once. */
  ghost predicate Consistent(db: Db) {
    Distinct(db.applied) && forall x :: x in db.recorded <==> x in db.applied
  }

  lemma {:induction false} MissingWithout(names: seq<string>, recorded: set<string>, name: string)
    requires name !in names
    ensures Missing(names, recorded + {name}) == Missing(names, recorded)
  {
    if names != [] {
      MissingWithout(names[1..], recorded, name);
    }
  }

  /** From any database: an attempt commits the missing files in order up to some point, all of them if it reports
      success. */
  lemma {:induction false} AttemptAppends(db: Db, names: seq<string>, faults: string -> Fault)
    returns (more: seq<string>)
    requires Consistent(db) && Distinct(names)
    ensures var (after, ok) := Attempt(db, names, faults);
            && Consistent(after)
            && after.applied == db.applied + more
            && more <= Missing(names, db.recorded)
            && (ok ==> more == Missing(names, db.recorded))
    decreases |names|
  {
    hide Consistent, Turn;
    more := [];
    if names != [] {
      var name := names[0];
      var (next, on) := Turn(db, name, faults(name));
      TurnAppends(db, name, faults(name));
      MissingWithout(names[1..], db.recorded, name);
      if on {
        more := AttemptAppends(next, names[1..], faults);
      }
      if name !in db.recorded && next == Commit(db, name) {
        more := [name] + more;
      }
    }
  }

  lemma TurnAppends(db: Db, name: string, fault: Fault)
    requires Consistent(db)
    ensures var (next, on) := Turn(db, name, fault);
            && Consistent(next)
            && (next == db || (name !in db.recorded && next == Commit(db, name)))
            && (on && name !in db.recorded ==> next == Commit(db, name))
  {
  }

  /** The loop gets past this file. */
  predicate Passes(db: Db, name: string, fault: Fault) {
    fault.Fine? || (name in db.recorded && !fault.QueryFails? && !fault.Dies?)
  }

  /** The transaction took although the attempt ends here. */
  predicate Lands(fault: Fault) {
    (fault.CommitFails? || fault.Dies?) && fault.landed
  }

  /** An attempt ends without success at the first file it does not get past: what was missing before it is committed,
      and the file itself if its transaction took. */
  lemma {:induction false} AttemptStopsAt(db: Db, names: seq<string>, faults: string -> Fault, i: nat)
    requires Distinct(names) && i < |names| && !Passes(db, names[i], faults(names[i]))
    requires forall j :: 0 <= j < i ==> Passes(db, names[j], faults(names[j]))
    ensures var (after, ok) := Attempt(db, names, faults);
            var last := if names[i] !in db.recorded && Lands(faults(names[i])) then [names[i]] else [];
            !ok && after.applied == db.applied + Missing(names[..i], db.recorded) + last
    decreases |names|
  {
    hide Attempt, Turn, Missing, Passes;
    if i == 0 {
      StopsHere(db, names, faults);
      assert names[..0] == [];
    } else {
      var name, rest, next := names[0], names[1..], if names[0] in db.recorded then db else Commit(db, names[0]);
      PassesOn(db, names, faults, i);
      assert rest[i - 1] == names[i] && forall j :: 0 <= j < i - 1 ==> rest[j] == names[j + 1];
      forall j | 0 <= j <= i - 1 ensures Passes(next, rest[j], faults(rest[j])) <==> j < i - 1 {
        SamePass(db, name, rest[j], faults(rest[j]));
      }
      AttemptStopsAt(next, rest, faults, i - 1);
    }
  }

  lemma SamePass(db: Db, done: string, name: string, fault: Fault)
    requires name != done
    ensures Passes(Commit(db, done), name, fault) <==> Passes(db, name, fault)
  {
  }

  lemma StopsHere(db: Db, names: seq<string>, faults: string -> Fault)
    requires names != [] && !Passes(db, names[0], faults(names[0]))
    ensures var last := if names[0] !in db.recorded && Lands(faults(names[0])) then [names[0]] else [];
            var (after, ok) := Attempt(db, names, faults);
            !ok && after.applied == db.applied + last && Missing([], db.recorded) == []
  {
  }

  lemma PassesOn(db: Db, names: seq<string>, faults: string -> Fault, i: nat)
    requires Distinct(names) && 0 < i < |names| && Passes(db, names[0], faults(names[0]))
    ensures var next := if names[0] in db.recorded then db else Commit(db, names[0]);
            && Attempt(db, names, faults) == Attempt(next, names[1..], faults)
            && db.applied + Missing(names[..i], db.recorded) ==
               next.applied + Missing(names[1..][..i - 1], next.recorded)
  {
    var name, rest := names[0], names[1..][..i - 1];
    assert names[..i][1..] == rest && names[..i][0] == name;
    MissingWithout(rest, db.recorded, name);
  }

  /** Any number of attempts, one after another. */
  function Attempts(db: Db, names: seq<string>, runs: seq<string -> Fault>): Db {
    if runs == [] then db else Attempt(Attempts(db, names, runs[..|runs| - 1]), names, runs[|runs| - 1]).0
  }

  lemma {:induction false} MissingOfPrefix(names: seq<string>, n: nat, recorded: set<string>)
    requires Distinct(names) && n <= |names| && forall x :: x in recorded <==> x in names[..n]
    ensures Missing(names, recorded) == names[n..]
  {
    MissingSuffix(names, 0, n, recorded);
    assert names[0..] == names;
  }

  lemma {:induction false} MissingSuffix(names: seq<string>, k: nat, n: nat, recorded: set<string>)
    requires Distinct(names) && k <= |names| && n <= |names| && forall x :: x in recorded <==> x in names[..n]
    ensures Missing(names[k..], recorded) == names[if k < n then n else k..]
    decreases |names| - k
  {
    if k < |names| {
      MissingSuffix(names, k + 1, n, recorded);
      assert names[k..][1..] == names[k + 1..];
      assert names[k] in names[..n] <==> k < n;
      if n <= k {
        assert names[k..] == [names[k]] + names[k + 1..];
      }
    }
  }

  /** However often the runner is cut off and started again, what is committed is a prefix of the sorted files,
      each once and in order, and the tracking table says exactly that. */
  lemma {:induction false} AlwaysAPrefix(names: seq<string>, runs: seq<string -> Fault>)
    requires Distinct(names)
    ensures var db := Attempts(Db({}, []), names, runs); Consistent(db) && db.applied <= names
  {
    if runs != [] {
      var db := Attempts(Db({}, []), names, runs[..|runs| - 1]);
      AlwaysAPrefix(names, runs[..|runs| - 1]);
      MissingOfPrefix(names, |db.applied|, db.recorded);
      var more := AttemptAppends(db, names, runs[|runs| - 1]);
      assert names == db.applied + names[|db.applied|..];
    }
  }

  /** An attempt reports success only when everything is committed, and one without faults does. */
  lemma SuccessMeansComplete(names: seq<string>, runs: seq<string -> Fault>, faults: string -> Fault)
    requires Distinct(names)
    ensures var (after, ok) := Attempt(Attempts(Db({}, []), names, runs), names, faults);
            && (ok ==> after.applied == names)
            && ((forall name :: name in names ==> faults(name).Fine?) ==> ok)
  {
    var db := Attempts(Db({}, []), names, runs);
    AlwaysAPrefix(names, runs);
    MissingOfPrefix(names, |db.applied|, db.recorded);
    var more := AttemptAppends(db, names, faults);
    assert names == db.applied + names[|db.applied|..];
    if forall name :: name in names ==> faults(name).Fine? {
      FineSucceeds(db, names, faults);
    }
  }

  lemma {:induction false} FineSucceeds(db: Db, names: seq<string>, faults: string -> Fault)
    requires forall name :: name in names ==> faults(name).Fine?
    ensures Attempt(db, names, faults).1
    decreases |names|
  {
    if names != [] {
      FineSucceeds(Turn(db, names[0], Fine).0, names[1..], faults);
    }
  }

  /** Once everything is committed, no attempt changes anything. */
  lemma CompleteIsFinal(names: seq<string>, runs: seq<string -> Fault>, faults: string -> Fault)
    requires Distinct(names) && Attempts(Db({}, []), names, runs).applied == names
    ensures var db := Attempts(Db({}, []), names, runs); Attempt(db, names, faults).0 == db
  {
    AlwaysAPrefix(names, runs);
    RecordedIsSkipped(Attempts(Db({}, []), names, runs), names, faults);
  }

  lemma {:induction false} RecordedIsSkipped(db: Db, names: seq<string>, faults: string -> Fault)
    requires forall name :: name in names ==> name in db.recorded
    ensures Attempt(db, names, faults).0 == db
  {
    if names != [] {
      RecordedIsSkipped(db, names[1..], faults);
    }
  }
}
