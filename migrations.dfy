/**
 * The migration manager as a state machine over the ledger table.
 *
 * The ledger is the `migrations` table: whether it exists, its rows
 * `(id, migrations, created_at)` in insertion order and the next
 * auto-increment id. The directory listing is a sequence of file names (as
 * `scandir` returns them, `.` and `..` included); each migration's `up()` /
 * `down()` is recorded as an event in a trace, and the migrations whose
 * `up()`/`down()` throw are given as a set. The clock is a parameter.
 *
 * The table name is always `migrations`: every read of the configured name
 * goes through `$this->$dbConfig`, which never finds a configuration, so the
 * `?? 'migrations'` default applies. The migrations path likewise always falls
 * back to `/migrations`, which the source joins to the file name without a
 * `/`, so as written no migration file loads (ApplyAsWritten). Every other
 * member assumes the file of each migration loads.
 */
module Migrations {
  import opened Php
  import opened Strings

  const TABLE_NAME := "migrations"

  datatype Row = Row(id: nat, name: string, createdAt: int)

  /** The ledger table: present or not, its rows in insertion order, the next AUTO_INCREMENT value. */
  datatype Ledger = Ledger(present: bool, rows: seq<Row>, nextId: nat)

  const NO_TABLE := Ledger(false, [], 1)

  datatype Event = Up(migration: string) | Down(migration: string)

  datatype Failure =
    | MigrationThrew(migration: string)   // an `up()`/`down()` threw
    | MissingTable                        // a SELECT on a table that does not exist
    | MalformedSql                        // the statement does not parse
    | UninitializedConfig                 // a typed property read before it was set
    | MissingFile(path: string)           // `require_once` of a file that does not exist

  datatype Outcome = Done | NothingToDo | Failed(failure: Failure)

  /** The ledger, the up/down calls made, and how the operation ended. */
  datatype Run = Run(ledger: Ledger, events: seq<Event>, outcome: Outcome)

  /** Ids strictly increase along the table and stay below the next AUTO_INCREMENT value. */
  predicate Valid(l: Ledger) {
    (forall i, j :: 0 <= i < j < |l.rows| ==> l.rows[i].id < l.rows[j].id) &&
    (forall i :: 0 <= i < |l.rows| ==> l.rows[i].id < l.nextId) &&
    (!l.present ==> l.rows == [])
  }

  /** `CREATE TABLE IF NOT EXISTS`: a new table is empty and numbers from 1. */
  function Created(l: Ledger): (r: Ledger)
    ensures r.present
    ensures l.present ==> r == l
  {
    if l.present then l else Ledger(true, [], 1)
  }

  /** `SELECT migrations FROM ...`, in table order. */
  function Names(rows: seq<Row>): (ns: seq<string>)
    ensures |ns| == |rows|
  {
    if rows == [] then [] else [rows[0].name] + Names(rows[1..])
  }

  lemma {:induction false} NamesAt(rows: seq<Row>)
    ensures forall i :: 0 <= i < |rows| ==> Names(rows)[i] == rows[i].name
  {
    if rows != [] {
      NamesAt(rows[1..]);
      assert forall i :: 1 <= i < |rows| ==> rows[1..][i - 1] == rows[i];
    }
  }

  lemma {:induction false} NamesAppend(a: seq<Row>, b: seq<Row>)
    ensures Names(a + b) == Names(a) + Names(b)
  {
    if a != [] {
      assert (a + b)[1..] == a[1..] + b;
      NamesAppend(a[1..], b);
    } else {
      assert a + b == b;
    }
  }

  function Ups(ms: seq<string>): (es: seq<Event>)
    ensures |es| == |ms|
  {
    if ms == [] then [] else Ups(ms[..|ms| - 1]) + [Up(ms[|ms| - 1])]
  }

  function Downs(ms: seq<string>): (es: seq<Event>)
    ensures |es| == |ms|
  {
    if ms == [] then [] else Downs(ms[..|ms| - 1]) + [Down(ms[|ms| - 1])]
  }

  // ------------------------------------------------------- array functions

  /** `array_diff($files, $applied)`: the files not in the ledger, in listing order. */
  function Diff(files: seq<string>, applied: seq<string>): (r: seq<string>)
    ensures |r| <= |files|
  {
    if files == [] then []
    else (if files[0] in applied then [] else [files[0]]) + Diff(files[1..], applied)
  }

  lemma {:induction false} DiffSpec(files: seq<string>, applied: seq<string>)
    ensures forall x :: x in Diff(files, applied) <==> x in files && x !in applied
  {
    if files != [] {
      DiffSpec(files[1..], applied);
      assert files == [files[0]] + files[1..];
    }
  }

  /** `array_intersect($applied, $files)`: the ledger names also on disk, in ledger order. */
  function Intersect(applied: seq<string>, files: seq<string>): (r: seq<string>)
    ensures |r| <= |applied|
  {
    if applied == [] then []
    else (if applied[0] in files then [applied[0]] else []) + Intersect(applied[1..], files)
  }

  lemma {:induction false} IntersectSpec(applied: seq<string>, files: seq<string>)
    ensures forall x :: x in Intersect(applied, files) <==> x in applied && x in files
    ensures multiset(Intersect(applied, files)) <= multiset(applied)
  {
    if applied != [] {
      IntersectSpec(applied[1..], files);
      assert applied == [applied[0]] + applied[1..];
    }
  }

  predicate IsDotEntry(m: string) {
    m == "." || m == ".."
  }

  /** The loops' `if ($migration === '.' || $migration === '..') continue;`. */
  function SkipDots(ms: seq<string>): (r: seq<string>)
    ensures |r| <= |ms|
  {
    if ms == [] then []
    else (if IsDotEntry(ms[0]) then [] else [ms[0]]) + SkipDots(ms[1..])
  }

  lemma {:induction false} SkipDotsSpec(ms: seq<string>)
    ensures forall x :: x in SkipDots(ms) <==> x in ms && !IsDotEntry(x)
    ensures multiset(SkipDots(ms)) <= multiset(ms)
  {
    if ms != [] {
      SkipDotsSpec(ms[1..]);
      assert ms == [ms[0]] + ms[1..];
    }
  }

  /** One loop step over a listing: skip the entry at `i` if it is `.` or `..`. */
  lemma SkipDotsStep(ms: seq<string>, i: nat)
    requires i < |ms|
    ensures SkipDots(ms[i..]) == (if IsDotEntry(ms[i]) then [] else [ms[i]]) + SkipDots(ms[i + 1..])
  {
    assert ms[i..][1..] == ms[i + 1..];
  }

  lemma {:induction false} PendingNone(files: seq<string>, applied: seq<string>)
    requires forall m :: m in files && !IsDotEntry(m) ==> m in applied
    ensures SkipDots(Diff(files, applied)) == []
  {
    if files != [] {
      PendingNone(files[1..], applied);
      var rest := Diff(files[1..], applied);
      if files[0] !in applied {
        assert files[0] in files;
        assert IsDotEntry(files[0]);
        var d := [files[0]] + rest;
        assert Diff(files, applied) == d;
        assert d[0] == files[0] && d[1..] == rest;
        assert SkipDots(d) == SkipDots(rest);
      } else {
        assert Diff(files, applied) == rest;
      }
    }
  }

  /** The migrations `applyMigrations` runs, in listing order. */
  function Pending(files: seq<string>, applied: seq<string>): seq<string> {
    SkipDots(Diff(files, applied))
  }

  /** The pending migrations are exactly the listed non-dot files not yet in the ledger. */
  lemma PendingSpec(files: seq<string>, applied: seq<string>)
    ensures forall x :: x in Pending(files, applied) <==> x in files && x !in applied && !IsDotEntry(x)
  {
    DiffSpec(files, applied);
    SkipDotsSpec(Diff(files, applied));
  }

  /** The position of the first migration whose `up()`/`down()` throws. */
  function FirstIn(ms: seq<string>, failing: set<string>): (r: Option<nat>)
    ensures r.Some? ==> r.value < |ms|
  {
    if ms == [] then None
    else if ms[0] in failing then Some(0)
    else
      var rest := FirstIn(ms[1..], failing);
      if rest.Some? then Some(rest.value + 1) else None
  }

  /** The position found is the first throwing migration; none is found exactly when none throws. */
  lemma {:induction false} FirstInSpec(ms: seq<string>, failing: set<string>)
    ensures var r := FirstIn(ms, failing);
      (r.Some? ==> ms[r.value] in failing && forall j :: 0 <= j < r.value ==> ms[j] !in failing) &&
      (r.None? <==> forall j :: 0 <= j < |ms| ==> ms[j] !in failing)
  {
    if ms != [] && ms[0] !in failing {
      FirstInSpec(ms[1..], failing);
      assert forall j :: 1 <= j < |ms| ==> ms[1..][j - 1] == ms[j];
    }
  }

  /** A run over `ms` that meets its first throwing migration right after `done`. */
  lemma StopsAt(ms: seq<string>, done: seq<string>, m: string, rest: seq<string>, failing: set<string>)
    requires ms == done + [m] + rest
    requires FirstIn(done, failing).None?
    requires m in failing
    ensures FirstIn(ms, failing) == Some(|done|) && ms[|done|] == m && ms[..|done| + 1] == done + [m]
  {
    FirstInSpec(done, failing);
    FirstInAt(ms, failing, |done|);
  }

  lemma FirstInSnoc(done: seq<string>, m: string, failing: set<string>)
    requires FirstIn(done, failing).None? && m !in failing
    ensures FirstIn(done + [m], failing).None?
  {
    FirstInSpec(done, failing);
    FirstInSpec(done + [m], failing);
    assert forall j :: 0 <= j < |done| ==> (done + [m])[j] == done[j];
  }

  lemma UpsSnoc(before: seq<Event>, ms: seq<string>, m: string)
    ensures before + Ups(ms) + [Up(m)] == before + Ups(ms + [m])
  {
    assert (ms + [m])[..|ms|] == ms;
  }

  lemma DownsSnoc(before: seq<Event>, ms: seq<string>, m: string)
    ensures before + Downs(ms) + [Down(m)] == before + Downs(ms + [m])
  {
    assert (ms + [m])[..|ms|] == ms;
  }

  lemma FirstInAt(ms: seq<string>, failing: set<string>, k: nat)
    requires k < |ms| && ms[k] in failing
    requires forall j :: 0 <= j < k ==> ms[j] !in failing
    ensures FirstIn(ms, failing) == Some(k)
  {
    FirstInSpec(ms, failing);
  }

  // ---------------------------------------------------------------- apply

  /** The rows of one batch INSERT: consecutive ids, one shared `created_at`. */
  function NewRows(ms: seq<string>, firstId: nat, now: int): (rows: seq<Row>)
    ensures |rows| == |ms|
    ensures forall i :: 0 <= i < |ms| ==> rows[i] == Row(firstId + i, ms[i], now)
  {
    seq(|ms|, i requires 0 <= i < |ms| => Row(firstId + i, ms[i], now))
  }

  /** `saveMigrations`: the batch appended to an existing table. */
  function Saved(l: Ledger, ms: seq<string>, now: int): (r: Ledger)
    requires l.present
    ensures r.present && Names(r.rows) == Names(l.rows) + ms
  {
    var rows := l.rows + NewRows(ms, l.nextId, now);
    NamesAppend(l.rows, NewRows(ms, l.nextId, now));
    NamesOfNewRows(ms, l.nextId, now);
    Ledger(true, rows, l.nextId + |ms|)
  }

  lemma NamesOfNewRows(ms: seq<string>, firstId: nat, now: int)
    ensures Names(NewRows(ms, firstId, now)) == ms
  {
    NamesAt(NewRows(ms, firstId, now));
  }

  lemma SavedKeepsValid(l: Ledger, ms: seq<string>, now: int)
    requires l.present && Valid(l)
    ensures Valid(Saved(l, ms, now))
  {
    var rows := Saved(l, ms, now).rows;
    var batch := NewRows(ms, l.nextId, now);
    assert rows == l.rows + batch;
    forall i, j | 0 <= i < j < |rows|
      ensures rows[i].id < rows[j].id
    {
      if j >= |l.rows| {
        assert rows[j] == batch[j - |l.rows|];
        if i >= |l.rows| {
          assert rows[i] == batch[i - |l.rows|];
        }
      }
    }
  }

  /**
   * `applyMigrations`: create the table if needed, run `up()` on each pending
   * migration in listing order, then record them all at once. A throwing
   * `up()` ends the run before anything is recorded.
   */
  function Apply(l: Ledger, files: seq<string>, now: int, failing: set<string>): Run {
    var c := Created(l);
    var p := Pending(files, Names(c.rows));
    var f := FirstIn(p, failing);
    if f.Some? then Run(c, Ups(p[..f.value + 1]), Failed(MigrationThrew(p[f.value])))
    else if p == [] then Run(c, [], NothingToDo)
    else Run(Saved(c, p, now), Ups(p), Done)
  }

  lemma ApplyStops(l: Ledger, files: seq<string>, now: int, failing: set<string>)
    requires FirstIn(Pending(files, Names(Created(l).rows)), failing).Some?
    ensures var p := Pending(files, Names(Created(l).rows));
      var k := FirstIn(p, failing).value;
      Apply(l, files, now, failing) == Run(Created(l), Ups(p[..k + 1]), Failed(MigrationThrew(p[k])))
  {
  }

  lemma ApplyFinishes(l: Ledger, files: seq<string>, now: int, failing: set<string>)
    requires FirstIn(Pending(files, Names(Created(l).rows)), failing).None?
    ensures var p := Pending(files, Names(Created(l).rows));
      Apply(l, files, now, failing) ==
        if p == [] then Run(Created(l), [], NothingToDo) else Run(Saved(Created(l), p, now), Ups(p), Done)
  {
  }

  /** The directory `migrations_path` falls back to, since the configuration is never stored. */
  const DEFAULT_MIGRATIONS_PATH := "/migrations"

  /** The file `require_once` loads as written: the directory and the name with no `/` between them. */
  function RequiredPath(root: string, migration: string): (path: string)
    ensures |path| == |root| + |DEFAULT_MIGRATIONS_PATH| + |migration|
    ensures path != root + DEFAULT_MIGRATIONS_PATH + "/" + migration
  {
    root + DEFAULT_MIGRATIONS_PATH + migration
  }

  /**
   * `applyMigrations` as written: the table is created, but the first pending
   * migration is loaded from RequiredPath, a sibling of the migrations
   * directory that does not exist, so `require_once` stops the run before any
   * `up()`. (`getDroppedMigrations` and `undoLastMigration` join the path the
   * same way.)
   */
  function ApplyAsWritten(root: string, l: Ledger, files: seq<string>, now: int, failing: set<string>): Run {
    var c := Created(l);
    var p := Pending(files, Names(c.rows));
    if p == [] then Run(c, [], NothingToDo)
    else Run(c, [], Failed(MissingFile(RequiredPath(root, p[0]))))
  }

  /**
   * As written, an apply with something pending calls no `up()` and records
   * nothing; loading from the directory itself, the same apply runs every
   * pending `up()` in order and records them.
   */
  lemma ApplyAsWrittenRunsNoUp(root: string, l: Ledger, files: seq<string>, now: int)
    requires Pending(files, Names(Created(l).rows)) != []
    ensures var p := Pending(files, Names(Created(l).rows));
      var w := ApplyAsWritten(root, l, files, now, {});
      w.events == [] && w.ledger == Created(l) && w.outcome == Failed(MissingFile(RequiredPath(root, p[0])))
    ensures var p := Pending(files, Names(Created(l).rows));
      var r := Apply(l, files, now, {});
      r.outcome.Done? && r.events == Ups(p) && Names(r.ledger.rows) == Names(Created(l).rows) + p
  {
    var p := Pending(files, Names(Created(l).rows));
    FirstInSpec(p, {});
    ApplyRecordsPending(l, files, now, {});
  }

  /**
   * A successful run calls `up()` on exactly the pending migrations, in
   * listing order, and records exactly those names after the earlier ones.
   */
  lemma ApplyRecordsPending(l: Ledger, files: seq<string>, now: int, failing: set<string>)
    requires Apply(l, files, now, failing).outcome.Done?
    ensures var r := Apply(l, files, now, failing);
      var p := Pending(files, Names(Created(l).rows));
      r.events == Ups(p) && p != [] &&
      Names(r.ledger.rows) == Names(Created(l).rows) + p &&
      forall m :: m in p <==> m in files && m !in Names(Created(l).rows) && !IsDotEntry(m)
  {
    PendingSpec(files, Names(Created(l).rows));
  }

  /**
   * A throwing `up()` loses the whole batch: the earlier migrations' `up()`
   * ran but none is recorded, and the failing one was the last called.
   */
  lemma ApplyFailureRecordsNothing(l: Ledger, files: seq<string>, now: int, failing: set<string>)
    requires Apply(l, files, now, failing).outcome.Failed?
    ensures var r := Apply(l, files, now, failing);
      var m := r.outcome.failure.migration;
      r.ledger == Created(l) && r.outcome.failure.MigrationThrew? &&
      m in failing && |r.events| >= 1 && r.events[|r.events| - 1] == Up(m) &&
      forall i :: 0 <= i < |r.events| - 1 ==> r.events[i].migration !in failing
  {
    var c := Created(l);
    var p := Pending(files, Names(c.rows));
    var f := FirstIn(p, failing).value;
    FirstInSpec(p, failing);
    UpsAt(p[..f + 1]);
  }

  lemma {:induction false} UpsAt(ms: seq<string>)
    ensures forall i :: 0 <= i < |ms| ==> Ups(ms)[i] == Up(ms[i])
  {
    if ms != [] {
      UpsAt(ms[..|ms| - 1]);
    }
  }

  /** The table's ids stay increasing through an apply. */
  lemma ApplyKeepsValid(l: Ledger, files: seq<string>, now: int, failing: set<string>)
    requires Valid(l)
    ensures Valid(Apply(l, files, now, failing).ledger)
  {
    var c := Created(l);
    var p := Pending(files, Names(c.rows));
    if FirstIn(p, failing).None? && p != [] {
      SavedKeepsValid(c, p, now);
    }
  }

  /** Once everything on disk is recorded, applying again calls nothing and writes nothing. */
  lemma ApplyIdempotent(l: Ledger, files: seq<string>, now: int, later: int, failing: set<string>, failing2: set<string>)
    requires !Apply(l, files, now, failing).outcome.Failed?
    ensures var first := Apply(l, files, now, failing).ledger;
      Apply(first, files, later, failing2) == Run(first, [], NothingToDo)
  {
    var c := Created(l);
    var p := Pending(files, Names(c.rows));
    var first := Apply(l, files, now, failing).ledger;
    PendingSpec(files, Names(c.rows));
    assert forall m :: m in files && !IsDotEntry(m) ==> m in Names(first.rows) by {
      forall m | m in files && !IsDotEntry(m)
        ensures m in Names(first.rows)
      {
        if m !in Names(c.rows) {
          assert m in p;
          assert Names(first.rows) == Names(c.rows) + p;
        } else if p != [] {
          assert Names(first.rows) == Names(c.rows) + p;
        }
      }
    }
    PendingNone(files, Names(first.rows));
  }

  // -------------------------------------------------------------- rsort

  predicate SortedDesc(s: seq<string>) {
    forall i, j :: 0 <= i < j < |s| ==> LexLessEq(s[j], s[i])
  }

  function Insert(x: string, s: seq<string>): (r: seq<string>)
    ensures multiset(r) == multiset(s) + multiset{x}
  {
    if s == [] then [x]
    else if LexLessEq(s[0], x) then [x] + s
    else
      assert s == [s[0]] + s[1..];
      [s[0]] + Insert(x, s[1..])
  }

  lemma {:induction false} InsertSorted(x: string, s: seq<string>)
    requires SortedDesc(s)
    ensures SortedDesc(Insert(x, s))
  {
    if s == [] {
    } else if LexLessEq(s[0], x) {
      forall j | 0 <= j < |s|
        ensures LexLessEq(s[j], x)
      {
        if j > 0 {
          LexTransitive(s[j], s[0], x);
        }
      }
    } else {
      LexTotal(s[0], x);
      InsertSorted(x, s[1..]);
      var r := Insert(x, s);
      var tail := Insert(x, s[1..]);
      assert r == [s[0]] + tail;
      forall k | 0 <= k < |tail|
        ensures LexLessEq(tail[k], s[0])
      {
        assert tail[k] in multiset(tail);
        assert tail[k] in multiset(s[1..]) || tail[k] == x;
        if tail[k] != x {
          var i :| 0 <= i < |s[1..]| && s[1..][i] == tail[k];
          assert s[i + 1] == tail[k];
        }
      }
    }
  }

  /** `rsort` on migration names: byte-wise descending. */
  function SortDesc(s: seq<string>): (r: seq<string>)
    ensures multiset(r) == multiset(s)
  {
    if s == [] then []
    else
      assert s == [s[0]] + s[1..];
      Insert(s[0], SortDesc(s[1..]))
  }

  lemma {:induction false} SortDescSorted(s: seq<string>)
    ensures SortedDesc(SortDesc(s))
  {
    if s != [] {
      SortDescSorted(s[1..]);
      InsertSorted(s[0], SortDesc(s[1..]));
    }
  }

  // ------------------------------------------------------------ undo all

  /** `removeDroppedMigrations`: `DELETE ... WHERE migrations IN (...)`. */
  function RemoveNames(rows: seq<Row>, names: seq<string>): (r: seq<Row>)
    ensures |r| <= |rows|
  {
    if rows == [] then []
    else (if rows[0].name in names then [] else [rows[0]]) + RemoveNames(rows[1..], names)
  }

  /** The DELETE removes exactly the rows whose name is listed and keeps every other row. */
  lemma {:induction false} RemoveNamesSpec(rows: seq<Row>, names: seq<string>)
    ensures forall x :: x in RemoveNames(rows, names) <==> x in rows && x.name !in names
  {
    if rows != [] {
      RemoveNamesSpec(rows[1..], names);
      assert rows == [rows[0]] + rows[1..];
    }
  }

  /** Every id a kept row carries lies strictly between `lo` and `hi` when every row's does. */
  lemma {:induction false} RemoveNamesBounds(rows: seq<Row>, names: seq<string>, lo: int, hi: int)
    requires forall i :: 0 <= i < |rows| ==> lo < rows[i].id < hi
    ensures forall i :: 0 <= i < |RemoveNames(rows, names)| ==> lo < RemoveNames(rows, names)[i].id < hi
  {
    if rows != [] {
      assert forall i :: 0 <= i < |rows[1..]| ==> rows[1..][i] == rows[i + 1];
      RemoveNamesBounds(rows[1..], names, lo, hi);
    }
  }

  /** Deleting rows by name keeps the ids strictly increasing. */
  lemma {:induction false} RemoveNamesIncreasing(rows: seq<Row>, names: seq<string>, hi: int)
    requires forall i, j :: 0 <= i < j < |rows| ==> rows[i].id < rows[j].id
    requires forall i :: 0 <= i < |rows| ==> rows[i].id < hi
    ensures forall i, j :: 0 <= i < j < |RemoveNames(rows, names)| ==>
      RemoveNames(rows, names)[i].id < RemoveNames(rows, names)[j].id
  {
    if rows != [] {
      var tail := rows[1..];
      assert forall i :: 0 <= i < |tail| ==> tail[i] == rows[i + 1];
      RemoveNamesIncreasing(tail, names, hi);
      var rest := RemoveNames(tail, names);
      RemoveNamesBounds(tail, names, rows[0].id, hi);
      if rows[0].name !in names {
        var r := [rows[0]] + rest;
        forall i, j | 0 <= i < j < |r|
          ensures r[i].id < r[j].id
        {
          assert r[j] == rest[j - 1];
          if i > 0 {
            assert r[i] == rest[i - 1];
          }
        }
      }
    }
  }

  /** Deleting rows by name keeps the ledger valid. */
  lemma RemoveNamesKeepsValid(l: Ledger, names: seq<string>)
    requires Valid(l)
    ensures Valid(l.(rows := RemoveNames(l.rows, names)))
  {
    RemoveNamesIncreasing(l.rows, names, l.nextId);
    RemoveNamesBounds(l.rows, names, -1, l.nextId);
  }

  /** The migrations whose `down()` returned, the one that threw if any, and the calls made. */
  datatype DownPass = DownPass(completed: seq<string>, threw: Option<string>, events: seq<Event>)

  /** `down()` on each migration in order, stopping at the first that throws. */
  function DownRun(order: seq<string>, failing: set<string>): DownPass {
    var f := FirstIn(order, failing);
    if f.Some? then DownPass(order[..f.value], Some(order[f.value]), Downs(order[..f.value + 1]))
    else DownPass(order, None, Downs(order))
  }

  /** The stopping step of `getDroppedMigrations`, as the method's trace sees it. */
  lemma DownRunStopsTrace(before: seq<Event>, order: seq<string>, done: seq<string>, m: string, rest: seq<string>,
                          failing: set<string>)
    requires order == done + [m] + rest
    requires FirstIn(done, failing).None? && m in failing
    ensures var b := DownRun(order, failing);
      done == b.completed && Some(m) == b.threw && before + Downs(done) + [Down(m)] == before + b.events
  {
    DownRunStops(order, done, m, rest, failing);
    DownsSnoc(before, done, m);
  }

  lemma DownRunStops(order: seq<string>, done: seq<string>, m: string, rest: seq<string>, failing: set<string>)
    requires order == done + [m] + rest
    requires FirstIn(done, failing).None? && m in failing
    ensures DownRun(order, failing) == DownPass(done, Some(m), Downs(done + [m]))
  {
    StopsAt(order, done, m, rest, failing);
    assert order[..|done|] == done;
  }

  lemma DownRunFinishes(order: seq<string>, failing: set<string>)
    requires FirstIn(order, failing).None?
    ensures DownRun(order, failing) == DownPass(order, None, Downs(order))
  {
  }

  /** The order `undoMigrations` calls `down()` in: the ledger names still on disk, `rsort`ed. */
  function DownOrder(l: Ledger, files: seq<string>): seq<string> {
    SkipDots(SortDesc(Intersect(Names(Created(l).rows), files)))
  }

  /**
   * `undoMigrations` once its configuration can be read: create the table
   * if needed; the ledger names still on disk, if any, get `down()` in
   * descending name order, are deleted from the ledger, and the table is
   * dropped.
   */
  function UndoAll(l: Ledger, files: seq<string>, failing: set<string>): Run {
    var c := Created(l);
    var toDrop := Intersect(Names(c.rows), files);
    if toDrop == [] then Run(c, [], NothingToDo)
    else
      var b := DownRun(DownOrder(l, files), failing);
      if b.threw.Some? then Run(c, b.events, Failed(MigrationThrew(b.threw.value)))
      else Run(NO_TABLE, b.events, Done)
  }

  /**
   * Undoing everything calls `down()` once on each applied migration still on
   * disk, in the order DownOrder gives, and drops the table; with none, it
   * changes nothing beyond creating the table.
   */
  lemma UndoAllDownsThenDrops(l: Ledger, files: seq<string>, failing: set<string>)
    ensures var r := UndoAll(l, files, failing);
      (Intersect(Names(Created(l).rows), files) == [] ==> r == Run(Created(l), [], NothingToDo)) &&
      (r.outcome.Done? ==> r.ledger == NO_TABLE && r.events == Downs(DownOrder(l, files)))
    ensures Intersect(Names(Created(l).rows), files) != [] && FirstIn(DownOrder(l, files), failing).None? ==>
      UndoAll(l, files, failing).outcome.Done?
  {
  }

  /** `rsort` leaves the names in descending byte order, and skipping `.`/`..` keeps it. */
  lemma DownOrderDescending(l: Ledger, files: seq<string>)
    ensures SortedDesc(DownOrder(l, files))
  {
    var toDrop := Intersect(Names(Created(l).rows), files);
    SortDescSorted(toDrop);
    SkipDotsSorted(SortDesc(toDrop));
  }

  /** Each name is undone at most as often as the ledger lists it, and exactly the non-dot ledger names on disk are undone. */
  lemma DownOrderMembers(l: Ledger, files: seq<string>)
    ensures var order := DownOrder(l, files);
      multiset(order) <= multiset(Intersect(Names(Created(l).rows), files)) &&
      forall m :: m in order <==> m in Names(Created(l).rows) && m in files && !IsDotEntry(m)
  {
    var toDrop := Intersect(Names(Created(l).rows), files);
    var sorted := SortDesc(toDrop);
    IntersectSpec(Names(Created(l).rows), files);
    SkipDotsSpec(sorted);
    assert forall m :: m in sorted <==> m in multiset(sorted);
    assert forall m :: m in toDrop <==> m in multiset(toDrop);
  }

  lemma {:induction false} SkipDotsSorted(s: seq<string>)
    requires SortedDesc(s)
    ensures SortedDesc(SkipDots(s))
  {
    if s != [] {
      assert SortedDesc(s[1..]);
      SkipDotsSorted(s[1..]);
      var rest := SkipDots(s[1..]);
      SkipDotsSpec(s[1..]);
      forall k | 0 <= k < |rest|
        ensures LexLessEq(rest[k], s[0])
      {
        assert rest[k] in s[1..];
      }
    }
  }

  /**
   * After a successful undo-all, applying with every `up()` succeeding
   * records every migration on disk again, in listing order.
   */
  lemma UndoAllThenApply(l: Ledger, files: seq<string>, failing: set<string>, now: int)
    requires UndoAll(l, files, failing).outcome.Done?
    ensures var again := Apply(UndoAll(l, files, failing).ledger, files, now, {});
      !again.outcome.Failed? && Names(again.ledger.rows) == SkipDots(files)
  {
    DiffNothing(files);
    FirstInSpec(SkipDots(files), {});
  }

  lemma {:induction false} DiffNothing(files: seq<string>)
    ensures Diff(files, []) == files
  {
    if files != [] {
      DiffNothing(files[1..]);
    }
  }

  // ----------------------------------------------------------- undo last

  /** `ORDER BY created_at DESC LIMIT 1`, ties going to the later row. */
  function LatestIndex(rows: seq<Row>): (k: nat)
    requires rows != []
    ensures k < |rows|
    ensures forall j :: 0 <= j < |rows| ==> rows[j].createdAt <= rows[k].createdAt
    ensures forall j :: k < j < |rows| ==> rows[j].createdAt < rows[k].createdAt
  {
    if |rows| == 1 then 0
    else
      var k := LatestIndex(rows[..|rows| - 1]);
      if rows[|rows| - 1].createdAt >= rows[k].createdAt then |rows| - 1 else k
  }

  /** `DELETE FROM migrations WHERE id = ?`. */
  function RemoveId(rows: seq<Row>, id: nat): (r: seq<Row>)
    ensures |r| <= |rows|
  {
    if rows == [] then []
    else (if rows[0].id == id then [] else [rows[0]]) + RemoveId(rows[1..], id)
  }

  /** When no other row shares its id, deleting one row's id removes that row and keeps the rest in order. */
  lemma {:induction false} RemoveIdExactlyOne(rows: seq<Row>, k: nat)
    requires k < |rows|
    requires forall j :: 0 <= j < |rows| && j != k ==> rows[j].id != rows[k].id
    ensures RemoveId(rows, rows[k].id) == rows[..k] + rows[k + 1..]
  {
    var id := rows[k].id;
    if k == 0 {
      assert forall i :: 0 <= i < |rows[1..]| ==> rows[1..][i] == rows[i + 1];
      RemoveIdAbsent(rows[1..], id);
      assert rows[1..] == rows[..0] + rows[1..];
    } else {
      var tail := rows[1..];
      assert tail[k - 1] == rows[k];
      forall j | 0 <= j < |tail| && j != k - 1
        ensures tail[j].id != tail[k - 1].id
      {
        assert tail[j] == rows[j + 1];
      }
      RemoveIdExactlyOne(tail, k - 1);
      assert rows[0].id != id;
      assert RemoveId(rows, id) == [rows[0]] + RemoveId(tail, id);
      assert rows[..k] == [rows[0]] + tail[..k - 1];
      assert rows[k + 1..] == tail[k..];
      assert [rows[0]] + (tail[..k - 1] + tail[k..]) == ([rows[0]] + tail[..k - 1]) + tail[k..];
    }
  }

  lemma {:induction false} RemoveIdAbsent(rows: seq<Row>, id: nat)
    requires forall i :: 0 <= i < |rows| ==> rows[i].id != id
    ensures RemoveId(rows, id) == rows
  {
    if rows != [] {
      RemoveIdAbsent(rows[1..], id);
      assert rows == [rows[0]] + rows[1..];
    }
  }

  /**
   * `undoLastMigration` with the DELETE naming its table: `down()` on the
   * latest row's migration, then that row deleted by id.
   */
  function UndoLast(l: Ledger, failing: set<string>): Run {
    if !l.present then Run(l, [], Failed(MissingTable))
    else if l.rows == [] then Run(l, [], NothingToDo)
    else
      var row := l.rows[LatestIndex(l.rows)];
      if row.name in failing then Run(l, [Down(row.name)], Failed(MigrationThrew(row.name)))
      else Run(l.(rows := RemoveId(l.rows, row.id)), [Down(row.name)], Done)
  }

  /**
   * `undoLastMigration` as written at MigrationManager.php:244, once the
   * migration file loads (see ApplyAsWritten for the path): the DELETE has no
   * table name, so after `down()` the statement fails and the row stays.
   */
  function UndoLastAsWritten(l: Ledger, failing: set<string>): Run {
    if !l.present then Run(l, [], Failed(MissingTable))
    else if l.rows == [] then Run(l, [], NothingToDo)
    else
      var row := l.rows[LatestIndex(l.rows)];
      if row.name in failing then Run(l, [Down(row.name)], Failed(MigrationThrew(row.name)))
      else Run(l, [Down(row.name)], Failed(MalformedSql))
  }

  /**
   * Undoing the last migration removes exactly one row, the one with the
   * latest `created_at`, after calling its `down()`; all other rows stay in
   * order, and an empty ledger is left alone.
   */
  lemma UndoLastRemovesLatest(l: Ledger, failing: set<string>)
    requires Valid(l) && l.present
    ensures l.rows == [] ==> UndoLast(l, failing) == Run(l, [], NothingToDo)
    ensures l.rows != [] && l.rows[LatestIndex(l.rows)].name !in failing ==> UndoLast(l, failing).outcome.Done?
    ensures UndoLast(l, failing).outcome.Done? ==>
      var k := LatestIndex(l.rows);
      var r := UndoLast(l, failing);
      r.ledger.rows == l.rows[..k] + l.rows[k + 1..] &&
      |r.ledger.rows| == |l.rows| - 1 &&
      r.events == [Down(l.rows[k].name)] &&
      (forall j :: 0 <= j < |l.rows| ==> l.rows[j].createdAt <= l.rows[k].createdAt) &&
      Valid(r.ledger)
  {
    if l.rows != [] && UndoLast(l, failing).outcome.Done? {
      var k := LatestIndex(l.rows);
      var row := l.rows[k];
      assert UndoLast(l, failing) == Run(l.(rows := RemoveId(l.rows, row.id)), [Down(row.name)], Done);
      IdOnlyAt(l, k);
      RemoveIdExactlyOne(l.rows, k);
      RemoveAtKeepsValid(l, k);
    }
  }

  /** In a valid ledger no other row shares a row's id. */
  lemma IdOnlyAt(l: Ledger, k: nat)
    requires Valid(l) && k < |l.rows|
    ensures forall j :: 0 <= j < |l.rows| && j != k ==> l.rows[j].id != l.rows[k].id
  {
    forall j | 0 <= j < |l.rows| && j != k
      ensures l.rows[j].id != l.rows[k].id
    {
      if j < k {
        assert l.rows[j].id < l.rows[k].id;
      } else {
        assert l.rows[k].id < l.rows[j].id;
      }
    }
  }

  lemma RemoveAtKeepsValid(l: Ledger, k: nat)
    requires Valid(l) && k < |l.rows|
    ensures Valid(l.(rows := l.rows[..k] + l.rows[k + 1..]))
  {
    var rs := l.rows[..k] + l.rows[k + 1..];
    assert forall i :: 0 <= i < |rs| ==> rs[i] == l.rows[if i < k then i else i + 1];
  }

  /** As written, the row survives, so a second undo-last calls the same `down()` again. */
  lemma UndoLastAsWrittenRepeatsDown(l: Ledger)
    requires l.present && l.rows != []
    ensures var first := UndoLastAsWritten(l, {});
      var second := UndoLastAsWritten(first.ledger, {});
      first.ledger == l && first.outcome == Failed(MalformedSql) &&
      first.events + second.events == [Down(l.rows[LatestIndex(l.rows)].name), Down(l.rows[LatestIndex(l.rows)].name)]
  {
  }

  /**
   * `undoMigrations` as written: the constructor's `$this->$dbConfig = ...`
   * never sets the typed `dbConfig` property, so reading `dbConfig['dsn']`
   * throws before anything is created, called or deleted.
   */
  function UndoAllAsWritten(l: Ledger, files: seq<string>, failing: set<string>): Run {
    Run(l, [], Failed(UninitializedConfig))
  }

  /** As written, undo-all never reaches a migration even when there is one to undo. */
  lemma UndoAllAsWrittenIsInert(l: Ledger, files: seq<string>)
    requires l.present && Intersect(Names(l.rows), files) != [] && !IsDotEntry(Intersect(Names(l.rows), files)[0])
    ensures UndoAllAsWritten(l, files, {}).events == [] && UndoAllAsWritten(l, files, {}).ledger == l
    ensures UndoAll(l, files, {}).outcome.Done? && |UndoAll(l, files, {}).events| >= 1
  {
    var toDrop := Intersect(Names(l.rows), files);
    var sorted := SortDesc(toDrop);
    SkipDotsSpec(sorted);
    FirstInSpec(DownOrder(l, files), {});
    assert toDrop[0] in multiset(sorted);
    assert toDrop[0] in SkipDots(sorted);
  }

  // ---------------------------------------------------------------- class

  /** The manager's table and the up/down calls it has made so far. */
  class MigrationManager {
    var ledger: Ledger
    var trace: seq<Event>

    constructor (ledger: Ledger)
      ensures this.ledger == ledger && trace == []
    {
      this.ledger := ledger;
      trace := [];
    }

    method CreateMigrationsTable()
      modifies this`ledger
      ensures ledger == Created(old(ledger))
    {
      if !ledger.present {
        ledger := Ledger(true, [], 1);
      }
    }

    method GetAppliedMigrations() returns (names: seq<string>)
      requires ledger.present
      ensures names == Names(ledger.rows)
    {
      names := Names(ledger.rows);
    }

    method SaveMigrations(newMigrations: seq<string>, now: int)
      requires ledger.present
      modifies this`ledger
      ensures ledger == Saved(old(ledger), newMigrations, now)
    {
      ledger := Saved(ledger, newMigrations, now);
    }

    /** `applyMigrations`; the directory listing, the clock and the throwing `up()`s are parameters. */
    method ApplyMigrations(files: seq<string>, now: int, failing: set<string>) returns (outcome: Outcome)
      modifies this`ledger, this`trace
      ensures var r := Apply(old(ledger), files, now, failing);
        ledger == r.ledger && trace == old(trace) + r.events && outcome == r.outcome
    {
      CreateMigrationsTable();
      var applied := GetAppliedMigrations();
      var newMigrations := [];
      var toApply := Diff(files, applied);
      ghost var p := Pending(files, applied);
      var i := 0;
      while i < |toApply|
        invariant i <= |toApply|
        invariant ledger == Created(old(ledger))
        invariant p == newMigrations + SkipDots(toApply[i..])
        invariant FirstIn(newMigrations, failing).None?
        invariant trace == old(trace) + Ups(newMigrations)
      {
        var migration := toApply[i];
        SkipDotsStep(toApply, i);
        ghost var rest := SkipDots(toApply[i + 1..]);
        if IsDotEntry(migration) {
          assert p == newMigrations + rest;
          i := i + 1;
          continue;
        }
        assert p == (newMigrations + [migration]) + rest;
        trace := trace + [Up(migration)];
        if migration in failing {
          StopsAt(p, newMigrations, migration, rest, failing);
          UpsSnoc(old(trace), newMigrations, migration);
          ApplyStops(old(ledger), files, now, failing);
          return Failed(MigrationThrew(migration));
        }
        UpsSnoc(old(trace), newMigrations, migration);
        FirstInSnoc(newMigrations, migration, failing);
        newMigrations := newMigrations + [migration];
        i := i + 1;
      }
      assert toApply[i..] == [];
      assert p == newMigrations;
      assert FirstIn(p, failing).None?;
      if newMigrations != [] {
        ghost var created := ledger;
        SaveMigrations(newMigrations, now);
        ApplyFinishes(old(ledger), files, now, failing);
        outcome := Done;
      } else {
        ApplyFinishes(old(ledger), files, now, failing);
        outcome := NothingToDo;
      }
    }

    /**
     * `getDroppedMigrations`: `down()` on each migration in the given order,
     * skipping `.` and `..`; stops at the first `down()` that throws.
     */
    method GetDroppedMigrations(toDrop: seq<string>, failing: set<string>) returns (dropped: seq<string>, threw: Option<string>)
      modifies this`trace
      ensures var b := DownRun(SkipDots(toDrop), failing);
        dropped == b.completed && threw == b.threw && trace == old(trace) + b.events
    {
      dropped := [];
      ghost var order := SkipDots(toDrop);
      var i := 0;
      while i < |toDrop|
        invariant i <= |toDrop|
        invariant order == dropped + SkipDots(toDrop[i..])
        invariant FirstIn(dropped, failing).None?
        invariant trace == old(trace) + Downs(dropped)
      {
        var migration := toDrop[i];
        SkipDotsStep(toDrop, i);
        ghost var rest := SkipDots(toDrop[i + 1..]);
        if IsDotEntry(migration) {
          assert order == dropped + rest;
          i := i + 1;
          continue;
        }
        assert order == (dropped + [migration]) + rest;
        trace := trace + [Down(migration)];
        if migration in failing {
          DownRunStopsTrace(old(trace), order, dropped, migration, rest, failing);
          return dropped, Some(migration);
        }
        DownsSnoc(old(trace), dropped, migration);
        FirstInSnoc(dropped, migration, failing);
        dropped := dropped + [migration];
        i := i + 1;
      }
      assert toDrop[i..] == [];
      assert order == dropped;
      DownRunFinishes(order, failing);
      threw := None;
    }

    method RemoveDroppedMigrations(dropped: seq<string>)
      modifies this`ledger
      ensures dropped == [] ==> ledger == old(ledger)
      ensures dropped != [] ==> ledger == old(ledger).(rows := RemoveNames(old(ledger).rows, dropped))
      ensures forall x :: x in ledger.rows <==> x in old(ledger).rows && x.name !in dropped
    {
      RemoveNamesSpec(ledger.rows, dropped);
      if dropped != [] {
        ledger := ledger.(rows := RemoveNames(ledger.rows, dropped));
      }
    }

    method DropMigrationsTable()
      modifies this`ledger
      ensures ledger == NO_TABLE
    {
      ledger := NO_TABLE;
    }

    /** `undoMigrations` with its configuration readable (see UndoAllAsWritten for the code as it stands). */
    method UndoMigrations(files: seq<string>, failing: set<string>) returns (outcome: Outcome)
      modifies this`ledger, this`trace
      ensures var r := UndoAll(old(ledger), files, failing);
        ledger == r.ledger && trace == old(trace) + r.events && outcome == r.outcome
    {
      CreateMigrationsTable();
      var applied := GetAppliedMigrations();
      var toDrop := Intersect(applied, files);
      if toDrop == [] {
        return NothingToDo;
      }
      var sorted := SortDesc(toDrop);
      var dropped, threw := GetDroppedMigrations(sorted, failing);
      if threw.Some? {
        return Failed(MigrationThrew(threw.value));
      }
      RemoveDroppedMigrations(dropped);
      DropMigrationsTable();
      outcome := Done;
    }

    /** `getLastAppliedMigration`: the latest row, or none on an empty table. */
    method GetLastAppliedMigration() returns (last: Option<Row>)
      requires ledger.present
      ensures ledger.rows == [] ==> last.None?
      ensures ledger.rows != [] ==> last == Some(ledger.rows[LatestIndex(ledger.rows)])
    {
      if ledger.rows == [] {
        return None;
      }
      return Some(ledger.rows[LatestIndex(ledger.rows)]);
    }

    /** `undoLastMigration` with the DELETE naming the `migrations` table. */
    method UndoLastMigration(failing: set<string>) returns (outcome: Outcome)
      modifies this`ledger, this`trace
      ensures var r := UndoLast(old(ledger), failing);
        ledger == r.ledger && trace == old(trace) + r.events && outcome == r.outcome
    {
      if !ledger.present {
        return Failed(MissingTable);
      }
      var last := GetLastAppliedMigration();
      if last.None? {
        return NothingToDo;
      }
      var migration := last.value.name;
      trace := trace + [Down(migration)];
      if migration in failing {
        return Failed(MigrationThrew(migration));
      }
      ledger := ledger.(rows := RemoveId(ledger.rows, last.value.id));
      outcome := Done;
    }
  }

  lemma {:induction false} SkipDotsNone(ms: seq<string>)
    requires forall i :: 0 <= i < |ms| ==> !IsDotEntry(ms[i])
    ensures SkipDots(ms) == ms
  {
    if ms != [] {
      SkipDotsNone(ms[1..]);
      assert ms == [ms[0]] + ms[1..];
    }
  }

  lemma ThreeMigrationsApplied(now: int)
    ensures var three := ["001_init", "002_add_col", "003_seed"];
      Apply(NO_TABLE, [".", "..", "001_init", "002_add_col", "003_seed"], now, {}) ==
        Run(Ledger(true, [Row(1, "001_init", now), Row(2, "002_add_col", now), Row(3, "003_seed", now)], 4), Ups(three), Done)
  {
    var files := [".", "..", "001_init", "002_add_col", "003_seed"];
    var three := ["001_init", "002_add_col", "003_seed"];
    assert Names(Created(NO_TABLE).rows) == [];
    ThreePending();
    ApplyFinishes(NO_TABLE, files, now, {});
    ThreeRowsSaved(now);
  }

  /** The batch of three gets ids 1 to 3 and the next id is 4. */
  lemma ThreeRowsSaved(now: int)
    ensures Saved(Created(NO_TABLE), ["001_init", "002_add_col", "003_seed"], now) ==
      Ledger(true, [Row(1, "001_init", now), Row(2, "002_add_col", now), Row(3, "003_seed", now)], 4)
  {
    var rows := NewRows(["001_init", "002_add_col", "003_seed"], 1, now);
    assert rows == [Row(1, "001_init", now), Row(2, "002_add_col", now), Row(3, "003_seed", now)];
    assert [] + rows == rows;
  }

  /** The three listed migrations are all pending against an empty ledger; the dot entries are not. */
  lemma ThreePending()
    ensures Pending([".", "..", "001_init", "002_add_col", "003_seed"], []) == ["001_init", "002_add_col", "003_seed"]
  {
    var files := [".", "..", "001_init", "002_add_col", "003_seed"];
    var three := ["001_init", "002_add_col", "003_seed"];
    DiffNothing(files);
    assert files[1..][1..] == three;
    assert IsDotEntry(files[0]) && IsDotEntry(files[1..][0]);
    assert SkipDots(files) == SkipDots(files[1..]) == SkipDots(three);
    ThreeNotDots();
    SkipDotsNone(three);
  }

  lemma ThreeNotDots()
    ensures var three := ["001_init", "002_add_col", "003_seed"];
      forall i :: 0 <= i < |three| ==> !IsDotEntry(three[i])
  {
    var three := ["001_init", "002_add_col", "003_seed"];
    assert !IsDotEntry(three[0]) && !IsDotEntry(three[1]) && !IsDotEntry(three[2]);
  }

  /** With all rows sharing one `created_at`, the last row counts as the latest. */
  lemma ThreeMigrationsUndone(now: int)
    ensures var rows := [Row(1, "001_init", now), Row(2, "002_add_col", now), Row(3, "003_seed", now)];
      UndoLast(Ledger(true, rows, 4), {}) == Run(Ledger(true, rows[..2], 4), [Down("003_seed")], Done)
  {
    var rows := [Row(1, "001_init", now), Row(2, "002_add_col", now), Row(3, "003_seed", now)];
    var k := LatestIndex(rows);
    assert rows[2].createdAt == now;
    assert k == 2;
    RemoveIdExactlyOne(rows, 2);
    assert rows[3..] == [];
  }

  /**
   * Three migrations on disk and no table: applying records all three in
   * one batch; undoing the last then calls `down()` on `003_seed` only and
   * keeps the other two rows.
   */
  lemma ThreeMigrationsScenario(now: int)
    ensures var files := [".", "..", "001_init", "002_add_col", "003_seed"];
      var applied := Apply(NO_TABLE, files, now, {});
      var undone := UndoLast(applied.ledger, {});
      applied.outcome == Done &&
      Names(applied.ledger.rows) == ["001_init", "002_add_col", "003_seed"] &&
      applied.events == Ups(["001_init", "002_add_col", "003_seed"]) &&
      undone.outcome == Done && undone.events == [Down("003_seed")] &&
      Names(undone.ledger.rows) == ["001_init", "002_add_col"]
  {
    var rows := [Row(1, "001_init", now), Row(2, "002_add_col", now), Row(3, "003_seed", now)];
    ThreeMigrationsApplied(now);
    ThreeMigrationsUndone(now);
    ThreeNames(rows);
  }

  lemma ThreeNames(rows: seq<Row>)
    requires |rows| == 3
    ensures Names(rows) == [rows[0].name, rows[1].name, rows[2].name]
    ensures Names(rows[..2]) == [rows[0].name, rows[1].name]
  {
    NamesAt(rows);
    NamesAt(rows[..2]);
  }

}
