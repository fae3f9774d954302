/** The engine as the commands run it: an object holding the `migrations`
    table and the log of executed files, whose `migrate` and `rollback`
    walk the sorted version list one key at a time and update the table
    after each file. Each command is proved to end in the state the
    corresponding function of the planner gives. */
module Engine {
  import opened Js
  import opened Catalog
  import opened Ledger
  import opened Planner

  /** Inserting `key` at a position `i` that has every smaller-or-equal key
      before it and every larger key after it keeps the list ordered. */
  lemma InsertOrdered(vs: seq<string>, key: string, i: int, direction: Action)
    requires Ordered(vs, direction) && IsVersion(key) && key !in vs
    requires 0 <= i <= |vs|
    requires forall j :: 0 <= j < i ==> Rank(vs[j], direction) <= Rank(key, direction)
    requires i < |vs| ==> Rank(key, direction) < Rank(vs[i], direction)
    ensures Ordered(vs[..i] + [key] + vs[i..], direction)
  {
    var ws := vs[..i] + [key] + vs[i..];
    forall a, b | 0 <= a < b < |ws|
      ensures ws[a] != ws[b] && Rank(ws[a], direction) <= Rank(ws[b], direction)
    {
      if a < i && b > i {
        assert ws[b] == vs[b - 1];
      } else if a == i {
        assert ws[b] == vs[b - 1];
        assert i < |vs| && Rank(vs[i], direction) <= Rank(vs[b - 1], direction);
      } else if a > i {
        assert ws[a] == vs[a - 1] && ws[b] == vs[b - 1];
      }
    }
  }

  /** Inserting adds the key and keeps every other. */
  lemma InsertMembers(vs: seq<string>, key: string, i: int)
    requires 0 <= i <= |vs|
    ensures forall x :: x in vs[..i] + [key] + vs[i..] <==> x in vs || x == key
  {
    assert vs == vs[..i] + vs[i..];
  }

  /** The first position of an ordered list whose key ranks strictly
      above `key`, or its length. */
  method InsertionPoint(vs: seq<string>, key: string, direction: Action) returns (i: nat)
    requires Ordered(vs, direction) && IsVersion(key)
    ensures i <= |vs|
    ensures forall j :: 0 <= j < i ==> Rank(vs[j], direction) <= Rank(key, direction)
    ensures i < |vs| ==> Rank(key, direction) < Rank(vs[i], direction)
  {
    i := 0;
    while i < |vs| && Rank(vs[i], direction) <= Rank(key, direction)
      invariant 0 <= i <= |vs|
      invariant forall j :: 0 <= j < i ==> Rank(vs[j], direction) <= Rank(key, direction)
    {
      i := i + 1;
    }
  }

  /** `Object.keys(catalog).sort(...)` by `parseInt`: every version key once,
      ascending for Do and descending for Undo. */
  method SortVersions(keys: set<string>, direction: Action) returns (vs: seq<string>)
    ensures IsSortedKeys(vs, keys, direction)
  {
    vs := [];
    var rest := keys;
    while rest != {}
      invariant rest <= keys
      invariant Ordered(vs, direction)
      invariant forall i :: 0 <= i < |vs| ==> vs[i] in keys && vs[i] !in rest
      invariant forall k :: k in keys && IsVersion(k) && k !in rest ==> k in vs
      decreases rest
    {
      EmptyOrElement(rest);
      var key :| key in rest;
      rest := rest - {key};
      if IsVersion(key) {
        var i := InsertionPoint(vs, key, direction);
        InsertOrdered(vs, key, i, direction);
        InsertMembers(vs, key, i);
        vs := vs[..i] + [key] + vs[i..];
      }
    }
  }

  /** The plan over one more key of the list. */
  lemma PlanStep(vs: seq<string>, i: int, low: int, high: Number)
    requires forall j :: 0 <= j < |vs| ==> IsVersion(vs[j])
    requires 0 <= i < |vs|
    ensures Plan(vs[..i + 1], low, high) ==
      if InRange(vs[i], low, high) then Plan(vs[..i], low, high) + [vs[i]] else Plan(vs[..i], low, high)
  {
    assert vs[..i + 1][..i] == vs[..i];
  }

  /** Running one more key after a run that did not stop is one more step. */
  lemma ApplyExtend(cat: Catalog, direction: Action, plan: seq<string>, key: string, st: State, rejected: set<string>)
    requires Runnable(cat, plan) && key in cat && IsVersion(key)
    requires Apply(cat, direction, plan, st, rejected).error.None?
    ensures Runnable(cat, plan + [key])
    ensures Apply(cat, direction, plan + [key], st, rejected) ==
      ApplyStep(cat, direction, key, Apply(cat, direction, plan, st, rejected).state, rejected)
  {
    ApplyConcat(cat, direction, plan, [key], st, rejected);
  }

  /** One turn of the loop over `vs[i]`, after turns that did not stop:
      a selected key adds one step to the run, any other key nothing. */
  lemma WalkStep(cat: Catalog, direction: Action, vs: seq<string>, i: int, low: int, high: Number, st: State, rejected: set<string>)
    requires forall j :: 0 <= j < |vs| ==> vs[j] in cat && IsVersion(vs[j])
    requires 0 <= i < |vs|
    requires Runnable(cat, Plan(vs[..i], low, high))
    requires Apply(cat, direction, Plan(vs[..i], low, high), st, rejected).error.None?
    ensures Runnable(cat, Plan(vs[..i + 1], low, high))
    ensures Apply(cat, direction, Plan(vs[..i + 1], low, high), st, rejected) ==
      if InRange(vs[i], low, high)
      then ApplyStep(cat, direction, vs[i], Apply(cat, direction, Plan(vs[..i], low, high), st, rejected).state, rejected)
      else Apply(cat, direction, Plan(vs[..i], low, high), st, rejected)
  {
    PlanStep(vs, i, low, high);
    if InRange(vs[i], low, high) {
      ApplyExtend(cat, direction, Plan(vs[..i], low, high), vs[i], st, rejected);
    }
  }

  /** The loop stopped early at `i`: the run over the whole plan is the run
      over the plan of `vs[..i]`. */
  lemma ApplyStopped(cat: Catalog, direction: Action, vs: seq<string>, i: int, low: int, high: Number, st: State, rejected: set<string>)
    requires forall j :: 0 <= j < |vs| ==> vs[j] in cat && IsVersion(vs[j])
    requires 0 <= i <= |vs|
    requires Runnable(cat, Plan(vs[..i], low, high)) && Runnable(cat, Plan(vs[i..], low, high))
    requires Apply(cat, direction, Plan(vs[..i], low, high), st, rejected).error.Some?
    ensures Runnable(cat, Plan(vs, low, high))
    ensures Apply(cat, direction, Plan(vs, low, high), st, rejected) == Apply(cat, direction, Plan(vs[..i], low, high), st, rejected)
  {
    assert vs == vs[..i] + vs[i..];
    PlanConcat(vs[..i], vs[i..], low, high);
    ApplyConcat(cat, direction, Plan(vs[..i], low, high), Plan(vs[i..], low, high), st, rejected);
  }

  /** The plan of a list whose keys are all in the catalog can be run. */
  lemma PlanRunnable(cat: Catalog, vs: seq<string>, low: int, high: Number)
    requires forall j :: 0 <= j < |vs| ==> vs[j] in cat && IsVersion(vs[j])
    ensures Runnable(cat, Plan(vs, low, high))
  {
    var plan := Plan(vs, low, high);
    forall i | 0 <= i < |plan| ensures plan[i] in cat {
      PlanMembers(vs, low, high, plan[i]);
    }
  }

  /** The engine connected to one database. */
  class Migrator {
    /** The `migrations` table. */
    var ledger: Ledger
    /** Every migration file executed so far, in order. */
    var log: seq<Step>
    /** The files the database rejects and whether the ledger can be read. */
    const db: Database

    constructor (ledger: Ledger, db: Database)
      ensures this.ledger == ledger && this.log == [] && this.db == db
    {
      this.ledger := ledger;
      this.log := [];
      this.db := db;
    }

    function Snapshot(): State
      reads this
    {
      State(ledger, log)
    }

    /** `executeMigration(file, action)`: one transaction, committed or
        cancelled as a whole; the ledger is not touched. */
    method ExecuteMigration(version: nat, file: string, action: Action) returns (error: Option<Error>)
      modifies this
      ensures ledger == old(ledger)
      ensures log == old(log) + [Step(version, file, action, file !in db.rejected)]
      ensures error.Some? <==> file in db.rejected
      ensures error.Some? ==> error.value == ExecutionFailed(file)
    {
      var committed := file !in db.rejected;
      log := log + [Step(version, file, action, committed)];
      error := if committed then None else Some(ExecutionFailed(file));
    }

    /** `setCurrentVersion(version, title)`: one new row; the unique index
        refuses a version that already has one, and the error is passed on. */
    method SetCurrentVersion(version: nat, title: string) returns (error: Option<Error>)
      modifies this
      ensures log == old(log)
      ensures error.None? <==> version !in old(ledger)
      ensures error.None? ==> Append(old(ledger), version, title) == Some(ledger)
      ensures error.Some? ==> ledger == old(ledger) && error.value == DuplicateVersion(version)
    {
      if version in ledger {
        return Some(DuplicateVersion(version));
      }
      ledger := ledger[version := StoredTitle(title)];
      return None;
    }

    /** `DELETE migrations WHERE version = $version`. */
    method DeleteVersion(version: nat)
      modifies this
      ensures log == old(log)
      ensures ledger == Delete(old(ledger), version)
    {
      ledger := ledger - {version};
    }

    /** The body of the loops for a selected key: run its file for the
        direction, then record (Do) or delete (Undo) its row. */
    method RunKey(cat: Catalog, direction: Action, key: string) returns (error: Option<Error>)
      requires key in cat && IsVersion(key)
      modifies this
      ensures Run(Snapshot(), error) == ApplyStep(cat, direction, key, old(Snapshot()), db.rejected)
    {
      var entry := cat[key];
      var version := VersionOf(key);
      if ActionKey(direction) !in entry {
        return Some(MissingFile(key, direction));
      }
      error := ExecuteMigration(version, entry[ActionKey(direction)], direction);
      if error.None? {
        if direction == Do {
          error := SetCurrentVersion(version, TitleOf(entry));
        } else {
          DeleteVersion(version);
        }
      }
    }

    /** `migrate(directory, toVersion)`. `listing` is the directory as read
        (None when it cannot be read); `order` is the sorted version list
        the loop walked. */
    method Migrate(listing: Option<seq<string>>, toVersion: Option<nat>) returns (outcome: Outcome, order: seq<string>)
      modifies this
      ensures listing.None? ==> outcome == Aborted(CatalogUnreadable) && ledger == old(ledger) && log == old(log)
      ensures listing.Some? ==>
        var cat := CatalogOf(listing.value);
        IsSortedKeys(order, cat.Keys, Do) &&
        Report(Snapshot(), outcome) == Planner.Migrate(cat, order, toVersion, old(Snapshot()), db)
    {
      order := [];
      var catalog := GetMigrationFiles(listing);
      if catalog.None? {
        return Aborted(CatalogUnreadable), order;
      }
      var cat := catalog.value;
      var current := CurrentVersion(ledger, db.readable);
      order := SortVersions(cat.Keys, Do);
      var target := MigrateTarget(toVersion, cat.Keys);
      if LessThan(target, current) {
        return Refused, order;
      }
      if StrictEquals(target, current) {
        return UpToDate, order;
      }
      outcome := Walk(cat, Do, order, current, target);
    }

    /** `rollback(directory, toVersion)`, with `listing` and `order` as for
        `Migrate`. */
    method Rollback(listing: Option<seq<string>>, toVersion: Option<nat>) returns (outcome: Outcome, order: seq<string>)
      modifies this
      ensures listing.None? ==> outcome == Aborted(CatalogUnreadable) && ledger == old(ledger) && log == old(log)
      ensures listing.Some? ==>
        var cat := CatalogOf(listing.value);
        IsSortedKeys(order, cat.Keys, Undo) &&
        Report(Snapshot(), outcome) == Planner.Rollback(cat, order, toVersion, old(Snapshot()), db)
    {
      order := [];
      var catalog := GetMigrationFiles(listing);
      if catalog.None? {
        return Aborted(CatalogUnreadable), order;
      }
      var cat := catalog.value;
      var current := CurrentVersion(ledger, db.readable);
      order := SortVersions(cat.Keys, Undo);
      var target := RollbackTarget(toVersion, current);
      if target >= current {
        return Refused, order;
      }
      outcome := Walk(cat, Undo, order, target, Finite(current));
    }

    /** The `for (const version of versions)` loop shared by both commands:
        each key in (low, high] is run in list order, and the first error
        ends the loop and the command. */
    method Walk(cat: Catalog, direction: Action, vs: seq<string>, low: int, high: Number) returns (outcome: Outcome)
      requires forall j :: 0 <= j < |vs| ==> vs[j] in cat && IsVersion(vs[j])
      modifies this
      ensures Runnable(cat, Plan(vs, low, high))
      ensures Report(Snapshot(), outcome) == Finish(Apply(cat, direction, Plan(vs, low, high), old(Snapshot()), db.rejected))
    {
      ghost var start := Snapshot();
      var error: Option<Error> := None;
      var i := 0;
      PlanRunnable(cat, vs[..0], low, high);
      while i < |vs| && error.None?
        invariant 0 <= i <= |vs|
        invariant Runnable(cat, Plan(vs[..i], low, high))
        invariant Run(Snapshot(), error) == Apply(cat, direction, Plan(vs[..i], low, high), start, db.rejected)
      {
        var key := vs[i];
        WalkStep(cat, direction, vs, i, low, high, start, db.rejected);
        if InRange(key, low, high) {
          error := RunKey(cat, direction, key);
        }
        i := i + 1;
      }
      PlanRunnable(cat, vs, low, high);
      if error.Some? {
        PlanRunnable(cat, vs[i..], low, high);
        ApplyStopped(cat, direction, vs, i, low, high, start, db.rejected);
        outcome := Aborted(error.value);
      } else {
        assert vs[..i] == vs;
        outcome := Finished;
      }
    }

    /** `getInfo(directory)`: the current row, the latest catalog version and
        the pending list, in the order of the sorted version list `order`;
        None when the directory cannot be read. Nothing is changed. */
    method GetInfo(listing: Option<seq<string>>) returns (info: Option<Info>, order: seq<string>)
      ensures listing.None? ==> info.None?
      ensures listing.Some? ==>
        var cat := CatalogOf(listing.value);
        IsSortedKeys(order, cat.Keys, Do) && info == Some(Planner.GetInfo(cat, order, ledger, db.readable))
    {
      order := [];
      var catalog := GetMigrationFiles(listing);
      if catalog.None? {
        return None, order;
      }
      var cat := catalog.value;
      var current := CurrentVersionInfo(ledger, db.readable);
      order := SortVersions(cat.Keys, Do);
      info := Some(Info(current.version, current.title, LatestVersion(cat.Keys), PendingOf(cat, order, current.version)));
    }
  }
}
