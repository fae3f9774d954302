/** The migration planner and executor of `migrate`, `rollback` and
    `getInfo`, as functions of the catalog, the ledger and the database's
    answers. The class in engine.dfy runs the same loops step by step and is
    proved to end in the states these functions give. */
module Planner {
  import opened Js
  import opened Catalog
  import opened Ledger

  /** The two directions a migration file can be run in. */
  datatype Action = Do | Undo

  /** The entry property that names the file for an action. */
  function ActionKey(action: Action): string
  {
    match action
    case Do => "do"
    case Undo => "undo"
  }

  /** A catalog key that `parseInt` reads as a version number. */
  predicate IsVersion(key: string)
  {
    ParseInt(key).Some?
  }

  function VersionOf(key: string): nat
    requires IsVersion(key)
  {
    ParseInt(key).value
  }

  /** The entry's `title` property; a missing one reads as empty. */
  function TitleOf(entry: Entry): string
  {
    if TitleKey in entry then entry[TitleKey] else ""
  }

  // ---------------------------------------------------------------------
  // The sorted version list
  // ---------------------------------------------------------------------

  /** Sort key: ascending version for Do, descending for Undo. */
  function Rank(key: string, direction: Action): int
    requires IsVersion(key)
  {
    if direction == Do then VersionOf(key) else -(VersionOf(key) as int)
  }

  /** Keys of `vs` are version keys, pairwise different, sorted by `Rank`. */
  predicate Ordered(vs: seq<string>, direction: Action)
  {
    (forall i :: 0 <= i < |vs| ==> IsVersion(vs[i])) &&
    (forall i, j :: 0 <= i < j < |vs| ==> vs[i] != vs[j] && Rank(vs[i], direction) <= Rank(vs[j], direction))
  }

  /** `vs` is `Object.keys(catalog).sort(...)` by `parseInt`, ascending for
      migrate and `getInfo`, descending for rollback, with the keys that are
      not version numbers left out (no range test ever selects them). Keys
      of equal value may come in either order. */
  predicate IsSortedKeys(vs: seq<string>, keys: set<string>, direction: Action)
  {
    Ordered(vs, direction) &&
    (forall i :: 0 <= i < |vs| ==> vs[i] in keys) &&
    (forall k :: k in keys && IsVersion(k) ==> k in vs)
  }

  /** Appending a key that ranks at least as high as every other keeps a
      sorted list sorted. */
  lemma AppendHighest(vs: seq<string>, keys: set<string>, last: string, direction: Action)
    requires IsSortedKeys(vs, keys, direction)
    requires IsVersion(last) && last !in keys
    requires forall k :: k in keys && IsVersion(k) ==> Rank(k, direction) <= Rank(last, direction)
    ensures IsSortedKeys(vs + [last], keys + {last}, direction)
  {
    var ws := vs + [last];
    forall i, j | 0 <= i < j < |ws|
      ensures ws[i] != ws[j] && Rank(ws[i], direction) <= Rank(ws[j], direction)
    {
      if j == |vs| {
        assert ws[i] in keys;
      }
    }
  }

  lemma {:induction false} SortedVersionKeysExist(keys: set<string>, direction: Action)
    requires forall k :: k in keys ==> IsVersion(k)
    ensures exists vs :: IsSortedKeys(vs, keys, direction)
    decreases |keys|
  {
    if keys == {} {
      assert IsSortedKeys([], keys, direction);
    } else {
      var last := HighestKey(keys, direction);
      var rest := keys - {last};
      SortedVersionKeysExist(rest, direction);
      var vs :| IsSortedKeys(vs, rest, direction);
      AppendHighest(vs, rest, last, direction);
      assert rest + {last} == keys;
    }
  }

  /** A non-empty set of version keys has a key ranking at least as high
      as every other. */
  lemma HighestKey(keys: set<string>, direction: Action) returns (last: string)
    requires keys != {} && forall k :: k in keys ==> IsVersion(k)
    ensures last in keys && IsVersion(last)
    ensures forall k :: k in keys ==> Rank(k, direction) <= Rank(last, direction)
  {
    var ranks := set k | k in keys :: Rank(k, direction);
    var some := Pick(keys);
    assert Rank(some, direction) in ranks;
    var top := MaxOf(ranks);
    last :| last in keys && Rank(last, direction) == top;
    forall k | k in keys ensures Rank(k, direction) <= Rank(last, direction) {
      assert Rank(k, direction) in ranks;
    }
  }

  /** Every catalog has a sorted version list in each direction. */
  lemma SortedKeysExist(keys: set<string>, direction: Action)
    ensures exists vs :: IsSortedKeys(vs, keys, direction)
  {
    var versions := set k | k in keys && IsVersion(k);
    SortedVersionKeysExist(versions, direction);
    var vs :| IsSortedKeys(vs, versions, direction);
    assert IsSortedKeys(vs, keys, direction);
  }

  // ---------------------------------------------------------------------
  // Targets and ranges
  // ---------------------------------------------------------------------

  /** `Math.max(...versions.map((v) => parseInt(v)))` over every catalog key:
      `-Infinity` for an empty catalog, `NaN` as soon as one key is not a
      number, the largest version otherwise. */
  function LatestVersion(keys: set<string>): (r: Number)
    ensures keys == {} ==> r == NegInfinity
    ensures (exists k :: k in keys && !IsVersion(k)) ==> r == NaN
    ensures keys != {} && (forall k :: k in keys ==> IsVersion(k)) ==>
              r.Finite? && (exists k :: k in keys && VersionOf(k) == r.n) &&
              forall k :: k in keys ==> VersionOf(k) <= r.n
  {
    var parsed: set<Option<int>> := set k | k in keys :: ParseInt(k);
    assert forall k :: k in keys ==> ParseInt(k) in parsed;
    var r := MathMax(parsed);
    if keys != {} && (forall k :: k in keys ==> IsVersion(k)) then
      var w :| w in keys && ParseInt(w) == Some(r.n);
      assert VersionOf(w) == r.n;
      r
    else r
  }

  /** The target of `migrate`: `--to` when given, the latest version otherwise. */
  function MigrateTarget(toVersion: Option<nat>, keys: set<string>): Number
  {
    if toVersion.Some? then Finite(toVersion.value) else LatestVersion(keys)
  }

  /** The target of `rollback`: `--to` when given, one below current otherwise. */
  function RollbackTarget(toVersion: Option<nat>, current: nat): int
  {
    if toVersion.Some? then toVersion.value else current - 1
  }

  /** The loop's range test `low < v && v <= high`. */
  predicate InRange(key: string, low: int, high: Number)
    requires IsVersion(key)
  {
    low < VersionOf(key) && AtMost(VersionOf(key), high)
  }

  /** The keys of `vs` the loop acts on, in loop order. */
  function Plan(vs: seq<string>, low: int, high: Number): (plan: seq<string>)
    requires forall i :: 0 <= i < |vs| ==> IsVersion(vs[i])
    ensures forall i :: 0 <= i < |plan| ==> IsVersion(plan[i])
    decreases |vs|
  {
    if vs == [] then []
    else
      var init := Plan(vs[..|vs| - 1], low, high);
      var key := vs[|vs| - 1];
      if InRange(key, low, high) then init + [key] else init
  }

  /** The plan holds exactly the keys of `vs` in range. */
  lemma {:induction false} PlanMembers(vs: seq<string>, low: int, high: Number, key: string)
    requires forall i :: 0 <= i < |vs| ==> IsVersion(vs[i])
    ensures key in Plan(vs, low, high) <==> key in vs && InRange(key, low, high)
    decreases |vs|
  {
    if vs != [] {
      var init := vs[..|vs| - 1];
      PlanMembers(init, low, high, key);
      assert vs == init + [vs[|vs| - 1]];
    }
  }

  /** The plan keeps the order of `vs`. */
  lemma {:induction false} PlanOrdered(vs: seq<string>, low: int, high: Number, direction: Action)
    requires Ordered(vs, direction)
    ensures Ordered(Plan(vs, low, high), direction)
    decreases |vs|
  {
    if vs != [] {
      var n := |vs| - 1;
      var init := vs[..n];
      var key := vs[n];
      PlanOrdered(init, low, high, direction);
      var p := Plan(init, low, high);
      if InRange(key, low, high) {
        forall i | 0 <= i < |p| ensures p[i] != key && Rank(p[i], direction) <= Rank(key, direction) {
          PlanMembers(init, low, high, p[i]);
          var j :| 0 <= j < n && init[j] == p[i];
        }
      }
    }
  }

  lemma {:induction false} PlanConcat(a: seq<string>, b: seq<string>, low: int, high: Number)
    requires forall i :: 0 <= i < |a| ==> IsVersion(a[i])
    requires forall i :: 0 <= i < |b| ==> IsVersion(b[i])
    ensures Plan(a + b, low, high) == Plan(a, low, high) + Plan(b, low, high)
    decreases |b|
  {
    if b == [] {
      assert a + b == a;
    } else {
      var n := |b| - 1;
      PlanConcat(a, b[..n], low, high);
      assert (a + b)[..|a + b| - 1] == a + b[..n];
    }
  }

  /** The versions a plan names. */
  function Versions(plan: seq<string>): set<nat>
    requires forall i :: 0 <= i < |plan| ==> IsVersion(plan[i])
  {
    set i | 0 <= i < |plan| :: VersionOf(plan[i])
  }

  /** A sorted list covers the whole catalog, so a plan names exactly the
      catalog's versions in range. */
  lemma PlanVersions(cat: Catalog, vs: seq<string>, direction: Action, low: int, high: Number, v: nat)
    requires IsSortedKeys(vs, cat.Keys, direction)
    ensures v in Versions(Plan(vs, low, high)) <==>
              exists k :: k in cat && IsVersion(k) && VersionOf(k) == v && InRange(k, low, high)
  {
    var plan := Plan(vs, low, high);
    if v in Versions(plan) {
      var i :| 0 <= i < |plan| && VersionOf(plan[i]) == v;
      PlanMembers(vs, low, high, plan[i]);
    }
    if exists k :: k in cat && IsVersion(k) && VersionOf(k) == v && InRange(k, low, high) {
      var k :| k in cat && IsVersion(k) && VersionOf(k) == v && InRange(k, low, high);
      PlanMembers(vs, low, high, k);
      var i :| 0 <= i < |plan| && plan[i] == k;
    }
  }

  // ---------------------------------------------------------------------
  // Running a plan
  // ---------------------------------------------------------------------

  /** One call of `executeMigration`, as the execution log records it. */
  datatype Step = Step(version: nat, file: string, action: Action, committed: bool)

  datatype Error =
    | CatalogUnreadable
      // the entry has no file for the action: `path.join` throws
    | MissingFile(key: string, action: Action)
      // the database rejected the file; its transaction was cancelled
    | ExecutionFailed(file: string)
      // the unique index on `version` rejected the ledger row
    | DuplicateVersion(version: nat)

  /** The ledger and the execution log. */
  datatype State = State(ledger: Ledger, log: seq<Step>)

  /** A state and the error that stopped the run, if one did. */
  datatype Run = Run(state: State, error: Option<Error>)

  /** `executeMigration(file, action)`: the whole file runs in one
      transaction, committed when the database accepts it and cancelled,
      with the error passed on, when it rejects it (`rejected` is the set of
      files it rejects). The ledger is not touched. */
  function Execute(st: State, version: nat, file: string, action: Action, rejected: set<string>): (r: Run)
    ensures r.state.ledger == st.ledger
    ensures r.state.log == st.log + [Step(version, file, action, file !in rejected)]
    ensures r.error.Some? <==> file in rejected
    ensures r.error.Some? ==> r.error.value == ExecutionFailed(file)
  {
    var committed := file !in rejected;
    var st' := State(st.ledger, st.log + [Step(version, file, action, committed)]);
    if committed then Run(st', None) else Run(st', Some(ExecutionFailed(file)))
  }

  /** The step for `key` on `ledger` fails with `e`, for the reason `e`
      names: the entry has no file for the direction, or the database
      rejects that file, or (Do only) the file ran but the version already
      has a row. */
  predicate FailsWith(cat: Catalog, direction: Action, key: string, ledger: Ledger, rejected: set<string>, e: Error)
    requires key in cat && IsVersion(key)
  {
    var name := ActionKey(direction);
    match e
    case CatalogUnreadable => false
    case MissingFile(k, a) => k == key && a == direction && name !in cat[key]
    case ExecutionFailed(file) => name in cat[key] && file == cat[key][name] && file in rejected
    case DuplicateVersion(v) =>
      direction == Do && name in cat[key] && cat[key][name] !in rejected && v == VersionOf(key) && v in ledger
  }

  /** One selected iteration of the loop: run the key's file for the
      direction, then append the ledger row (Do) or delete it (Undo). */
  function ApplyStep(cat: Catalog, direction: Action, key: string, st: State, rejected: set<string>): (r: Run)
    requires key in cat && IsVersion(key)
    ensures st.log <= r.state.log && |r.state.log| <= |st.log| + 1
    ensures r.error.Some? <==>
              ActionKey(direction) !in cat[key] || cat[key][ActionKey(direction)] in rejected ||
              (direction == Do && VersionOf(key) in st.ledger)
    ensures r.error.Some? ==> FailsWith(cat, direction, key, st.ledger, rejected, r.error.value)
    ensures r.error.Some? ==> r.state.ledger == st.ledger
    ensures r.error.None? ==>
              ActionKey(direction) in cat[key] &&
              r.state.log == st.log + [Step(VersionOf(key), cat[key][ActionKey(direction)], direction, true)]
    ensures r.error.None? && direction == Do ==>
              VersionOf(key) !in st.ledger &&
              r.state.ledger == st.ledger[VersionOf(key) := StoredTitle(TitleOf(cat[key]))]
    ensures r.error.None? && direction == Undo ==> r.state.ledger == Delete(st.ledger, VersionOf(key))
  {
    var entry := cat[key];
    var version := VersionOf(key);
    if ActionKey(direction) !in entry then Run(st, Some(MissingFile(key, direction)))
    else
      var ran := Execute(st, version, entry[ActionKey(direction)], direction, rejected);
      if ran.error.Some? then ran
      else if direction == Undo then Run(State(Delete(ran.state.ledger, version), ran.state.log), None)
      else
        match Append(ran.state.ledger, version, TitleOf(entry))
        case None => Run(ran.state, Some(DuplicateVersion(version)))
        case Some(grown) => Run(State(grown, ran.state.log), None)
  }

  /** What a failed step logged: nothing when the file is missing, the
      cancelled file when the database rejected it, and the committed file
      when its ledger row was refused as a duplicate. */
  lemma StepFailureLog(cat: Catalog, direction: Action, key: string, st: State, rejected: set<string>)
    requires key in cat && IsVersion(key)
    ensures var r := ApplyStep(cat, direction, key, st, rejected);
      (r.error == Some(MissingFile(key, direction)) ==> r.state.log == st.log) &&
      (r.error.Some? && r.error.value.ExecutionFailed? ==>
         r.state.log == st.log + [Step(VersionOf(key), r.error.value.file, direction, false)]) &&
      (r.error.Some? && r.error.value.DuplicateVersion? ==>
         r.state.log == st.log + [Step(VersionOf(key), cat[key][ActionKey(direction)], direction, true)])
  {
  }

  /** The plan's keys in the catalog, each with a version. */
  predicate Runnable(cat: Catalog, plan: seq<string>)
  {
    forall i :: 0 <= i < |plan| ==> plan[i] in cat && IsVersion(plan[i])
  }

  /** The loop over a plan, stopped by the first error. */
  function Apply(cat: Catalog, direction: Action, plan: seq<string>, st: State, rejected: set<string>): (r: Run)
    requires Runnable(cat, plan)
    ensures st.log <= r.state.log
    decreases |plan|
  {
    if plan == [] then Run(st, None)
    else
      var first := ApplyStep(cat, direction, plan[0], st, rejected);
      if first.error.Some? then first
      else Apply(cat, direction, plan[1..], first.state, rejected)
  }

  lemma VersionsCons(plan: seq<string>)
    requires |plan| > 0 && forall i :: 0 <= i < |plan| ==> IsVersion(plan[i])
    ensures Versions(plan) == {VersionOf(plan[0])} + Versions(plan[1..])
  {
    forall v | v in Versions(plan) ensures v in {VersionOf(plan[0])} + Versions(plan[1..]) {
      var i :| 0 <= i < |plan| && VersionOf(plan[i]) == v;
      if i > 0 { assert plan[1..][i - 1] == plan[i]; }
    }
    forall v | v in Versions(plan[1..]) ensures v in Versions(plan) {
      var i :| 0 <= i < |plan[1..]| && VersionOf(plan[1..][i]) == v;
      assert plan[i + 1] == plan[1..][i];
    }
  }

  /** What a run does to the ledger: under Do it only grows, under Undo it
      only shrinks, in both cases only by versions the plan names, and no
      row is ever rewritten; a run that did not stop added (Do) or removed
      (Undo) every version the plan names. */
  lemma {:induction false} ApplyLedger(cat: Catalog, direction: Action, plan: seq<string>, st: State, rejected: set<string>)
    requires Runnable(cat, plan)
    ensures var r := Apply(cat, direction, plan, st, rejected);
      (direction == Do ==> st.ledger.Keys <= r.state.ledger.Keys <= st.ledger.Keys + Versions(plan)) &&
      (direction == Undo ==> st.ledger.Keys - Versions(plan) <= r.state.ledger.Keys <= st.ledger.Keys) &&
      (forall v :: v in st.ledger && v in r.state.ledger ==> r.state.ledger[v] == st.ledger[v]) &&
      (r.error.None? && direction == Do ==> r.state.ledger.Keys == st.ledger.Keys + Versions(plan)) &&
      (r.error.None? && direction == Undo ==> r.state.ledger.Keys == st.ledger.Keys - Versions(plan))
    decreases |plan|
  {
    if plan != [] {
      VersionsCons(plan);
      var first := ApplyStep(cat, direction, plan[0], st, rejected);
      if first.error.None? {
        ApplyLedger(cat, direction, plan[1..], first.state, rejected);
      }
    }
  }

  /** Running `p + q` is running `p`, then `q` unless `p` stopped. */
  lemma {:induction false} ApplyConcat(cat: Catalog, direction: Action, p: seq<string>, q: seq<string>, st: State, rejected: set<string>)
    requires Runnable(cat, p) && Runnable(cat, q)
    ensures Runnable(cat, p + q)
    ensures var r := Apply(cat, direction, p, st, rejected);
      Apply(cat, direction, p + q, st, rejected) ==
        if r.error.Some? then r else Apply(cat, direction, q, r.state, rejected)
    decreases |p|
  {
    if p == [] {
      assert p + q == q;
    } else {
      var first := ApplyStep(cat, direction, p[0], st, rejected);
      assert (p + q)[0] == p[0];
      assert (p + q)[1..] == p[1..] + q;
      if first.error.None? {
        ApplyConcat(cat, direction, p[1..], q, first.state, rejected);
      }
    }
  }

  /** From index `from` on, `log` is one committed step per plan key, in
      plan order. */
  predicate CommittedSteps(cat: Catalog, direction: Action, plan: seq<string>, log: seq<Step>, from: nat)
    requires Runnable(cat, plan)
  {
    |log| == from + |plan| &&
    forall i :: 0 <= i < |plan| ==>
      ActionKey(direction) in cat[plan[i]] &&
      log[from + i] == Step(VersionOf(plan[i]), cat[plan[i]][ActionKey(direction)], direction, true)
  }

  /** After a run that did not stop, the log has gained one committed step
      per plan key, in plan order, and nothing else. */
  lemma {:induction false} ApplyLog(cat: Catalog, direction: Action, plan: seq<string>, st: State, rejected: set<string>)
    requires Runnable(cat, plan)
    requires Apply(cat, direction, plan, st, rejected).error.None?
    ensures var log := Apply(cat, direction, plan, st, rejected).state.log;
      st.log <= log && CommittedSteps(cat, direction, plan, log, |st.log|)
    decreases |plan|
  {
    if plan != [] {
      var log := Apply(cat, direction, plan, st, rejected).state.log;
      var first := ApplyStep(cat, direction, plan[0], st, rejected);
      var rest := plan[1..];
      assert first.error.None?;
      assert Apply(cat, direction, rest, first.state, rejected).state.log == log;
      ApplyLog(cat, direction, rest, first.state, rejected);
      var n := |st.log|;
      assert log[n] == first.state.log[n];
      forall i | 0 <= i < |plan|
        ensures ActionKey(direction) in cat[plan[i]] &&
          log[n + i] == Step(VersionOf(plan[i]), cat[plan[i]][ActionKey(direction)], direction, true)
      {
        if i > 0 {
          assert plan[i] == rest[i - 1];
          assert log[n + i] == log[(n + 1) + (i - 1)];
        }
      }
    }
  }

  /** The run over `plan` is the run over `plan[..k]`, which did not stop,
      followed by the step for `plan[k]`. */
  predicate StopsAt(cat: Catalog, direction: Action, plan: seq<string>, st: State, rejected: set<string>, k: int)
    requires Runnable(cat, plan)
  {
    0 <= k < |plan| &&
    var before := Apply(cat, direction, plan[..k], st, rejected);
    before.error.None? &&
    Apply(cat, direction, plan, st, rejected) == ApplyStep(cat, direction, plan[k], before.state, rejected)
  }

  /** A run that stopped is a run of a prefix that did not stop, followed by
      the one step that failed: nothing after it was attempted. */
  lemma {:induction false} ApplyStops(cat: Catalog, direction: Action, plan: seq<string>, st: State, rejected: set<string>)
    requires Runnable(cat, plan)
    requires Apply(cat, direction, plan, st, rejected).error.Some?
    ensures exists k :: StopsAt(cat, direction, plan, st, rejected, k)
    decreases |plan|
  {
    var first := ApplyStep(cat, direction, plan[0], st, rejected);
    if first.error.Some? {
      assert plan[..0] == [];
      assert StopsAt(cat, direction, plan, st, rejected, 0);
    } else {
      ApplyStops(cat, direction, plan[1..], first.state, rejected);
      var k :| StopsAt(cat, direction, plan[1..], first.state, rejected, k);
      StopsAtShift(cat, direction, plan, st, rejected, k);
    }
  }

  /** A stop at `k` in the run after a first step that did not stop is a
      stop at `k + 1` in the whole run. */
  lemma StopsAtShift(cat: Catalog, direction: Action, plan: seq<string>, st: State, rejected: set<string>, k: int)
    requires Runnable(cat, plan) && |plan| > 0
    requires ApplyStep(cat, direction, plan[0], st, rejected).error.None?
    requires StopsAt(cat, direction, plan[1..], ApplyStep(cat, direction, plan[0], st, rejected).state, rejected, k)
    ensures StopsAt(cat, direction, plan, st, rejected, k + 1)
  {
    var first := ApplyStep(cat, direction, plan[0], st, rejected);
    var rest := plan[1..];
    var pre := plan[..k + 1];
    assert pre[0] == plan[0] && pre[1..] == rest[..k];
    assert Apply(cat, direction, pre, st, rejected) == Apply(cat, direction, rest[..k], first.state, rejected);
    assert plan[k + 1] == rest[k];
  }

  /** A run under Do that did not stop recorded versions none of which had
      a row before and no two of which are alike. */
  lemma {:induction false} ApplyFresh(cat: Catalog, plan: seq<string>, st: State, rejected: set<string>)
    requires Runnable(cat, plan)
    requires Apply(cat, Do, plan, st, rejected).error.None?
    ensures forall i :: 0 <= i < |plan| ==> VersionOf(plan[i]) !in st.ledger
    ensures forall i, j :: 0 <= i < j < |plan| ==> VersionOf(plan[i]) != VersionOf(plan[j])
    decreases |plan|
  {
    if plan != [] {
      var first := ApplyStep(cat, Do, plan[0], st, rejected);
      assert first.error.None?;
      var rest := plan[1..];
      ApplyFresh(cat, rest, first.state, rejected);
      var v0 := VersionOf(plan[0]);
      assert v0 !in st.ledger && v0 in first.state.ledger && st.ledger.Keys <= first.state.ledger.Keys;
      forall i | 0 < i < |plan| ensures VersionOf(plan[i]) !in st.ledger && VersionOf(plan[i]) != v0 {
        assert plan[i] == rest[i - 1];
      }
      forall i, j | 0 < i < j < |plan| ensures VersionOf(plan[i]) != VersionOf(plan[j]) {
        assert plan[i] == rest[i - 1] && plan[j] == rest[j - 1];
      }
    }
  }

  /** A run under Do that did not stop gave every plan version a row with
      its entry's title (none when the title is empty). */
  lemma {:induction false} ApplyTitles(cat: Catalog, plan: seq<string>, st: State, rejected: set<string>)
    requires Runnable(cat, plan)
    requires Apply(cat, Do, plan, st, rejected).error.None?
    ensures var ledger := Apply(cat, Do, plan, st, rejected).state.ledger;
      forall i :: 0 <= i < |plan| ==>
        VersionOf(plan[i]) in ledger && ledger[VersionOf(plan[i])] == StoredTitle(TitleOf(cat[plan[i]]))
    decreases |plan|
  {
    if plan != [] {
      var first := ApplyStep(cat, Do, plan[0], st, rejected);
      assert first.error.None?;
      var rest := plan[1..];
      var ledger := Apply(cat, Do, plan, st, rejected).state.ledger;
      assert Apply(cat, Do, rest, first.state, rejected).state.ledger == ledger;
      ApplyTitles(cat, rest, first.state, rejected);
      ApplyLedger(cat, Do, rest, first.state, rejected);
      forall i | 0 < i < |plan|
        ensures VersionOf(plan[i]) in ledger && ledger[VersionOf(plan[i])] == StoredTitle(TitleOf(cat[plan[i]]))
      {
        assert plan[i] == rest[i - 1];
      }
    }
  }

  /** Every key of the plan has its file for the direction and the database
      accepts that file; under Do, moreover, no planned version has a row in
      `ledger` and no two planned versions are alike. */
  predicate Feasible(cat: Catalog, direction: Action, plan: seq<string>, ledger: Ledger, rejected: set<string>)
    requires Runnable(cat, plan)
  {
    (forall i :: 0 <= i < |plan| ==>
       ActionKey(direction) in cat[plan[i]] && cat[plan[i]][ActionKey(direction)] !in rejected) &&
    (direction == Do ==> forall i :: 0 <= i < |plan| ==> VersionOf(plan[i]) !in ledger) &&
    (direction == Do ==> forall i, j :: 0 <= i < j < |plan| ==> VersionOf(plan[i]) != VersionOf(plan[j]))
  }

  /** After a first step that did not stop, the plan is feasible exactly
      when the rest of it is feasible on the ledger that step left. */
  lemma FeasibleCons(cat: Catalog, direction: Action, plan: seq<string>, st: State, rejected: set<string>)
    requires Runnable(cat, plan) && |plan| > 0
    requires ApplyStep(cat, direction, plan[0], st, rejected).error.None?
    ensures Runnable(cat, plan[1..])
    ensures Feasible(cat, direction, plan, st.ledger, rejected) <==>
      Feasible(cat, direction, plan[1..], ApplyStep(cat, direction, plan[0], st, rejected).state.ledger, rejected)
  {
    var rest := plan[1..];
    var ledger := ApplyStep(cat, direction, plan[0], st, rejected).state.ledger;
    var v0 := VersionOf(plan[0]);
    assert forall i :: 0 < i < |plan| ==> plan[i] == rest[i - 1];
    assert forall i :: 0 <= i < |rest| ==> rest[i] == plan[i + 1];
    if direction == Do {
      assert v0 in ledger && v0 !in st.ledger && ledger.Keys == st.ledger.Keys + {v0};
      if Feasible(cat, direction, rest, ledger, rejected) {
        forall i | 0 < i < |plan| ensures VersionOf(plan[i]) != v0 {
          assert VersionOf(rest[i - 1]) !in ledger;
        }
      }
    }
  }

  /** A run ends without error exactly when its plan is feasible. */
  lemma {:induction false} ApplySucceeds(cat: Catalog, direction: Action, plan: seq<string>, st: State, rejected: set<string>)
    requires Runnable(cat, plan)
    ensures Apply(cat, direction, plan, st, rejected).error.None? <==> Feasible(cat, direction, plan, st.ledger, rejected)
    decreases |plan|
  {
    if plan != [] {
      var first := ApplyStep(cat, direction, plan[0], st, rejected);
      if first.error.None? {
        FeasibleCons(cat, direction, plan, st, rejected);
        ApplySucceeds(cat, direction, plan[1..], first.state, rejected);
      }
    }
  }

  /** A run that stopped at plan index `k`: the steps before `k` all ran,
      were logged as committed and changed the ledger by their versions; the
      step at `k` failed for the reason its error names and left the ledger
      as it was, having logged nothing (missing file), the cancelled file
      (rejected) or the committed file (duplicate row); no later step was
      attempted. */
  predicate FailedAt(cat: Catalog, direction: Action, plan: seq<string>, st: State, rejected: set<string>, k: int)
    requires Runnable(cat, plan)
  {
    0 <= k < |plan| &&
    var before := Apply(cat, direction, plan[..k], st, rejected);
    var after := Apply(cat, direction, plan, st, rejected);
    before.error.None? &&
    st.log <= before.state.log &&
    CommittedSteps(cat, direction, plan[..k], before.state.log, |st.log|) &&
    (direction == Do ==> before.state.ledger.Keys == st.ledger.Keys + Versions(plan[..k])) &&
    (direction == Undo ==> before.state.ledger.Keys == st.ledger.Keys - Versions(plan[..k])) &&
    after.state.ledger == before.state.ledger &&
    after.error.Some? && FailsWith(cat, direction, plan[k], before.state.ledger, rejected, after.error.value) &&
    (after.error.value.MissingFile? ==> after.state.log == before.state.log) &&
    (after.error.value.ExecutionFailed? ==>
       after.state.log == before.state.log + [Step(VersionOf(plan[k]), after.error.value.file, direction, false)]) &&
    (after.error.value.DuplicateVersion? ==>
       after.state.log == before.state.log + [Step(VersionOf(plan[k]), cat[plan[k]][ActionKey(direction)], direction, true)])
  }

  /** A failing step stops the loop; what ran before it stays committed. */
  lemma ApplyAborted(cat: Catalog, direction: Action, plan: seq<string>, st: State, rejected: set<string>)
    requires Runnable(cat, plan)
    requires Apply(cat, direction, plan, st, rejected).error.Some?
    ensures exists k :: FailedAt(cat, direction, plan, st, rejected, k)
  {
    ApplyStops(cat, direction, plan, st, rejected);
    var k :| StopsAt(cat, direction, plan, st, rejected, k);
    ApplyLog(cat, direction, plan[..k], st, rejected);
    ApplyLedger(cat, direction, plan[..k], st, rejected);
    StepFailureLog(cat, direction, plan[k], Apply(cat, direction, plan[..k], st, rejected).state, rejected);
    assert FailedAt(cat, direction, plan, st, rejected, k);
  }

  /** A plan chosen by range is empty when the upper bound is `NaN`. */
  lemma {:induction false} PlanNaN(vs: seq<string>, low: int)
    requires forall i :: 0 <= i < |vs| ==> IsVersion(vs[i])
    ensures Plan(vs, low, NaN) == []
    decreases |vs|
  {
    if vs != [] {
      PlanNaN(vs[..|vs| - 1], low);
    }
  }

  /** No two catalog keys name the same version ("1" and "001" would). */
  predicate DistinctVersions(keys: set<string>)
  {
    forall a, b :: a in keys && b in keys && IsVersion(a) && IsVersion(b) && a != b ==> VersionOf(a) != VersionOf(b)
  }

  /** The plan over a sorted list: in loop order, runnable, and holding
      exactly the catalog keys in range; with distinct versions the order
      is strict. */
  lemma PlanSelects(cat: Catalog, vs: seq<string>, direction: Action, low: int, high: Number)
    requires IsSortedKeys(vs, cat.Keys, direction)
    ensures var plan := Plan(vs, low, high);
      Runnable(cat, plan) && Ordered(plan, direction) &&
      (forall k :: k in plan <==> k in cat && IsVersion(k) && InRange(k, low, high)) &&
      (DistinctVersions(cat.Keys) ==>
         forall i, j :: 0 <= i < j < |plan| ==> Rank(plan[i], direction) < Rank(plan[j], direction))
  {
    var plan := Plan(vs, low, high);
    PlanOrdered(vs, low, high, direction);
    forall k ensures k in plan <==> k in cat && IsVersion(k) && InRange(k, low, high) {
      PlanMembers(vs, low, high, k);
    }
  }

  // ---------------------------------------------------------------------
  // The commands
  // ---------------------------------------------------------------------

  /** What the database does besides holding the ledger: the migration files
      it rejects, and whether the ledger query in `getCurrentVersion` and
      `getCurrentVersionInfo` succeeds. */
  datatype Database = Database(rejected: set<string>, readable: bool)

  datatype Outcome =
    | Refused     // target on the wrong side of current: a warning, nothing done
    | UpToDate    // migrate with target equal to current
    | Finished    // the loop ran to its end
    | Aborted(error: Error)

  datatype Report = Report(state: State, outcome: Outcome)

  function Finish(r: Run): Report
  {
    Report(r.state, if r.error.Some? then Aborted(r.error.value) else Finished)
  }

  /** The plan of `migrate`: ascending keys with `current < v <= target`. */
  function MigratePlan(cat: Catalog, vs: seq<string>, toVersion: Option<nat>, st: State, db: Database): seq<string>
    requires IsSortedKeys(vs, cat.Keys, Do)
  {
    Plan(vs, CurrentVersion(st.ledger, db.readable), MigrateTarget(toVersion, cat.Keys))
  }

  /** `migrate(directory, toVersion)` after the catalog has been read. */
  function Migrate(cat: Catalog, vs: seq<string>, toVersion: Option<nat>, st: State, db: Database): (r: Report)
    requires IsSortedKeys(vs, cat.Keys, Do)
    ensures st.log <= r.state.log
    ensures st.ledger.Keys <= r.state.ledger.Keys
  {
    var current := CurrentVersion(st.ledger, db.readable);
    var target := MigrateTarget(toVersion, cat.Keys);
    if LessThan(target, current) then Report(st, Refused)
    else if StrictEquals(target, current) then Report(st, UpToDate)
    else
      var plan := MigratePlan(cat, vs, toVersion, st, db);
      assert Runnable(cat, plan) by {
        forall i | 0 <= i < |plan| ensures plan[i] in cat {
          PlanMembers(vs, current, target, plan[i]);
        }
      }
      ApplyLedger(cat, Do, plan, st, db.rejected);
      Finish(Apply(cat, Do, plan, st, db.rejected))
  }

  /** The plan of `rollback`: descending keys with `target < v <= current`. */
  function RollbackPlan(cat: Catalog, vs: seq<string>, toVersion: Option<nat>, st: State, db: Database): seq<string>
    requires IsSortedKeys(vs, cat.Keys, Undo)
  {
    var current := CurrentVersion(st.ledger, db.readable);
    Plan(vs, RollbackTarget(toVersion, current), Finite(current))
  }

  /** `rollback(directory, toVersion)` after the catalog has been read. */
  function Rollback(cat: Catalog, vs: seq<string>, toVersion: Option<nat>, st: State, db: Database): (r: Report)
    requires IsSortedKeys(vs, cat.Keys, Undo)
    ensures st.log <= r.state.log
    ensures r.state.ledger.Keys <= st.ledger.Keys
  {
    var current := CurrentVersion(st.ledger, db.readable);
    var target := RollbackTarget(toVersion, current);
    if target >= current then Report(st, Refused)
    else
      var plan := RollbackPlan(cat, vs, toVersion, st, db);
      assert Runnable(cat, plan) by {
        forall i | 0 <= i < |plan| ensures plan[i] in cat {
          PlanMembers(vs, target, Finite(current), plan[i]);
        }
      }
      ApplyLedger(cat, Undo, plan, st, db.rejected);
      Finish(Apply(cat, Undo, plan, st, db.rejected))
  }

  // ---------------------------------------------------------------------
  // getInfo
  // ---------------------------------------------------------------------

  const Untitled: string := "Untitled"

  datatype PendingMigration = PendingMigration(version: string, title: string)

  datatype Info = Info(currentVersion: nat, currentVersionTitle: Title,
                       latestVersion: Number, pendingMigrations: seq<PendingMigration>)

  /** The `filter` of the pending list: the keys of `vs` above `current`,
      in the order of `vs`. */
  function Above(vs: seq<string>, current: nat): (above: seq<string>)
    requires forall i :: 0 <= i < |vs| ==> IsVersion(vs[i])
    ensures forall i :: 0 <= i < |above| ==> IsVersion(above[i])
    decreases |vs|
  {
    if vs == [] then []
    else
      var init := Above(vs[..|vs| - 1], current);
      var key := vs[|vs| - 1];
      if VersionOf(key) > current then init + [key] else init
  }

  lemma {:induction false} AboveMembers(vs: seq<string>, current: nat, key: string)
    requires forall i :: 0 <= i < |vs| ==> IsVersion(vs[i])
    ensures key in Above(vs, current) <==> key in vs && VersionOf(key) > current
    decreases |vs|
  {
    if vs != [] {
      var init := vs[..|vs| - 1];
      AboveMembers(init, current, key);
      assert vs == init + [vs[|vs| - 1]];
    }
  }

  lemma {:induction false} AboveOrdered(vs: seq<string>, current: nat)
    requires Ordered(vs, Do)
    ensures Ordered(Above(vs, current), Do)
    decreases |vs|
  {
    if vs != [] {
      var n := |vs| - 1;
      var init := vs[..n];
      AboveOrdered(init, current);
      var above := Above(init, current);
      if VersionOf(vs[n]) > current {
        forall i | 0 <= i < |above| ensures above[i] != vs[n] && Rank(above[i], Do) <= Rank(vs[n], Do) {
          AboveMembers(init, current, above[i]);
          var j :| 0 <= j < n && init[j] == above[i];
        }
      }
    }
  }

  /** `migrationFiles[version].title || 'Untitled'`. */
  function DisplayTitle(entry: Entry): string
  {
    var title := TitleOf(entry);
    if title == "" then Untitled else title
  }

  /** The `map` of the pending list. */
  function Titled(cat: Catalog, keys: seq<string>): seq<PendingMigration>
    requires forall i :: 0 <= i < |keys| ==> keys[i] in cat
  {
    seq(|keys|, i requires 0 <= i < |keys| => PendingMigration(keys[i], DisplayTitle(cat[keys[i]])))
  }

  /** The pending list: ascending keys above `current`, with their titles. */
  function PendingOf(cat: Catalog, vs: seq<string>, current: nat): seq<PendingMigration>
    requires forall i :: 0 <= i < |vs| ==> vs[i] in cat && IsVersion(vs[i])
  {
    var keys := Above(vs, current);
    assert forall i :: 0 <= i < |keys| ==> keys[i] in cat by {
      forall i | 0 <= i < |keys| ensures keys[i] in cat {
        AboveMembers(vs, current, keys[i]);
      }
    }
    Titled(cat, keys)
  }

  /** `getInfo(directory)` after the catalog has been read. */
  function GetInfo(cat: Catalog, vs: seq<string>, ledger: Ledger, readable: bool): Info
    requires IsSortedKeys(vs, cat.Keys, Do)
  {
    var info := CurrentVersionInfo(ledger, readable);
    Info(info.version, info.title, LatestVersion(cat.Keys), PendingOf(cat, vs, info.version))
  }

  /** The pending list is the filtered keys, each with its display title. */
  lemma PendingEntries(cat: Catalog, vs: seq<string>, current: nat)
    requires forall i :: 0 <= i < |vs| ==> vs[i] in cat && IsVersion(vs[i])
    ensures var keys := Above(vs, current);
      var pending := PendingOf(cat, vs, current);
      |pending| == |keys| &&
      forall i :: 0 <= i < |keys| ==> keys[i] in cat && pending[i] == PendingMigration(keys[i], DisplayTitle(cat[keys[i]]))
  {
    var keys := Above(vs, current);
    forall i | 0 <= i < |keys| ensures keys[i] in cat {
      AboveMembers(vs, current, keys[i]);
    }
  }

  /** Every pending migration is a catalog version above current, shown
      with its entry's title or "Untitled"; every catalog version above
      current is pending. */
  lemma PendingExact(cat: Catalog, vs: seq<string>, current: nat)
    requires IsSortedKeys(vs, cat.Keys, Do)
    ensures var pending := PendingOf(cat, vs, current);
      (forall i :: 0 <= i < |pending| ==>
         pending[i].version in cat && IsVersion(pending[i].version) && VersionOf(pending[i].version) > current &&
         pending[i].title == DisplayTitle(cat[pending[i].version])) &&
      (forall k :: k in cat && IsVersion(k) && VersionOf(k) > current ==>
         exists i :: 0 <= i < |pending| && pending[i].version == k)
  {
    var keys := Above(vs, current);
    var pending := PendingOf(cat, vs, current);
    PendingEntries(cat, vs, current);
    forall i | 0 <= i < |pending| ensures VersionOf(pending[i].version) > current {
      AboveMembers(vs, current, keys[i]);
    }
    forall k | k in cat && IsVersion(k) && VersionOf(k) > current
      ensures exists i :: 0 <= i < |pending| && pending[i].version == k
    {
      AboveMembers(vs, current, k);
      var i :| 0 <= i < |keys| && keys[i] == k;
      assert pending[i].version == k;
    }
  }

  /** The pending list is in ascending version order with no key twice,
      strictly ascending when no two keys share a version. */
  lemma PendingAscending(cat: Catalog, vs: seq<string>, current: nat)
    requires IsSortedKeys(vs, cat.Keys, Do)
    ensures var pending := PendingOf(cat, vs, current);
      (forall i :: 0 <= i < |pending| ==> IsVersion(pending[i].version)) &&
      (forall i, j :: 0 <= i < j < |pending| ==>
         pending[i].version != pending[j].version && VersionOf(pending[i].version) <= VersionOf(pending[j].version)) &&
      (DistinctVersions(cat.Keys) ==>
         forall i, j :: 0 <= i < j < |pending| ==> VersionOf(pending[i].version) < VersionOf(pending[j].version))
  {
    var keys := Above(vs, current);
    PendingEntries(cat, vs, current);
    AboveOrdered(vs, current);
    assert Ordered(keys, Do);
  }

  /** Nothing is pending once current has reached every version. */
  lemma NothingAbove(cat: Catalog, vs: seq<string>, current: nat)
    requires forall i :: 0 <= i < |vs| ==> vs[i] in cat && IsVersion(vs[i])
    requires forall i :: 0 <= i < |vs| ==> VersionOf(vs[i]) <= current
    ensures PendingOf(cat, vs, current) == []
  {
    var keys := Above(vs, current);
    if keys != [] {
      AboveMembers(vs, current, keys[0]);
    }
  }

  // ---------------------------------------------------------------------
  // What the commands promise
  // ---------------------------------------------------------------------

  /** `migrate` refuses a target below current (an empty catalog without
      `--to` always: its maximum is `-Infinity`), does nothing for a target
      equal to current, and otherwise runs its plan. */
  lemma MigrateDecision(cat: Catalog, vs: seq<string>, toVersion: Option<nat>, st: State, db: Database)
    requires IsSortedKeys(vs, cat.Keys, Do)
    ensures var current := CurrentVersion(st.ledger, db.readable);
      var target := MigrateTarget(toVersion, cat.Keys);
      var r := Migrate(cat, vs, toVersion, st, db);
      var plan := MigratePlan(cat, vs, toVersion, st, db);
      (r.outcome == Refused <==> LessThan(target, current)) &&
      (r.outcome == UpToDate <==> StrictEquals(target, current)) &&
      (cat == map[] && toVersion.None? ==> r == Report(st, Refused)) &&
      (r.outcome == Refused || r.outcome == UpToDate ==> r.state == st) &&
      Runnable(cat, plan) &&
      (r.outcome != Refused && r.outcome != UpToDate ==> r == Finish(Apply(cat, Do, plan, st, db.rejected)))
  {
    var current := CurrentVersion(st.ledger, db.readable);
    PlanSelects(cat, vs, Do, current, MigrateTarget(toVersion, cat.Keys));
  }

  /** The versions `migrate` runs: exactly the catalog keys whose version
      lies in (current, target], ascending (strictly, when no two keys share
      a version). */
  lemma MigrateSelects(cat: Catalog, vs: seq<string>, toVersion: Option<nat>, st: State, db: Database)
    requires IsSortedKeys(vs, cat.Keys, Do)
    ensures var current := CurrentVersion(st.ledger, db.readable);
      var target := MigrateTarget(toVersion, cat.Keys);
      var plan := MigratePlan(cat, vs, toVersion, st, db);
      Runnable(cat, plan) &&
      (forall k :: k in plan <==> k in cat && IsVersion(k) && current < VersionOf(k) && AtMost(VersionOf(k), target)) &&
      (forall i, j :: 0 <= i < j < |plan| ==> plan[i] != plan[j] && VersionOf(plan[i]) <= VersionOf(plan[j])) &&
      (DistinctVersions(cat.Keys) ==> forall i, j :: 0 <= i < j < |plan| ==> VersionOf(plan[i]) < VersionOf(plan[j]))
  {
    var current := CurrentVersion(st.ledger, db.readable);
    PlanSelects(cat, vs, Do, current, MigrateTarget(toVersion, cat.Keys));
  }

  /** A `migrate` that ran to its end executed the do file of every planned
      version in order, and appended one row per planned version, none of
      which had a row before, with its entry's title; older rows are kept. */
  lemma MigrateFinished(cat: Catalog, vs: seq<string>, toVersion: Option<nat>, st: State, db: Database)
    requires IsSortedKeys(vs, cat.Keys, Do)
    requires Migrate(cat, vs, toVersion, st, db).outcome == Finished
    ensures var plan := MigratePlan(cat, vs, toVersion, st, db);
      var r := Migrate(cat, vs, toVersion, st, db);
      Runnable(cat, plan) &&
      st.log <= r.state.log && CommittedSteps(cat, Do, plan, r.state.log, |st.log|) &&
      r.state.ledger.Keys == st.ledger.Keys + Versions(plan) &&
      (forall v :: v in st.ledger ==> r.state.ledger[v] == st.ledger[v]) &&
      (forall i :: 0 <= i < |plan| ==>
         VersionOf(plan[i]) !in st.ledger && r.state.ledger[VersionOf(plan[i])] == StoredTitle(TitleOf(cat[plan[i]])))
  {
    MigrateDecision(cat, vs, toVersion, st, db);
    var plan := MigratePlan(cat, vs, toVersion, st, db);
    ApplyLog(cat, Do, plan, st, db.rejected);
    ApplyLedger(cat, Do, plan, st, db.rejected);
    ApplyFresh(cat, plan, st, db.rejected);
    ApplyTitles(cat, plan, st, db.rejected);
  }

  /** A `migrate` that failed stopped at one planned version: the versions
      before it stay applied and recorded, its own row was not written, and
      no later version was attempted. */
  lemma MigrateAborted(cat: Catalog, vs: seq<string>, toVersion: Option<nat>, st: State, db: Database)
    requires IsSortedKeys(vs, cat.Keys, Do)
    requires Migrate(cat, vs, toVersion, st, db).outcome.Aborted?
    ensures var plan := MigratePlan(cat, vs, toVersion, st, db);
      Runnable(cat, plan) &&
      Migrate(cat, vs, toVersion, st, db).state == Apply(cat, Do, plan, st, db.rejected).state &&
      exists k :: FailedAt(cat, Do, plan, st, db.rejected, k)
  {
    MigrateDecision(cat, vs, toVersion, st, db);
    ApplyAborted(cat, Do, MigratePlan(cat, vs, toVersion, st, db), st, db.rejected);
  }

  /** `migrate` fails exactly when it gets past the target checks with a
      plan that is not feasible: a planned key lacks its do file or the
      database rejects it, a planned version already has a row, or two
      planned keys share a version. When the ledger can be read, no planned
      version has a row. */
  lemma MigrateSucceeds(cat: Catalog, vs: seq<string>, toVersion: Option<nat>, st: State, db: Database)
    requires IsSortedKeys(vs, cat.Keys, Do)
    ensures var current := CurrentVersion(st.ledger, db.readable);
      var target := MigrateTarget(toVersion, cat.Keys);
      var plan := MigratePlan(cat, vs, toVersion, st, db);
      Runnable(cat, plan) &&
      (Migrate(cat, vs, toVersion, st, db).outcome.Aborted? <==>
         !LessThan(target, current) && !StrictEquals(target, current) &&
         !Feasible(cat, Do, plan, st.ledger, db.rejected)) &&
      (db.readable ==> forall i :: 0 <= i < |plan| ==> VersionOf(plan[i]) !in st.ledger)
  {
    var current := CurrentVersion(st.ledger, db.readable);
    var plan := MigratePlan(cat, vs, toVersion, st, db);
    MigrateDecision(cat, vs, toVersion, st, db);
    ApplySucceeds(cat, Do, plan, st, db.rejected);
    if db.readable {
      forall i | 0 <= i < |plan| ensures VersionOf(plan[i]) !in st.ledger {
        PlanMembers(vs, current, MigrateTarget(toVersion, cat.Keys), plan[i]);
      }
    }
  }

  /** With a readable ledger, no two keys sharing a version, and every
      version's do file present and accepted, `migrate` does not fail. */
  lemma MigrateCompletes(cat: Catalog, vs: seq<string>, toVersion: Option<nat>, st: State, db: Database)
    requires IsSortedKeys(vs, cat.Keys, Do)
    requires db.readable && DistinctVersions(cat.Keys)
    requires forall k :: k in cat && IsVersion(k) ==> ActionKey(Do) in cat[k] && cat[k][ActionKey(Do)] !in db.rejected
    ensures !Migrate(cat, vs, toVersion, st, db).outcome.Aborted?
  {
    var plan := MigratePlan(cat, vs, toVersion, st, db);
    MigrateSucceeds(cat, vs, toVersion, st, db);
    MigrateSelects(cat, vs, toVersion, st, db);
    assert Feasible(cat, Do, plan, st.ledger, db.rejected);
  }

  /** One catalog key that is not a number makes the default target `NaN`:
      no comparison with it holds, so `migrate` selects nothing and ends
      without an error, whatever is pending. */
  lemma NonNumericKeyStallsMigrate(cat: Catalog, vs: seq<string>, st: State, db: Database, key: string)
    requires IsSortedKeys(vs, cat.Keys, Do)
    requires key in cat && !IsVersion(key)
    ensures Migrate(cat, vs, None, st, db) == Report(st, Finished)
  {
    PlanNaN(vs, CurrentVersion(st.ledger, db.readable));
  }

  /** A finished `migrate` without `--to` has recorded the latest version. */
  lemma FinishedRecordsLatest(cat: Catalog, vs: seq<string>, st: State, db: Database, latest: string)
    requires IsSortedKeys(vs, cat.Keys, Do)
    requires Migrate(cat, vs, None, st, db).outcome == Finished
    requires latest in cat && IsVersion(latest) && LatestVersion(cat.Keys) == Finite(VersionOf(latest))
    ensures VersionOf(latest) in Migrate(cat, vs, None, st, db).state.ledger
  {
    var plan := MigratePlan(cat, vs, None, st, db);
    MigrateFinished(cat, vs, None, st, db);
    PlanMembers(vs, CurrentVersion(st.ledger, db.readable), Finite(VersionOf(latest)), latest);
    var i :| 0 <= i < |plan| && plan[i] == latest;
    assert VersionOf(latest) in Versions(plan);
  }

  /** After `migrate` without `--to` over a non-empty catalog of version
      keys, unless a step failed, current is at least the latest version. */
  lemma MigrateReachesLatest(cat: Catalog, vs: seq<string>, st: State, db: Database)
    requires IsSortedKeys(vs, cat.Keys, Do)
    requires db.readable && cat != map[]
    requires forall k :: k in cat ==> IsVersion(k)
    requires !Migrate(cat, vs, None, st, db).outcome.Aborted?
    ensures LatestVersion(cat.Keys).Finite?
    ensures LatestVersion(cat.Keys).n <= CurrentVersion(Migrate(cat, vs, None, st, db).state.ledger, true)
  {
    var latest := LatestVersion(cat.Keys);
    MigrateDecision(cat, vs, None, st, db);
    if Migrate(cat, vs, None, st, db).outcome == Finished {
      var w :| w in cat && VersionOf(w) == latest.n;
      FinishedRecordsLatest(cat, vs, st, db, w);
    }
  }

  /** After `migrate` without `--to` over a catalog of version keys, unless
      a step failed, `getInfo` lists nothing pending. */
  lemma MigrateLeavesNothingPending(cat: Catalog, vs: seq<string>, st: State, db: Database)
    requires IsSortedKeys(vs, cat.Keys, Do)
    requires db.readable
    requires forall k :: k in cat ==> IsVersion(k)
    requires !Migrate(cat, vs, None, st, db).outcome.Aborted?
    ensures PendingOf(cat, vs, CurrentVersion(Migrate(cat, vs, None, st, db).state.ledger, true)) == []
  {
    var now := CurrentVersion(Migrate(cat, vs, None, st, db).state.ledger, true);
    if cat != map[] {
      MigrateReachesLatest(cat, vs, st, db);
      NothingAbove(cat, vs, now);
    }
  }

  /** `rollback` refuses a target that is not below current, and otherwise
      runs its plan; without `--to` the target is current - 1. */
  lemma RollbackDecision(cat: Catalog, vs: seq<string>, toVersion: Option<nat>, st: State, db: Database)
    requires IsSortedKeys(vs, cat.Keys, Undo)
    ensures var current := CurrentVersion(st.ledger, db.readable);
      var target := RollbackTarget(toVersion, current);
      var r := Rollback(cat, vs, toVersion, st, db);
      var plan := RollbackPlan(cat, vs, toVersion, st, db);
      (toVersion.None? ==> target == current - 1) &&
      (r.outcome == Refused <==> target >= current) &&
      (r.outcome == Refused ==> r.state == st) &&
      r.outcome != UpToDate &&
      Runnable(cat, plan) &&
      (r.outcome != Refused ==> r == Finish(Apply(cat, Undo, plan, st, db.rejected)))
  {
    var current := CurrentVersion(st.ledger, db.readable);
    PlanSelects(cat, vs, Undo, RollbackTarget(toVersion, current), Finite(current));
  }

  /** The versions `rollback` undoes: exactly the catalog keys whose
      version lies in (target, current], descending (strictly, when no two
      keys share a version). */
  lemma RollbackSelects(cat: Catalog, vs: seq<string>, toVersion: Option<nat>, st: State, db: Database)
    requires IsSortedKeys(vs, cat.Keys, Undo)
    ensures var current := CurrentVersion(st.ledger, db.readable);
      var target := RollbackTarget(toVersion, current);
      var plan := RollbackPlan(cat, vs, toVersion, st, db);
      Runnable(cat, plan) &&
      (forall k :: k in plan <==> k in cat && IsVersion(k) && target < VersionOf(k) <= current) &&
      (forall i, j :: 0 <= i < j < |plan| ==> plan[i] != plan[j] && VersionOf(plan[i]) >= VersionOf(plan[j])) &&
      (DistinctVersions(cat.Keys) ==> forall i, j :: 0 <= i < j < |plan| ==> VersionOf(plan[i]) > VersionOf(plan[j]))
  {
    var current := CurrentVersion(st.ledger, db.readable);
    PlanSelects(cat, vs, Undo, RollbackTarget(toVersion, current), Finite(current));
  }

  /** Without `--to`, `rollback` undoes exactly the catalog keys of the
      current version. */
  lemma RollbackDefaultUndoesCurrent(cat: Catalog, vs: seq<string>, st: State, db: Database)
    requires IsSortedKeys(vs, cat.Keys, Undo)
    ensures var current := CurrentVersion(st.ledger, db.readable);
      var plan := RollbackPlan(cat, vs, None, st, db);
      Runnable(cat, plan) &&
      forall k :: k in plan <==> k in cat && IsVersion(k) && VersionOf(k) == current
  {
    RollbackSelects(cat, vs, None, st, db);
  }

  /** A `rollback` that ran to its end executed the undo file of every
      planned version in order and deleted exactly their rows; the other
      rows are kept as they were. */
  lemma RollbackFinished(cat: Catalog, vs: seq<string>, toVersion: Option<nat>, st: State, db: Database)
    requires IsSortedKeys(vs, cat.Keys, Undo)
    requires Rollback(cat, vs, toVersion, st, db).outcome == Finished
    ensures var plan := RollbackPlan(cat, vs, toVersion, st, db);
      var r := Rollback(cat, vs, toVersion, st, db);
      Runnable(cat, plan) &&
      st.log <= r.state.log && CommittedSteps(cat, Undo, plan, r.state.log, |st.log|) &&
      r.state.ledger.Keys == st.ledger.Keys - Versions(plan) &&
      (forall v :: v in r.state.ledger ==> r.state.ledger[v] == st.ledger[v])
  {
    RollbackDecision(cat, vs, toVersion, st, db);
    var plan := RollbackPlan(cat, vs, toVersion, st, db);
    ApplyLog(cat, Undo, plan, st, db.rejected);
    ApplyLedger(cat, Undo, plan, st, db.rejected);
  }

  /** A `rollback` that failed stopped at one planned version: the versions
      before it stay undone and deleted, its own row was kept, and no later
      version was attempted. */
  lemma RollbackAborted(cat: Catalog, vs: seq<string>, toVersion: Option<nat>, st: State, db: Database)
    requires IsSortedKeys(vs, cat.Keys, Undo)
    requires Rollback(cat, vs, toVersion, st, db).outcome.Aborted?
    ensures var plan := RollbackPlan(cat, vs, toVersion, st, db);
      Runnable(cat, plan) &&
      Rollback(cat, vs, toVersion, st, db).state == Apply(cat, Undo, plan, st, db.rejected).state &&
      exists k :: FailedAt(cat, Undo, plan, st, db.rejected, k)
  {
    RollbackDecision(cat, vs, toVersion, st, db);
    ApplyAborted(cat, Undo, RollbackPlan(cat, vs, toVersion, st, db), st, db.rejected);
  }

  /** `rollback` fails exactly when its target is below current and some
      planned key lacks its undo file or the database rejects it. */
  lemma RollbackSucceeds(cat: Catalog, vs: seq<string>, toVersion: Option<nat>, st: State, db: Database)
    requires IsSortedKeys(vs, cat.Keys, Undo)
    ensures var current := CurrentVersion(st.ledger, db.readable);
      var plan := RollbackPlan(cat, vs, toVersion, st, db);
      Runnable(cat, plan) &&
      (Rollback(cat, vs, toVersion, st, db).outcome.Aborted? <==>
         RollbackTarget(toVersion, current) < current && !Feasible(cat, Undo, plan, st.ledger, db.rejected))
  {
    RollbackDecision(cat, vs, toVersion, st, db);
    ApplySucceeds(cat, Undo, RollbackPlan(cat, vs, toVersion, st, db), st, db.rejected);
  }

  /** With every version's undo file present and accepted, `rollback` does
      not fail. */
  lemma RollbackCompletes(cat: Catalog, vs: seq<string>, toVersion: Option<nat>, st: State, db: Database)
    requires IsSortedKeys(vs, cat.Keys, Undo)
    requires forall k :: k in cat && IsVersion(k) ==> ActionKey(Undo) in cat[k] && cat[k][ActionKey(Undo)] !in db.rejected
    ensures !Rollback(cat, vs, toVersion, st, db).outcome.Aborted?
  {
    var plan := RollbackPlan(cat, vs, toVersion, st, db);
    RollbackSucceeds(cat, vs, toVersion, st, db);
    assert Feasible(cat, Undo, plan, st.ledger, db.rejected);
  }

  /** After a finished `migrate --to target`, the new current version is
      the old one when nothing was planned, and otherwise the highest
      planned version, which lies in (current, target]. */
  lemma MigrateNewCurrent(cat: Catalog, vs: seq<string>, target: nat, st: State, db: Database)
    requires IsSortedKeys(vs, cat.Keys, Do)
    requires db.readable
    requires Migrate(cat, vs, Some(target), st, db).outcome == Finished
    ensures var plan := MigratePlan(cat, vs, Some(target), st, db);
      var current := CurrentVersion(st.ledger, true);
      var now := CurrentVersion(Migrate(cat, vs, Some(target), st, db).state.ledger, true);
      Runnable(cat, plan) &&
      (Versions(plan) == {} ==> Migrate(cat, vs, Some(target), st, db).state.ledger == st.ledger) &&
      (Versions(plan) != {} ==> now in Versions(plan) && current < now <= target) &&
      (forall v :: v in Versions(plan) ==> v <= now)
  {
    var plan := MigratePlan(cat, vs, Some(target), st, db);
    var current := CurrentVersion(st.ledger, true);
    var ledger := Migrate(cat, vs, Some(target), st, db).state.ledger;
    var now := CurrentVersion(ledger, true);
    MigrateFinished(cat, vs, Some(target), st, db);
    assert forall v :: v in Versions(plan) ==> v in ledger;
    if Versions(plan) == {} {
      assert ledger.Keys == st.ledger.Keys;
    } else {
      var v := Pick(Versions(plan));
      PlanVersions(cat, vs, Do, current, Finite(target), v);
      assert current < v <= now;
      PlanVersions(cat, vs, Do, current, Finite(target), now);
    }
  }

  /** The rollback range (current, now] and the migrate range
      (current, target] name the same catalog versions when every version
      of the latter is at most `now` and `now` is at most `target`. */
  lemma SameVersions(cat: Catalog, up: seq<string>, down: seq<string>, current: nat, target: nat, now: nat)
    requires IsSortedKeys(up, cat.Keys, Do) && IsSortedKeys(down, cat.Keys, Undo)
    requires now <= target
    requires forall v :: v in Versions(Plan(up, current, Finite(target))) ==> v <= now
    ensures Versions(Plan(down, current, Finite(now))) == Versions(Plan(up, current, Finite(target)))
  {
    forall v ensures v in Versions(Plan(down, current, Finite(now))) <==> v in Versions(Plan(up, current, Finite(target))) {
      PlanVersions(cat, up, Do, current, Finite(target), v);
      PlanVersions(cat, down, Undo, current, Finite(now), v);
    }
  }

  /** Adding rows for fresh versions and then deleting those versions,
      rewriting no row on the way, gives back the ledger. */
  lemma LedgerRestored(before: Ledger, mid: Ledger, after: Ledger, added: set<nat>)
    requires mid.Keys == before.Keys + added && before.Keys !! added
    requires forall v :: v in before ==> mid[v] == before[v]
    requires after.Keys == mid.Keys - added
    requires forall v :: v in after ==> after[v] == mid[v]
    ensures after == before
  {
    assert after.Keys == before.Keys;
  }

  /** `migrate --to target` followed by `rollback --to` the version that was
      current before it gives back the ledger, unless a step failed. */
  lemma MigrateRollbackRoundTrip(cat: Catalog, up: seq<string>, down: seq<string>, target: nat, st: State, db: Database)
    requires IsSortedKeys(up, cat.Keys, Do) && IsSortedKeys(down, cat.Keys, Undo)
    requires db.readable
    ensures var m := Migrate(cat, up, Some(target), st, db);
      var b := Rollback(cat, down, Some(CurrentVersion(st.ledger, true)), m.state, db);
      !m.outcome.Aborted? && !b.outcome.Aborted? ==> b.state.ledger == st.ledger
  {
    var current := CurrentVersion(st.ledger, true);
    var m := Migrate(cat, up, Some(target), st, db);
    var b := Rollback(cat, down, Some(current), m.state, db);
    MigrateDecision(cat, up, Some(target), st, db);
    RollbackDecision(cat, down, Some(current), m.state, db);
    if m.outcome == Finished && !b.outcome.Aborted? {
      var plan := MigratePlan(cat, up, Some(target), st, db);
      var now := CurrentVersion(m.state.ledger, true);
      MigrateFinished(cat, up, Some(target), st, db);
      MigrateNewCurrent(cat, up, target, st, db);
      if Versions(plan) != {} {
        SameVersions(cat, up, down, current, target, now);
        RollbackFinished(cat, down, Some(current), m.state, db);
        assert st.ledger.Keys !! Versions(plan);
        LedgerRestored(st.ledger, m.state.ledger, b.state.ledger, Versions(plan));
      }
    }
  }
}
