/**
 * The `Migrate` object: its catalog, the ledger and saved schema it writes
 * through the table, and the methods that run migrations, each updating that
 * state in place step by step and proved to end where the functions of module
 * Semantics say.
 */
module Engine {
  import opened Wrappers
  import opened Errors
  import Seqs
  import Semver
  import Catalog
  import opened Ledger
  import opened Semantics
  import Laws
  import Properties

  class Migrate {
    /** The in-memory migrations the instance was constructed with. */
    const catalog: seq<Catalog.Descriptor>
    /** The `_Migration` records of the table. */
    var ledger: seq<Entry>
    /** The schema last saved to the table. */
    var saved: Option<string>
    /** Stands for `new Date()`: each record written takes the next value. */
    var clock: nat
    /** The migration bodies invoked so far, in order. */
    ghost var invoked: seq<Call>

    function State(): Store
      reads this
    {
      Store(ledger, saved, clock)
    }

    constructor(catalog: seq<Catalog.Descriptor>, st: Store)
      ensures this.catalog == catalog && State() == st && invoked == []
    {
      this.catalog := catalog;
      ledger := st.ledger;
      saved := st.saved;
      clock := st.clock;
      invoked := [];
    }

    /** `updateTable(migration, action, v, status)`. */
    method UpdateTable(m: Catalog.Migration, action: Action, v: string, status: string)
      modifies this
      ensures State() == Semantics.UpdateTable(old(State()), m, action, v, status)
      ensures invoked == old(invoked)
    {
      if action == Up || action == Reset {
        // Migration.create(properties, {exists: null})
        ledger := Without(ledger, v) + [Entry(v, clock, m.path, m.description, status)];
        clock := clock + 1;
      } else if action == Repeat {
        // Migration.update(properties, {exists: null})
        ledger := Without(ledger, v) + [Entry(v, clock, m.path, m.description, status)];
        clock := clock + 1;
      }
      saved := Some(m.schema);
    }

    /** `invokeMigration(body, v, {dry})`: load, run the body, record the outcome unless dry,
        and re-throw the body's error. */
    method InvokeMigration(body: Action, v: string, dry: bool) returns (result: Result<(), Error>)
      requires body == Up || body == Down
      modifies this
      ensures var run := Invoke(catalog, old(State()), body, v, dry);
        State() == run.store && result == run.result && invoked == old(invoked) + run.calls
    {
      var loaded := Catalog.LoadMigration(catalog, v);
      if loaded.Err? {
        return Err(loaded.error);
      }
      var m := loaded.value;
      var outcome := if body == Up then m.up else m.down;
      invoked := invoked + [Call(body, v)];
      if outcome.Pass? {
        if !dry {
          UpdateTable(m, body, v, "success");
        }
        result := Ok(());
      } else {
        if !dry {
          UpdateTable(m, body, v, outcome.message);
        }
        result := Err(BodyFailed(outcome.message));
      }
    }

    /** `Migration.create(properties)` without options: refuses a version already recorded. */
    method CreateEntry(version: string, path: string, description: string, status: string)
      returns (result: Result<(), Error>)
      modifies this
      ensures var created := Create(old(State()), version, path, description, status);
        && (created.Err? ==> State() == old(State()) && result == Err(created.error))
        && (created.Ok? ==> State() == created.value && result == Ok(()))
      ensures invoked == old(invoked)
    {
      if Recorded(ledger, version) {
        return Err(DuplicateEntry(version));
      }
      ledger := ledger + [Entry(version, clock, path, description, status)];
      clock := clock + 1;
      result := Ok(());
    }

    /** `apply(action, target, {dry})`: "reset", "up", "repeat" and "down" name the loops, any
        other word a single migration. */
    method Apply(action: string, target: string, dry: bool) returns (result: Result<(), Error>)
      modifies this
      ensures var run := Semantics.Apply(catalog, old(State()), ParseAction(action), target, dry);
        State() == run.store && result == run.result && invoked == old(invoked) + run.calls
    {
      Laws.VersionsInScanOrder(catalog);
      var versions := Catalog.SemVersions(catalog);
      var current := CurrentVersion(ledger);
      match ParseAction(action) {
        case Reset =>
          ghost var step := Invoke(catalog, State(), Up, "reset", dry);
          result := InvokeMigration(Up, "reset", dry);
          if result.Err? || dry {
            return;
          }
          ghost var rebuilt := Rebuild(catalog, State().(ledger := []), versions);
          result := RebuildLedger(versions);
          Seqs.AppendAssoc(old(invoked), step.calls, rebuilt.calls);
        case Up =>
          result := RunUp(versions, current, target, dry);
        case Repeat =>
          result := RunUp(versions, current, target, dry);
        case Down =>
          result := RunDown(Seqs.Reverse(versions), current, target, dry, PastMigrations(ledger));
        case Named(name) =>
          result := InvokeMigration(Up, name, dry);
      }
    }

    /** The reset loop: clear the ledger, then create one "success" record per version. */
    method RebuildLedger(versions: seq<string>) returns (result: Result<(), Error>)
      modifies this
      ensures var run := Rebuild(catalog, old(State()).(ledger := []), versions);
        State() == run.store && result == run.result && invoked == old(invoked) + run.calls
    {
      // Migration.remove({}, {many: true})
      ledger := [];
      ghost var start := State();
      var i := 0;
      while i < |versions|
        invariant 0 <= i <= |versions|
        invariant Rebuild(catalog, start, versions) == Rebuild(catalog, State(), versions[i..])
        invariant invoked == old(invoked)
      {
        assert versions[i..][1..] == versions[i + 1..];
        var loaded := Catalog.LoadMigration(catalog, versions[i]);
        if loaded.Err? {
          return Err(loaded.error);
        }
        var m := loaded.value;
        result := CreateEntry(m.version, m.path, m.description, "success");
        if result.Err? {
          return;
        }
        i := i + 1;
      }
      result := Ok(());
    }

    /** The `up` and `repeat` loop over ascending versions. */
    method RunUp(versions: seq<string>, current: string, target: string, dry: bool) returns (result: Result<(), Error>)
      requires AllValid(versions) && Semver.IsValid(current)
      modifies this
      ensures var run := UpScan(catalog, old(State()), versions, current, target, dry);
        State() == run.store && result == run.result && invoked == old(invoked) + run.calls
    {
      ghost var start := State();
      ghost var done: seq<Call> := [];
      var rest := versions;
      while rest != []
        invariant AllValid(rest)
        invariant invoked == old(invoked) + done
        invariant UpScan(catalog, start, versions, current, target, dry) ==
                  After(done, UpScan(catalog, State(), rest, current, target, dry))
        decreases |rest|
      {
        var go: bool;
        ghost var calls: seq<Call>;
        go, result, calls := UpStep(rest, current, target, dry);
        Seqs.AppendAssoc(old(invoked), done, calls);
        AfterAfter(done, calls, UpScan(catalog, State(), rest[1..], current, target, dry));
        done := done + calls;
        if !go {
          return;
        }
        rest := rest[1..];
      }
      result := Ok(());
    }

    /** One pass of the `up` loop over the head of `vs`: skip it, stop, or invoke its `up`.
        `go` says whether the loop goes on with the rest of `vs`. */
    method UpStep(vs: seq<string>, current: string, target: string, dry: bool)
      returns (go: bool, result: Result<(), Error>, ghost calls: seq<Call>)
      requires vs != [] && AllValid(vs) && Semver.IsValid(current)
      modifies this
      ensures invoked == old(invoked) + calls
      ensures var run := UpScan(catalog, old(State()), vs, current, target, dry);
        && (go ==> run == After(calls, UpScan(catalog, State(), vs[1..], current, target, dry)))
        && (!go ==> run == Run(State(), result, calls))
    {
      var v := vs[0];
      if Semver.Compare(v, current) < 0 {
        Properties.UpSkip(catalog, State(), vs, current, target, dry);
        return true, Ok(()), [];
      }
      if !Semver.IsValid(target) {
        return false, Err(InvalidVersion(target)), [];
      }
      if Semver.Compare(v, target) > 0 {
        return false, Ok(()), [];
      }
      Properties.UpInvoke(catalog, State(), vs, current, target, dry);
      calls := Invoke(catalog, State(), Up, v, dry).calls;
      result := InvokeMigration(Up, v, dry);
      go := result.Ok?;
    }

    /** What a `down` step does after its body returns: unless dry, remove the record the
        snapshot `past` holds for `v`, re-read the current version and save its schema. */
    method SettleStep(v: string, cur: string, dry: bool, past: seq<Entry>) returns (next: Result<string, Error>)
      requires Semver.IsValid(cur)
      modifies this
      ensures var settled := Settle(catalog, old(State()), v, cur, dry, past);
        && (settled.Ok? ==> next == Ok(settled.value.1) && State() == settled.value.0)
        && (settled.Err? ==> next == Err(settled.error.1) && State() == settled.error.0)
      ensures invoked == old(invoked)
    {
      if dry {
        return Ok(cur);
      }
      Properties.SettleSteps(catalog, State(), v, cur, past);
      if Recorded(past, v) {
        RemoveRecord(v);
      }
      var now := CurrentVersion(ledger);
      var restored := RestoreSavedSchema();
      if restored.Err? {
        return Err(restored.error);
      }
      next := Ok(now);
    }

    /** `Migration.remove(migration)`: drops the record keyed by `v`. */
    method RemoveRecord(v: string)
      modifies this
      ensures State() == Remove(old(State()), v) && invoked == old(invoked)
    {
      ledger := Without(ledger, v);
    }

    /** Reads the current version again and saves the schema of its migration. */
    method RestoreSavedSchema() returns (result: Result<(), Error>)
      modifies this
      ensures var restored := RestoreSchema(catalog, old(State()));
        && (restored.Err? ==> State() == old(State()) && result == Err(restored.error))
        && (restored.Ok? ==> State() == restored.value && result == Ok(()))
      ensures invoked == old(invoked)
    {
      var loaded := Catalog.LoadMigration(catalog, CurrentVersion(ledger));
      if loaded.Err? {
        return Err(loaded.error);
      }
      saved := Some(loaded.value.schema);
      result := Ok(());
    }

    /** The `down` loop over descending versions. */
    method RunDown(versions: seq<string>, current: string, target: string, dry: bool, past: seq<Entry>)
      returns (result: Result<(), Error>)
      requires AllValid(versions) && Semver.IsValid(current)
      modifies this
      ensures var run := DownScan(catalog, old(State()), versions, current, target, dry, past);
        State() == run.store && result == run.result && invoked == old(invoked) + run.calls
    {
      ghost var start := State();
      ghost var done: seq<Call> := [];
      var cur := current;
      var rest := versions;
      while rest != []
        invariant AllValid(rest) && Semver.IsValid(cur)
        invariant invoked == old(invoked) + done
        invariant DownScan(catalog, start, versions, current, target, dry, past) ==
                  After(done, DownScan(catalog, State(), rest, cur, target, dry, past))
        decreases |rest|
      {
        var go: bool;
        ghost var calls: seq<Call>;
        go, result, calls, cur := DownStep(rest, cur, target, dry, past);
        Seqs.AppendAssoc(old(invoked), done, calls);
        AfterAfter(done, calls, DownScan(catalog, State(), rest[1..], cur, target, dry, past));
        done := done + calls;
        if !go {
          return;
        }
        rest := rest[1..];
      }
      result := Ok(());
    }

    /** One pass of the `down` loop over the head of `vs`: skip it, stop, or invoke its `down`
        and settle. `go` says whether the loop goes on with the rest of `vs` from `next`. */
    method DownStep(vs: seq<string>, cur: string, target: string, dry: bool, past: seq<Entry>)
      returns (go: bool, result: Result<(), Error>, ghost calls: seq<Call>, next: string)
      requires vs != [] && AllValid(vs) && Semver.IsValid(cur)
      modifies this
      ensures Semver.IsValid(next)
      ensures invoked == old(invoked) + calls
      ensures var run := DownScan(catalog, old(State()), vs, cur, target, dry, past);
        && (go ==> run == After(calls, DownScan(catalog, State(), vs[1..], next, target, dry, past)))
        && (!go ==> run == Run(State(), result, calls))
    {
      var v := vs[0];
      next := cur;
      if Semver.Compare(v, cur) > 0 {
        Properties.DownSkip(catalog, State(), vs, cur, target, dry, past);
        return true, Ok(()), [], cur;
      }
      if !Semver.IsValid(target) {
        return false, Err(InvalidVersion(target)), [], cur;
      }
      if Semver.Compare(v, target) < 0 {
        return false, Ok(()), [], cur;
      }
      Properties.DownInvoke(catalog, State(), vs, cur, target, dry, past);
      calls := Invoke(catalog, State(), Down, v, dry).calls;
      result := InvokeMigration(Down, v, dry);
      if result.Err? {
        return false, result, calls, cur;
      }
      var settled := SettleStep(v, cur, dry, past);
      if settled.Err? {
        return false, Err(settled.error), calls, cur;
      }
      return true, Ok(()), calls, settled.value;
    }

    /** `getOutstandingMigrations(limit)`: loads each outstanding version in turn; the first
        version that does not load ends it with that error. Changes nothing. */
    method OutstandingMigrations(limit: int) returns (result: Result<seq<Catalog.Migration>, Error>)
      ensures result == Catalog.LoadAll(catalog, OutstandingVersions(catalog, ledger, limit))
    {
      var vs := OutstandingVersions(catalog, ledger, limit);
      result := LoadMigrations(vs);
    }

    /** The loop of `getOutstandingMigrations`: `loadMigration` on each version, in order. */
    method LoadMigrations(vs: seq<string>) returns (result: Result<seq<Catalog.Migration>, Error>)
      ensures result == Catalog.LoadAll(catalog, vs)
    {
      var migrations: seq<Catalog.Migration> := [];
      var i := 0;
      assert vs[0..] == vs;
      assert Catalog.LoadAll(catalog, vs).Ok? ==> [] + Catalog.LoadAll(catalog, vs).value == Catalog.LoadAll(catalog, vs).value;
      while i < |vs|
        invariant 0 <= i <= |vs|
        invariant Catalog.LoadAll(catalog, vs) == Catalog.Prefixed(migrations, Catalog.LoadAll(catalog, vs[i..]))
      {
        assert vs[i..][1..] == vs[i + 1..];
        var loaded := Catalog.LoadMigration(catalog, vs[i]);
        assert vs[i..][0] == vs[i];
        if loaded.Err? {
          return Err(loaded.error);
        }
        Catalog.PrefixedAppend(migrations, loaded.value, Catalog.LoadAll(catalog, vs[i + 1..]));
        migrations := migrations + [loaded.value];
        i := i + 1;
      }
      assert vs[i..] == [] && migrations + [] == migrations;
      result := Ok(migrations);
    }
  }
}
