/**
 * What one `apply(action, version, options)` does, stated as a function from
 * the store before it to the store after it, the bodies it invoked, and the
 * outcome ('success' or the error it throws). The class in module Engine runs
 * the same steps in place and is proved to agree with these functions.
 */
module Semantics {
  import opened Wrappers
  import opened Errors
  import Seqs
  import Semver
  import Catalog
  import opened Ledger

  /** The closed set of actions; any other word names a migration. */
  datatype Action = Up | Down | Reset | Repeat | Named(name: string)

  /** `apply`'s dispatch on its `action` argument. */
  function ParseAction(s: string): (a: Action)
    ensures a == Reset <==> s == "reset"
    ensures a == Up <==> s == "up"
    ensures a == Repeat <==> s == "repeat"
    ensures a == Down <==> s == "down"
    ensures a.Named? <==> s != "reset" && s != "up" && s != "repeat" && s != "down"
    ensures a.Named? ==> a.name == s
  {
    if s == "reset" then Reset
    else if s == "up" || s == "repeat" then (if s == "up" then Up else Repeat)
    else if s == "down" then Down
    else Named(s)
  }

  /** One invocation of a migration body: `migration[body](db, this, options)`. */
  datatype Call = Call(body: Action, version: string)

  /** Where an operation leaves the store, what it returned or threw, and which bodies ran. */
  datatype Run = Run(store: Store, result: Result<(), Error>, calls: seq<Call>)

  /** Bodies that ran before `run` are listed before its own. */
  function After(calls: seq<Call>, run: Run): (r: Run)
    ensures r.store == run.store && r.result == run.result && r.calls == calls + run.calls
  {
    run.(calls := calls + run.calls)
  }

  /** Listing bodies in two steps is listing them at once. */
  lemma AfterAfter(first: seq<Call>, second: seq<Call>, run: Run)
    ensures After(first, After(second, run)) == After(first + second, run)
  {
    assert first + (second + run.calls) == (first + second) + run.calls;
  }

  /** `updateTable(migration, action, v, status)`: an `up` (or `reset`) writes the ledger record
      by create, a `repeat` by update, any other action writes none; the schema is saved either way. */
  function UpdateTable(st: Store, m: Catalog.Migration, action: Action, v: string, status: string): (r: Store)
    ensures r.saved == Some(m.schema)
    ensures action in {Up, Reset, Repeat} ==>
      r.ledger == Without(st.ledger, v) + [Entry(v, st.clock, m.path, m.description, status)] &&
      r.clock == st.clock + 1
    ensures action !in {Up, Reset, Repeat} ==> r.ledger == st.ledger && r.clock == st.clock
  {
    var written :=
      if action == Up || action == Reset then Put(st, v, m.path, m.description, status)
      else if action == Repeat then Put(st, v, m.path, m.description, status)
      else st;
    written.(saved := Some(m.schema))
  }

  /** `invokeMigration(body, v, options)`. */
  function Invoke(catalog: seq<Catalog.Descriptor>, st: Store, body: Action, v: string, dry: bool): (r: Run)
    requires body == Up || body == Down
    // a load failure runs nothing and writes nothing
    ensures Catalog.LoadMigration(catalog, v).Err? ==>
      r == Run(st, Err(Catalog.LoadMigration(catalog, v).error), [])
    ensures Catalog.LoadMigration(catalog, v).Ok? ==>
      var m := Catalog.LoadMigration(catalog, v).value;
      var outcome := if body == Up then m.up else m.down;
      && r.calls == [Call(body, v)]
      // the body's error is re-thrown unchanged
      && (outcome.Pass? ==> r.result == Ok(()))
      && (outcome.Fail? ==> r.result == Err(BodyFailed(outcome.message)))
      // an `up` records "success" or the error's message under `v`, and saves the schema
      && (!dry && body == Up ==>
            r.store.ledger == Without(st.ledger, v) +
              [Entry(v, st.clock, m.path, m.description, if outcome.Pass? then "success" else outcome.message)] &&
            r.store.saved == Some(m.schema))
      // a `down` records nothing, but saves the schema of the migration it rolled back
      && (!dry && body == Down ==> r.store.ledger == st.ledger && r.store.saved == Some(m.schema))
    // a dry run writes nothing at all
    ensures dry ==> r.store == st
  {
    match Catalog.LoadMigration(catalog, v)
    case Err(e) => Run(st, Err(e), [])
    case Ok(m) =>
      var outcome := if body == Up then m.up else m.down;
      if outcome.Pass? then
        var written := if dry then st else UpdateTable(st, m, body, v, "success");
        Run(written, Ok(()), [Call(body, v)])
      else
        var written := if dry then st else UpdateTable(st, m, body, v, outcome.message);
        Run(written, Err(BodyFailed(outcome.message)), [Call(body, v)])
  }

  predicate AllValid(vs: seq<string>) {
    forall i :: 0 <= i < |vs| ==> Semver.IsValid(vs[i])
  }

  /** The `up`/`repeat` loop over ascending `versions`: skip those below the current version,
      stop after the target, invoke `up` on the rest; the first error ends the loop. */
  function UpScan(catalog: seq<Catalog.Descriptor>, st: Store, vs: seq<string>, cur: string, target: string,
                  dry: bool): Run
    requires AllValid(vs) && Semver.IsValid(cur)
    decreases |vs|
  {
    if vs == [] then Run(st, Ok(()), [])
    else if Semver.Compare(vs[0], cur) < 0 then UpScan(catalog, st, vs[1..], cur, target, dry)
    else if !Semver.IsValid(target) then Run(st, Err(InvalidVersion(target)), [])
    else if Semver.Compare(vs[0], target) > 0 then Run(st, Ok(()), [])
    else
      var step := Invoke(catalog, st, Up, vs[0], dry);
      if step.result.Err? then step
      else After(step.calls, UpScan(catalog, step.store, vs[1..], cur, target, dry))
  }

  /** After a removal the current version is read again and its migration's schema saved;
      a current version the catalog cannot load ends the loop with that error. */
  function RestoreSchema(catalog: seq<Catalog.Descriptor>, st: Store): (r: Result<Store, Error>)
    ensures r.Err? <==> Catalog.LoadMigration(catalog, CurrentVersion(st.ledger)).Err?
    ensures r.Err? ==> r.error == Catalog.LoadMigration(catalog, CurrentVersion(st.ledger)).error
    ensures r.Ok? ==> r.value == st.(saved := Some(Catalog.LoadMigration(catalog, CurrentVersion(st.ledger)).value.schema))
  {
    match Catalog.LoadMigration(catalog, CurrentVersion(st.ledger))
    case Err(e) => Err(e)
    case Ok(m) => Ok(st.(saved := Some(m.schema)))
  }

  /** What a `down` step does after its body returns: unless dry, remove the record the
      snapshot `past` holds for `v`, re-read the current version and save its migration's
      schema. Gives the store and current version the loop goes on with, or the store and
      error it stops with. */
  function Settle(catalog: seq<Catalog.Descriptor>, st: Store, v: string, cur: string, dry: bool,
                  past: seq<Entry>): (r: Result<(Store, string), (Store, Error)>)
    requires Semver.IsValid(cur)
    ensures r.Ok? ==> Semver.IsValid(r.value.1)
    ensures dry ==> r == Ok((st, cur))
    ensures !dry ==>
      var removed := if Recorded(past, v) then Without(st.ledger, v) else st.ledger;
      && (r.Ok? ==> r.value.0.ledger == removed && r.value.0.clock == st.clock &&
                    r.value.1 == CurrentVersion(removed))
      && (r.Err? ==> r.error.0.ledger == removed && r.error.0.clock == st.clock)
  {
    if dry then Ok((st, cur))
    else
      var removed := if Recorded(past, v) then Remove(st, v) else st;
      match RestoreSchema(catalog, removed)
      case Err(e) => Err((removed, e))
      case Ok(restored) => Ok((restored, CurrentVersion(removed.ledger)))
  }

  /** The `down` loop over descending `versions`: skip those above the current version, stop
      below the target, invoke `down` on the rest, then settle the step. */
  function DownScan(catalog: seq<Catalog.Descriptor>, st: Store, vs: seq<string>, cur: string, target: string,
                    dry: bool, past: seq<Entry>): Run
    requires AllValid(vs) && Semver.IsValid(cur)
    decreases |vs|
  {
    if vs == [] then Run(st, Ok(()), [])
    else if Semver.Compare(vs[0], cur) > 0 then DownScan(catalog, st, vs[1..], cur, target, dry, past)
    else if !Semver.IsValid(target) then Run(st, Err(InvalidVersion(target)), [])
    else if Semver.Compare(vs[0], target) < 0 then Run(st, Ok(()), [])
    else
      var step := Invoke(catalog, st, Down, vs[0], dry);
      if step.result.Err? then step
      else
        match Settle(catalog, step.store, vs[0], cur, dry, past)
        case Err((stopped, e)) => Run(stopped, Err(e), step.calls)
        case Ok((next, cur')) => After(step.calls, DownScan(catalog, next, vs[1..], cur', target, dry, past))
  }

  /** The reset loop: one "success" record per version, by plain `Migration.create`. */
  function Rebuild(catalog: seq<Catalog.Descriptor>, st: Store, vs: seq<string>): Run
    decreases |vs|
  {
    if vs == [] then Run(st, Ok(()), [])
    else
      match Catalog.LoadMigration(catalog, vs[0])
      case Err(e) => Run(st, Err(e), [])
      case Ok(m) =>
        match Create(st, m.version, m.path, m.description, "success")
        case Err(e) => Run(st, Err(e), [])
        case Ok(created) => Rebuild(catalog, created, vs[1..])
  }

  /** `apply(action, target, {dry})`; an `Ok` result is its return value 'success'. */
  function Apply(catalog: seq<Catalog.Descriptor>, st: Store, action: Action, target: string, dry: bool): Run
  {
    var versions := Catalog.SemVersions(catalog);
    var cur := CurrentVersion(st.ledger);
    match action
    case Reset =>
      var step := Invoke(catalog, st, Up, "reset", dry);
      if step.result.Err? || dry then step
      else After(step.calls, Rebuild(catalog, step.store.(ledger := []), versions))
    case Up => UpScan(catalog, st, versions, cur, target, dry)
    case Repeat => UpScan(catalog, st, versions, cur, target, dry)
    case Down =>
      assert forall i :: 0 <= i < |versions| ==> Seqs.Reverse(versions)[i] in versions;
      DownScan(catalog, st, Seqs.Reverse(versions), cur, target, dry, PastMigrations(st.ledger))
    case Named(name) => Invoke(catalog, st, Up, name, dry)
  }
}
