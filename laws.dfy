/**
 * What `apply` promises for each action, stated over the catalog and the store
 * it starts from.
 */
module Laws {
  import opened Wrappers
  import opened Errors
  import Seqs
  import Semver
  import Catalog
  import opened Ledger
  import opened Semantics
  import opened Properties

  /** The versions `apply` scans are all valid, ascending, and their reverse descends. */
  lemma VersionsInScanOrder(catalog: seq<Catalog.Descriptor>)
    ensures AllValid(Catalog.SemVersions(catalog))
    ensures AllValid(Seqs.Reverse(Catalog.SemVersions(catalog)))
    ensures Seqs.Sorted(Seqs.Reverse(Catalog.SemVersions(catalog)), Semver.Ge)
    ensures forall v :: v in Seqs.Reverse(Catalog.SemVersions(catalog)) <==> v in Catalog.SemVersions(catalog)
  {
    var vs := Catalog.SemVersions(catalog);
    assert forall i :: 0 <= i < |vs| ==> vs[i] in vs;
    Seqs.ReverseSorted(vs, Semver.Le, Semver.Ge);
    Seqs.ReverseMembers(vs);
    var rs := Seqs.Reverse(vs);
    assert forall i :: 0 <= i < |rs| ==> rs[i] in rs;
  }

  /** `apply(..., {dry: true})` never writes the ledger or the saved schema, whatever the action. */
  lemma DryRunWritesNothing(catalog: seq<Catalog.Descriptor>, st: Store, action: Action, target: string)
    ensures Apply(catalog, st, action, target, true).store == st
  {
    VersionsInScanOrder(catalog);
    var vs := Catalog.SemVersions(catalog);
    var cur := CurrentVersion(st.ledger);
    match action
    case Up => UpDryWritesNothing(catalog, st, vs, cur, target);
    case Repeat => UpDryWritesNothing(catalog, st, vs, cur, target);
    case Down => DownDryWritesNothing(catalog, st, Seqs.Reverse(vs), cur, target, PastMigrations(st.ledger));
    case Reset =>
    case Named(_) =>
  }

  /** `up` (and `repeat`) invokes `up` on the catalog's versions from the current version to the
      target inclusive, in ascending order, stopping at the first failure; with nothing in that
      range it returns 'success' and writes nothing. */
  lemma UpRunsFromCurrentToTarget(catalog: seq<Catalog.Descriptor>, st: Store, action: Action, target: string,
                                  dry: bool)
    requires action == Up || action == Repeat
    requires Semver.IsValid(target)
    ensures var r := Apply(catalog, st, action, target, dry);
      var plan := Plan(Catalog.SemVersions(catalog), CurrentVersion(st.ledger), target);
      && r.calls <= Calls(Up, plan)
      && (r.result.Ok? ==> r.calls == Calls(Up, plan))
      && (plan == [] ==> r == Run(st, Ok(()), []))
      && StopsAtFirstFailure(catalog, Up, plan, r)
  {
    VersionsInScanOrder(catalog);
    UpFollowsPlan(catalog, st, Catalog.SemVersions(catalog), CurrentVersion(st.ledger), target, dry);
    UpStopsAtFirstFailure(catalog, st, Catalog.SemVersions(catalog), CurrentVersion(st.ledger), target, dry);
  }

  /** A successful `up` leaves a "success" record for every version it was to apply. */
  lemma UpRecordsSuccess(catalog: seq<Catalog.Descriptor>, st: Store, action: Action, target: string)
    requires action == Up || action == Repeat
    requires Semver.IsValid(target)
    ensures var r := Apply(catalog, st, action, target, false);
      r.result.Ok? ==>
        forall v :: (v in Catalog.SemVersions(catalog) && Semver.Le(CurrentVersion(st.ledger), v) &&
                     Semver.Le(v, target)) ==> Succeeded(r.store.ledger, v)
  {
    VersionsInScanOrder(catalog);
    UpRecordsPlan(catalog, st, Catalog.SemVersions(catalog), CurrentVersion(st.ledger), target);
  }

  /** The current version is applied again: `up` skips only versions below it. */
  lemma UpRerunsCurrent(catalog: seq<Catalog.Descriptor>, st: Store, action: Action, target: string, dry: bool)
    requires action == Up || action == Repeat
    requires CurrentVersion(st.ledger) in Catalog.Versions(catalog)
    requires Semver.Le(CurrentVersion(st.ledger), target)
    ensures var r := Apply(catalog, st, action, target, dry);
      r.result.Ok? ==> Call(Up, CurrentVersion(st.ledger)) in r.calls
  {
    var cur := CurrentVersion(st.ledger);
    UpRunsFromCurrentToTarget(catalog, st, action, target, dry);
    Semver.CompareFlip(cur, cur);
    var plan := Plan(Catalog.SemVersions(catalog), cur, target);
    var i :| 0 <= i < |plan| && plan[i] == cur;
    assert Calls(Up, plan)[i] == Call(Up, cur);
  }

  /** `up` to a valid target below the current version is a silent no-op, not an error. */
  lemma UpToOlderTargetDoesNothing(catalog: seq<Catalog.Descriptor>, st: Store, action: Action, target: string,
                                   dry: bool)
    requires action == Up || action == Repeat
    requires Semver.IsValid(target) && Semver.Compare(target, CurrentVersion(st.ledger)) < 0
    ensures Apply(catalog, st, action, target, dry) == Run(st, Ok(()), [])
  {
    var cur := CurrentVersion(st.ledger);
    var vs := Catalog.SemVersions(catalog);
    forall v | v in vs ensures !(Semver.Le(cur, v) && Semver.Le(v, target)) {
      if Semver.Le(cur, v) && Semver.Le(v, target) {
        Semver.CompareTrans(cur, v, target);
        Semver.CompareFlip(cur, target);
      }
    }
    PlanEmpty(vs, cur, target);
    UpRunsFromCurrentToTarget(catalog, st, action, target, dry);
  }

  /** A dry `down` invokes `down` on the catalog's versions from the current version down to
      the target inclusive, in descending order, stopping at the first failure. */
  lemma DryDownRunsFromCurrentToTarget(catalog: seq<Catalog.Descriptor>, st: Store, target: string)
    requires Semver.IsValid(target)
    ensures var r := Apply(catalog, st, Down, target, true);
      var plan := Plan(Seqs.Reverse(Catalog.SemVersions(catalog)), target, CurrentVersion(st.ledger));
      && r.calls <= Calls(Down, plan)
      && (r.result.Ok? ==> r.calls == Calls(Down, plan))
      && (plan == [] ==> r == Run(st, Ok(()), []))
      && StopsAtFirstFailure(catalog, Down, plan, r)
  {
    VersionsInScanOrder(catalog);
    DryDownFollowsPlan(catalog, st, Seqs.Reverse(Catalog.SemVersions(catalog)), CurrentVersion(st.ledger),
                       target, PastMigrations(st.ledger));
    DryDownStopsAtFirstFailure(catalog, st, Seqs.Reverse(Catalog.SemVersions(catalog)), CurrentVersion(st.ledger),
                               target, PastMigrations(st.ledger));
  }

  /** A `down` invokes only `down`, only on catalog versions between the target and the current
      version, in descending order. Unless dry it never adds or rewrites a record, and when it
      succeeds the records left are exactly those of the versions it did not roll back. */
  lemma DownRollsBack(catalog: seq<Catalog.Descriptor>, st: Store, target: string, dry: bool)
    ensures var r := Apply(catalog, st, Down, target, dry);
      && DownsWithin(r.calls, Catalog.SemVersions(catalog), target)
      && Descending(r.calls)
      && (forall i :: 0 <= i < |r.calls| ==> Semver.Le(r.calls[i].version, CurrentVersion(st.ledger)))
      && (!dry ==> forall e :: e in r.store.ledger ==> e in st.ledger)
      && (!dry && r.result.Ok? ==>
            forall e :: e in r.store.ledger <==> e in st.ledger && Call(Down, e.version) !in r.calls)
      && (!dry && r.result.Ok? ==>
            forall v :: v in Catalog.SemVersions(catalog) && Semver.Le(target, v) && Recorded(st.ledger, v) ==>
              Call(Down, v) in r.calls && !Recorded(r.store.ledger, v))
  {
    VersionsInScanOrder(catalog);
    var vs := Catalog.SemVersions(catalog);
    var cur := CurrentVersion(st.ledger);
    var past := PastMigrations(st.ledger);
    var r := DownScan(catalog, st, Seqs.Reverse(vs), cur, target, dry, past);
    assert Apply(catalog, st, Down, target, dry) == r;
    DownStaysInRange(catalog, st, Seqs.Reverse(vs), cur, target, dry, past);
    DownsWithinSameMembers(r.calls, Seqs.Reverse(vs), vs, target);
    if !dry {
      DownRemovesRecords(catalog, st, target);
    }
  }

  /** The ledger half of `DownRollsBack`. */
  lemma DownRemovesRecords(catalog: seq<Catalog.Descriptor>, st: Store, target: string)
    ensures var r := Apply(catalog, st, Down, target, false);
      && (forall e :: e in r.store.ledger ==> e in st.ledger)
      && (r.result.Ok? ==>
            forall e :: e in r.store.ledger <==> e in st.ledger && Call(Down, e.version) !in r.calls)
      && (r.result.Ok? ==>
            forall v :: v in Catalog.SemVersions(catalog) && Semver.Le(target, v) && Recorded(st.ledger, v) ==>
              Call(Down, v) in r.calls && !Recorded(r.store.ledger, v))
  {
    VersionsInScanOrder(catalog);
    var vs := Catalog.SemVersions(catalog);
    var past := PastMigrations(st.ledger);
    var r := DownScan(catalog, st, Seqs.Reverse(vs), CurrentVersion(st.ledger), target, false, past);
    assert Apply(catalog, st, Down, target, false) == r;
    forall w | Recorded(st.ledger, w) ensures Recorded(past, w) {
      RecordedPast(st.ledger, w);
    }
    DownRemovesInvoked(catalog, st, Seqs.Reverse(vs), CurrentVersion(st.ledger), target, past);
    DownReachesRecorded(catalog, st, Seqs.Reverse(vs), target, past);
    if r.result.Ok? {
      InvokedNotRecorded(st.ledger, r.store.ledger, r.calls);
    }
  }

  lemma DownsWithinSameMembers(calls: seq<Call>, vs: seq<string>, ws: seq<string>, lo: string)
    requires forall v :: v in vs <==> v in ws
    requires DownsWithin(calls, vs, lo)
    ensures DownsWithin(calls, ws, lo)
  {
  }

  /** With a target that is not a valid version, `up`, `repeat` and `down` invoke nothing and
      write nothing. */
  lemma InvalidTargetRunsNothing(catalog: seq<Catalog.Descriptor>, st: Store, action: Action, target: string,
                                 dry: bool)
    requires action == Up || action == Repeat || action == Down
    requires !Semver.IsValid(target)
    ensures var r := Apply(catalog, st, action, target, dry);
      r.calls == [] && r.store == st && (r.result.Err? ==> r.result.error == InvalidVersion(target))
  {
    VersionsInScanOrder(catalog);
    var vs := Catalog.SemVersions(catalog);
    var cur := CurrentVersion(st.ledger);
    if action == Down {
      DownInvalidTarget(catalog, st, Seqs.Reverse(vs), cur, target, dry, PastMigrations(st.ledger));
    } else {
      UpInvalidTarget(catalog, st, vs, cur, target, dry);
    }
  }

  /** `reset` invokes the 'reset' migration's `up` and nothing else; when that fails, it throws
      and touches nothing more. Otherwise, unless dry, it replaces the ledger by one "success"
      record per catalog version, ascending, whatever the ledger held before; that fails exactly
      when some version does not load or occurs twice. */
  lemma ResetRebuildsLedger(catalog: seq<Catalog.Descriptor>, st: Store, target: string)
    ensures var step := Invoke(catalog, st, Up, "reset", false);
      var r := Apply(catalog, st, Reset, target, false);
      var vs := Catalog.SemVersions(catalog);
      && (step.result.Err? ==> r == step)
      && (step.result.Ok? ==>
            && r.calls == [Call(Up, "reset")]
            && (r.result.Ok? <==> Loadable(catalog, vs) && Distinct(vs))
            && (r.result.Ok? ==>
                  VersionsOf(r.store.ledger) == vs &&
                  forall i :: 0 <= i < |r.store.ledger| ==> r.store.ledger[i].status == "success"))
  {
    var step := Invoke(catalog, st, Up, "reset", false);
    if step.result.Ok? {
      InvokeShape(catalog, st, Up, "reset", false);
      var cleared := step.store.(ledger := []);
      var vs := Catalog.SemVersions(catalog);
      RebuildSucceedsExactly(catalog, cleared, vs);
      RebuildAppends(catalog, cleared, vs);
      assert VersionsOf([]) == [];
    }
  }

  /** Every action keeps the store well formed: one record per version, dated in ledger order
      before the clock. */
  lemma ApplyKeepsWellFormed(catalog: seq<Catalog.Descriptor>, st: Store, action: Action, target: string,
                             dry: bool)
    requires WellFormed(st)
    ensures WellFormed(Apply(catalog, st, action, target, dry).store)
  {
    VersionsInScanOrder(catalog);
    var vs := Catalog.SemVersions(catalog);
    var cur := CurrentVersion(st.ledger);
    var r := Apply(catalog, st, action, target, dry);
    match action
    case Up =>
      assert r == UpScan(catalog, st, vs, cur, target, dry);
      UpKeepsWellFormed(catalog, st, vs, cur, target, dry);
    case Repeat =>
      assert r == UpScan(catalog, st, vs, cur, target, dry);
      UpKeepsWellFormed(catalog, st, vs, cur, target, dry);
    case Down =>
      var past := PastMigrations(st.ledger);
      assert r == DownScan(catalog, st, Seqs.Reverse(vs), cur, target, dry, past);
      DownKeepsWellFormed(catalog, st, Seqs.Reverse(vs), cur, target, dry, past);
    case Named(name) =>
      assert r == Invoke(catalog, st, Up, name, dry);
      InvokeKeepsWellFormed(catalog, st, Up, name, dry);
    case Reset =>
      InvokeKeepsWellFormed(catalog, st, Up, "reset", dry);
      var step := Invoke(catalog, st, Up, "reset", dry);
      if step.result.Ok? && !dry {
        assert r == After(step.calls, Rebuild(catalog, step.store.(ledger := []), vs));
        RebuildKeepsWellFormed(catalog, step.store.(ledger := []), vs);
      }
  }

  /** `loadMigration` over a catalog of one descriptor. */
  lemma LoadFromOne(d: Catalog.Descriptor, name: string)
    ensures Catalog.LoadMigration([d], name) ==
      if d.version != name then Err(NotFound(name))
      else if d.schema.None? then Err(MissingSchema(name))
      else if name == "" then Err(MissingVersion(name))
      else Ok(Catalog.Migration(name, d.description, "memory", d.schema.value, d.up, d.down))
  {
    assert Catalog.FindIndex([d], name) == if d.version == name then 0 else 1;
  }

  lemma OneVersion(d: Catalog.Descriptor)
    requires Semver.IsValid(d.version)
    ensures Catalog.SemVersions([d]) == [d.version]
    ensures Seqs.Reverse(Catalog.SemVersions([d])) == [d.version]
  {
    var v := d.version;
    var vs := Catalog.SemVersions([d]);
    assert Catalog.Versions([d]) == [v];
    assert Seqs.Filter([v], Semver.IsValid) == [v];
    assert v in multiset(vs);
  }

  lemma CurrentOfOne(e: Entry)
    requires Semver.IsValid(e.version)
    ensures CurrentVersion([e]) == e.version
  {
    assert [e][0].version == e.version;
  }

  lemma WithoutOnlyRecord(e: Entry)
    ensures Without([e], e.version) == []
  {
    assert [e][1..] == [];
  }

  lemma EmptyIsNotAVersion()
    ensures !Semver.IsValid("")
  {
    assert Semver.Split("", '.') == [""];
  }

  /** Rolling back the only recorded version removes its record, then fails: the current version
      is "0.0.0" again, and `loadMigration("0.0.0")` finds nothing unless the catalog holds a
      migration with that version. */
  lemma DownPastLastRecordNeedsZeroMigration(d: Catalog.Descriptor, e: Entry, st: Store, target: string)
    requires Semver.IsValid(d.version) && d.version != Zero && d.schema.Some? && d.down.Pass?
    requires st.ledger == [e] && e.version == d.version
    requires Semver.Le(target, d.version)
    ensures var r := Apply([d], st, Down, target, false);
      r.result == Err(NotFound(Zero)) && r.store.ledger == [] && r.calls == [Call(Down, d.version)]
  {
    var v := d.version;
    OneVersion(d);
    CurrentOfOne(e);
    var cur := CurrentVersion(st.ledger);
    Semver.CompareFlip(v, v);
    Semver.CompareFlip(v, target);
    var past := PastMigrations(st.ledger);
    LoadFromOne(d, v);
    var step := Invoke([d], st, Down, v, false);
    assert step.result == Ok(()) && step.store.ledger == st.ledger && step.calls == [Call(Down, v)];
    SettleLastRecord(d, e, step.store, cur);
    DownInvoke([d], st, [v], cur, target, false, past);
  }

  /** Settling the `down` of the only recorded version empties the ledger and then fails to load
      the migration of "0.0.0". */
  lemma SettleLastRecord(d: Catalog.Descriptor, e: Entry, st: Store, cur: string)
    requires Semver.IsValid(d.version) && d.version != Zero && Semver.IsValid(cur)
    requires st.ledger == [e] && e.version == d.version
    ensures var r := Settle([d], st, d.version, cur, false, PastMigrations([e]));
      r.Err? && r.error.0.ledger == [] && r.error.1 == NotFound(Zero)
  {
    var v := d.version;
    var past := PastMigrations([e]);
    assert [e][0].version == v;
    RecordedPast([e], v);
    EmptyIsNotAVersion();
    LoadFromOne(d, Zero);
    WithoutOnlyRecord(e);
    assert !HasValidVersion(Without(st.ledger, v));
  }
}
