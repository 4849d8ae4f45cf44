/**
 * What `apply` promises, proved about the functions of module Semantics against
 * independent reference definitions: the versions a scan should visit (`Plan`),
 * and the bodies it should invoke for them (`Calls`).
 */
module Properties {
  import opened Wrappers
  import opened Errors
  import Seqs
  import Semver
  import Catalog
  import opened Ledger
  import opened Semantics

  /** The versions of `vs` from `lo` to `hi` inclusive, in the order of `vs`. */
  function Plan(vs: seq<string>, lo: string, hi: string): (r: seq<string>)
    ensures forall v :: v in r <==> v in vs && Semver.Le(lo, v) && Semver.Le(v, hi)
    ensures |r| <= |vs|
  {
    if vs == [] then []
    else (if Semver.Le(lo, vs[0]) && Semver.Le(vs[0], hi) then [vs[0]] else []) + Plan(vs[1..], lo, hi)
  }

  /** One invocation of `body` per version, in order. */
  function Calls(body: Action, vs: seq<string>): (r: seq<Call>)
    ensures |r| == |vs|
    ensures forall i :: 0 <= i < |vs| ==> r[i] == Call(body, vs[i])
  {
    if vs == [] then [] else [Call(body, vs[0])] + Calls(body, vs[1..])
  }

  /** The ledger holds a "success" record for `v`. */
  predicate Succeeded(ledger: seq<Entry>, v: string) {
    exists i :: 0 <= i < |ledger| && ledger[i].version == v && ledger[i].status == "success"
  }

  lemma PlanCons(vs: seq<string>, lo: string, hi: string)
    requires vs != []
    ensures Plan(vs, lo, hi) ==
      (if Semver.Le(lo, vs[0]) && Semver.Le(vs[0], hi) then [vs[0]] else []) + Plan(vs[1..], lo, hi)
  {
  }

  lemma SettleSteps(catalog: seq<Catalog.Descriptor>, st: Store, v: string, cur: string, past: seq<Entry>)
    requires Semver.IsValid(cur)
    ensures var removed := if Recorded(past, v) then Remove(st, v) else st;
      var restored := RestoreSchema(catalog, removed);
      && (restored.Err? ==> Settle(catalog, st, v, cur, false, past) == Err((removed, restored.error)))
      && (restored.Ok? ==>
            Settle(catalog, st, v, cur, false, past) == Ok((restored.value, CurrentVersion(removed.ledger))))
  {
  }

  /** A head outside the range adds nothing to the plan. */
  lemma PlanSkip(vs: seq<string>, lo: string, hi: string)
    requires vs != [] && !(Semver.Le(lo, vs[0]) && Semver.Le(vs[0], hi))
    ensures Plan(vs, lo, hi) == Plan(vs[1..], lo, hi)
  {
    PlanCons(vs, lo, hi);
  }

  lemma CallsCons(body: Action, v: string, vs: seq<string>)
    ensures Calls(body, [v] + vs) == [Call(body, v)] + Calls(body, vs)
  {
    assert ([v] + vs)[1..] == vs;
  }

  lemma InvokeShape(catalog: seq<Catalog.Descriptor>, st: Store, body: Action, v: string, dry: bool)
    requires body == Up || body == Down
    ensures var r := Invoke(catalog, st, body, v, dry);
      (r.calls == [] && r.result.Err? && r.store == st) || r.calls == [Call(body, v)]
  {
  }

  lemma DownSkip(catalog: seq<Catalog.Descriptor>, st: Store, vs: seq<string>, cur: string, target: string, dry: bool, past: seq<Entry>)
    requires AllValid(vs) && Semver.IsValid(cur) && vs != []
    requires Semver.Compare(vs[0], cur) > 0
    ensures DownScan(catalog, st, vs, cur, target, dry, past) == DownScan(catalog, st, vs[1..], cur, target, dry, past)
  {
  }

  lemma DownInvoke(catalog: seq<Catalog.Descriptor>, st: Store, vs: seq<string>, cur: string, target: string,
                    dry: bool, past: seq<Entry>)
    requires AllValid(vs) && Semver.IsValid(cur) && Semver.IsValid(target) && vs != []
    requires Semver.Compare(vs[0], cur) <= 0 && Semver.Compare(vs[0], target) >= 0
    ensures var step := Invoke(catalog, st, Down, vs[0], dry);
      var r := DownScan(catalog, st, vs, cur, target, dry, past);
      && (step.result.Err? ==> r == step)
      && (step.result.Ok? ==>
            var settled := Settle(catalog, step.store, vs[0], cur, dry, past);
            && (settled.Err? ==> r == Run(settled.error.0, Err(settled.error.1), step.calls))
            && (settled.Ok? ==>
                  r == After(step.calls, DownScan(catalog, settled.value.0, vs[1..], settled.value.1, target, dry, past))))
  {
  }

  // ---- Ordered scans ----

  lemma SortedTail(vs: seq<string>, le: (string, string) -> bool)
    requires vs != [] && Seqs.Sorted(vs, le)
    ensures Seqs.Sorted(vs[1..], le)
  {
  }

  lemma {:induction false} PlanEmpty(vs: seq<string>, lo: string, hi: string)
    requires forall v :: v in vs ==> !(Semver.Le(lo, v) && Semver.Le(v, hi))
    ensures Plan(vs, lo, hi) == []
  {
    if vs != [] {
      assert vs[0] in vs;
      assert forall v :: v in vs[1..] ==> v in vs;
      PlanEmpty(vs[1..], lo, hi);
    }
  }

  /** In an ascending list whose head lies above `hi`, nothing lies in any range ending at `hi`. */
  lemma NothingPlannedAbove(vs: seq<string>, lo: string, hi: string)
    requires vs != [] && AllValid(vs) && Semver.IsValid(hi)
    requires Seqs.Sorted(vs, Semver.Le)
    requires Semver.Compare(vs[0], hi) > 0
    ensures Plan(vs, lo, hi) == []
  {
    forall v | v in vs ensures !Semver.Le(v, hi) {
      var i :| 0 <= i < |vs| && vs[i] == v;
      if i > 0 && Semver.Le(v, hi) {
        Semver.CompareTrans(vs[0], v, hi);
      }
    }
    PlanEmpty(vs, lo, hi);
  }

  /** In a descending list whose head lies below `lo`, nothing lies in any range starting at `lo`. */
  lemma NothingPlannedBelow(vs: seq<string>, lo: string, hi: string)
    requires vs != [] && AllValid(vs) && Semver.IsValid(lo)
    requires Seqs.Sorted(vs, Semver.Ge)
    requires Semver.Compare(vs[0], lo) < 0
    ensures Plan(vs, lo, hi) == []
  {
    forall v | v in vs ensures !Semver.Le(lo, v) {
      var i :| 0 <= i < |vs| && vs[i] == v;
      Semver.CompareFlip(vs[0], lo);
      if i > 0 && Semver.Le(lo, v) {
        assert Semver.Ge(vs[0], vs[i]);
        Semver.CompareTrans(lo, v, vs[0]);
      }
    }
    PlanEmpty(vs, lo, hi);
  }

  /** `up` over ascending versions invokes `up` exactly on the versions from the current one to
      the target, in order, until one fails; when there is nothing to do it writes nothing. */
  lemma {:induction false} UpFollowsPlan(catalog: seq<Catalog.Descriptor>, st: Store, vs: seq<string>,
                                         cur: string, target: string, dry: bool)
    requires AllValid(vs) && Semver.IsValid(cur) && Semver.IsValid(target)
    requires Seqs.Sorted(vs, Semver.Le)
    ensures var r := UpScan(catalog, st, vs, cur, target, dry);
      && r.calls <= Calls(Up, Plan(vs, cur, target))
      && (r.result.Ok? ==> r.calls == Calls(Up, Plan(vs, cur, target)))
      && (Plan(vs, cur, target) == [] ==> r == Run(st, Ok(()), []))
    decreases |vs|, 1
  {
    if vs != [] {
      var v := vs[0];
      SortedTail(vs, Semver.Le);
      Semver.CompareFlip(v, cur);
      if Semver.Compare(v, cur) < 0 {
        UpSkip(catalog, st, vs, cur, target, dry);
        PlanSkip(vs, cur, target);
        UpFollowsPlan(catalog, st, vs[1..], cur, target, dry);
      } else if Semver.Compare(v, target) > 0 {
        NothingPlannedAbove(vs, cur, target);
      } else {
        UpInvokes(catalog, st, vs, cur, target, dry);
      }
    }
  }

  /** The step of `up` that invokes the head of the list. */
  lemma {:induction false} UpInvokes(catalog: seq<Catalog.Descriptor>, st: Store, vs: seq<string>,
                                     cur: string, target: string, dry: bool)
    requires AllValid(vs) && Semver.IsValid(cur) && Semver.IsValid(target)
    requires Seqs.Sorted(vs, Semver.Le)
    requires vs != [] && Semver.Compare(vs[0], cur) >= 0 && Semver.Compare(vs[0], target) <= 0
    ensures var r := UpScan(catalog, st, vs, cur, target, dry);
      && r.calls <= Calls(Up, Plan(vs, cur, target))
      && (r.result.Ok? ==> r.calls == Calls(Up, Plan(vs, cur, target)))
      && Plan(vs, cur, target) != []
    decreases |vs|, 0
  {
    var v := vs[0];
    SortedTail(vs, Semver.Le);
    Semver.CompareFlip(v, cur);
    PlanCons(vs, cur, target);
    CallsCons(Up, v, Plan(vs[1..], cur, target));
    var step := Invoke(catalog, st, Up, v, dry);
    InvokeShape(catalog, st, Up, v, dry);
    UpInvoke(catalog, st, vs, cur, target, dry);
    if step.result.Ok? {
      var rest := UpScan(catalog, step.store, vs[1..], cur, target, dry);
      UpFollowsPlan(catalog, step.store, vs[1..], cur, target, dry);
      StepThenPlan(Up, v, rest.calls, Plan(vs[1..], cur, target));
    }
  }

  /** One call on `v` followed by a prefix of the planned calls on the rest is a prefix of the
      planned calls on `v` and the rest, the whole of it when the rest was whole. */
  lemma StepThenPlan(body: Action, v: string, calls: seq<Call>, plan: seq<string>)
    requires calls <= Calls(body, plan)
    ensures [Call(body, v)] + calls <= Calls(body, [v] + plan)
    ensures calls == Calls(body, plan) ==> [Call(body, v)] + calls == Calls(body, [v] + plan)
  {
    CallsCons(body, v, plan);
  }

  // ---- Where a scan stops ----

  /** What invoking `body` on `v` returns or throws, whatever the store: the load error, the
      body's error, or nothing. */
  function Outcome(catalog: seq<Catalog.Descriptor>, body: Action, v: string): Result<(), Error>
    requires body == Up || body == Down
  {
    match Catalog.LoadMigration(catalog, v)
    case Err(e) => Err(e)
    case Ok(m) =>
      var outcome := if body == Up then m.up else m.down;
      if outcome.Pass? then Ok(()) else Err(BodyFailed(outcome.message))
  }

  /** The position in `plan` of the first version whose migration cannot be loaded or whose
      `body` fails; `|plan|` when there is none. */
  function FirstFailure(catalog: seq<Catalog.Descriptor>, body: Action, plan: seq<string>): (k: nat)
    requires body == Up || body == Down
    ensures k <= |plan|
    ensures forall i :: 0 <= i < k ==> Outcome(catalog, body, plan[i]).Ok?
    ensures k < |plan| ==> Outcome(catalog, body, plan[k]).Err?
    decreases |plan|
  {
    if plan == [] || Outcome(catalog, body, plan[0]).Err? then 0
    else 1 + FirstFailure(catalog, body, plan[1..])
  }

  /** `r` invoked `body` on `plan` in order up to its first failure and no further: it
      succeeds exactly when every planned version loads and passes, and otherwise throws the
      first failure's error, after invoking the body of that version too if it loaded. */
  predicate StopsAtFirstFailure(catalog: seq<Catalog.Descriptor>, body: Action, plan: seq<string>, r: Run)
    requires body == Up || body == Down
  {
    var k := FirstFailure(catalog, body, plan);
    && (r.result.Ok? <==> forall i :: 0 <= i < |plan| ==> Outcome(catalog, body, plan[i]).Ok?)
    && (k == |plan| ==> r.calls == Calls(body, plan))
    && (k < |plan| ==>
          && r.result == Outcome(catalog, body, plan[k])
          && r.calls == Calls(body, plan[..k]) +
               (if Catalog.LoadMigration(catalog, plan[k]).Ok? then [Call(body, plan[k])] else []))
  }

  /** An invocation is its outcome, with one call exactly when the migration loaded. */
  lemma InvokeOutcome(catalog: seq<Catalog.Descriptor>, st: Store, body: Action, v: string, dry: bool)
    requires body == Up || body == Down
    ensures var step := Invoke(catalog, st, body, v, dry);
      && step.result == Outcome(catalog, body, v)
      && step.calls == if Catalog.LoadMigration(catalog, v).Ok? then [Call(body, v)] else []
  {
  }

  lemma FirstFailureCons(catalog: seq<Catalog.Descriptor>, body: Action, v: string, plan: seq<string>)
    requires body == Up || body == Down
    ensures FirstFailure(catalog, body, [v] + plan) ==
      if Outcome(catalog, body, v).Err? then 0 else 1 + FirstFailure(catalog, body, plan)
  {
    assert ([v] + plan)[1..] == plan;
  }

  /** A step on `v` that stops on failure, followed on success by a run that stops at the
      first failure of `plan`, stops at the first failure of `[v] + plan`. */
  lemma StopsAfterStep(catalog: seq<Catalog.Descriptor>, body: Action, v: string, plan: seq<string>,
                       step: Run, rest: Run, r: Run)
    requires body == Up || body == Down
    requires step.result == Outcome(catalog, body, v)
    requires step.calls == if Catalog.LoadMigration(catalog, v).Ok? then [Call(body, v)] else []
    requires step.result.Err? ==> r.result == step.result && r.calls == step.calls
    requires step.result.Ok? ==>
      r.result == rest.result && r.calls == step.calls + rest.calls &&
      StopsAtFirstFailure(catalog, body, plan, rest)
    ensures StopsAtFirstFailure(catalog, body, [v] + plan, r)
  {
    FirstFailureCons(catalog, body, v, plan);
    if step.result.Ok? {
      StopsAfterPass(catalog, body, v, plan, rest, r);
    } else {
      assert ([v] + plan)[0] == v;
      assert ([v] + plan)[..0] == [];
    }
  }

  lemma StopsAfterPass(catalog: seq<Catalog.Descriptor>, body: Action, v: string, plan: seq<string>,
                       rest: Run, r: Run)
    requires body == Up || body == Down
    requires Outcome(catalog, body, v).Ok? && Catalog.LoadMigration(catalog, v).Ok?
    requires r.result == rest.result && r.calls == [Call(body, v)] + rest.calls
    requires StopsAtFirstFailure(catalog, body, plan, rest)
    ensures StopsAtFirstFailure(catalog, body, [v] + plan, r)
  {
    FirstFailureCons(catalog, body, v, plan);
    if FirstFailure(catalog, body, plan) < |plan| {
      PassThenFailure(catalog, body, v, plan, rest, r);
    } else {
      PassThenNoFailure(catalog, body, v, plan, rest, r);
    }
  }

  lemma PassThenFailure(catalog: seq<Catalog.Descriptor>, body: Action, v: string, plan: seq<string>,
                        rest: Run, r: Run)
    requires body == Up || body == Down
    requires FirstFailure(catalog, body, [v] + plan) == 1 + FirstFailure(catalog, body, plan)
    requires FirstFailure(catalog, body, plan) < |plan|
    requires r.result == rest.result && r.calls == [Call(body, v)] + rest.calls
    requires StopsAtFirstFailure(catalog, body, plan, rest)
    ensures StopsAtFirstFailure(catalog, body, [v] + plan, r)
  {
    var whole := [v] + plan;
    var k := FirstFailure(catalog, body, plan);
    var last := if Catalog.LoadMigration(catalog, plan[k]).Ok? then [Call(body, plan[k])] else [];
    assert whole[k + 1] == plan[k];
    assert !(forall i :: 0 <= i < |whole| ==> Outcome(catalog, body, whole[i]).Ok?);
    CallsBeforeFailure(body, v, plan, k, rest.calls, last);
  }

  lemma PassThenNoFailure(catalog: seq<Catalog.Descriptor>, body: Action, v: string, plan: seq<string>,
                          rest: Run, r: Run)
    requires body == Up || body == Down
    requires Outcome(catalog, body, v).Ok?
    requires FirstFailure(catalog, body, [v] + plan) == 1 + FirstFailure(catalog, body, plan)
    requires FirstFailure(catalog, body, plan) == |plan|
    requires r.result == rest.result && r.calls == [Call(body, v)] + rest.calls
    requires StopsAtFirstFailure(catalog, body, plan, rest)
    ensures StopsAtFirstFailure(catalog, body, [v] + plan, r)
  {
    var whole := [v] + plan;
    assert forall i :: 0 <= i < |whole| ==> Outcome(catalog, body, whole[i]).Ok? by {
      forall i | 0 <= i < |whole| ensures Outcome(catalog, body, whole[i]).Ok? {
        if i > 0 { assert whole[i] == plan[i - 1]; }
      }
    }
    CallsCons(body, v, plan);
  }

  lemma CallsBeforeFailure(body: Action, v: string, plan: seq<string>, k: nat, calls: seq<Call>, last: seq<Call>)
    requires k < |plan| && calls == Calls(body, plan[..k]) + last
    ensures [Call(body, v)] + calls == Calls(body, ([v] + plan)[..k + 1]) + last
  {
    assert ([v] + plan)[..k + 1] == [v] + plan[..k];
    CallsCons(body, v, plan[..k]);
    Seqs.AppendAssoc([Call(body, v)], Calls(body, plan[..k]), last);
  }

  /** `up` over ascending versions stops at the first planned version that fails. */
  lemma {:induction false} UpStopsAtFirstFailure(catalog: seq<Catalog.Descriptor>, st: Store, vs: seq<string>,
                                                 cur: string, target: string, dry: bool)
    requires AllValid(vs) && Semver.IsValid(cur) && Semver.IsValid(target)
    requires Seqs.Sorted(vs, Semver.Le)
    ensures StopsAtFirstFailure(catalog, Up, Plan(vs, cur, target), UpScan(catalog, st, vs, cur, target, dry))
    decreases |vs|
  {
    if vs != [] {
      var v := vs[0];
      SortedTail(vs, Semver.Le);
      Semver.CompareFlip(v, cur);
      if Semver.Compare(v, cur) < 0 {
        UpSkip(catalog, st, vs, cur, target, dry);
        PlanSkip(vs, cur, target);
        UpStopsAtFirstFailure(catalog, st, vs[1..], cur, target, dry);
      } else if Semver.Compare(v, target) > 0 {
        NothingPlannedAbove(vs, cur, target);
      } else {
        PlanCons(vs, cur, target);
        var step := Invoke(catalog, st, Up, v, dry);
        InvokeOutcome(catalog, st, Up, v, dry);
        UpInvoke(catalog, st, vs, cur, target, dry);
        var rest := UpScan(catalog, step.store, vs[1..], cur, target, dry);
        if step.result.Ok? {
          UpStopsAtFirstFailure(catalog, step.store, vs[1..], cur, target, dry);
        }
        StopsAfterStep(catalog, Up, v, Plan(vs[1..], cur, target), step, rest,
                       UpScan(catalog, st, vs, cur, target, dry));
      }
    }
  }

  /** A dry `down` over descending versions stops at the first planned version that fails. */
  lemma {:induction false} DryDownStopsAtFirstFailure(catalog: seq<Catalog.Descriptor>, st: Store, vs: seq<string>,
                                                      cur: string, target: string, past: seq<Entry>)
    requires AllValid(vs) && Semver.IsValid(cur) && Semver.IsValid(target)
    requires Seqs.Sorted(vs, Semver.Ge)
    ensures StopsAtFirstFailure(catalog, Down, Plan(vs, target, cur), DownScan(catalog, st, vs, cur, target, true, past))
    decreases |vs|
  {
    if vs != [] {
      var v := vs[0];
      SortedTail(vs, Semver.Ge);
      Semver.CompareFlip(v, cur);
      Semver.CompareFlip(v, target);
      if Semver.Compare(v, cur) > 0 {
        DownSkip(catalog, st, vs, cur, target, true, past);
        PlanSkip(vs, target, cur);
        DryDownStopsAtFirstFailure(catalog, st, vs[1..], cur, target, past);
      } else if Semver.Compare(v, target) < 0 {
        NothingPlannedBelow(vs, target, cur);
      } else {
        PlanCons(vs, target, cur);
        var step := Invoke(catalog, st, Down, v, true);
        InvokeOutcome(catalog, st, Down, v, true);
        DownInvoke(catalog, st, vs, cur, target, true, past);
        var rest := DownScan(catalog, step.store, vs[1..], cur, target, true, past);
        if step.result.Ok? {
          DryDownStopsAtFirstFailure(catalog, step.store, vs[1..], cur, target, past);
        }
        StopsAfterStep(catalog, Down, v, Plan(vs[1..], target, cur), step, rest,
                       DownScan(catalog, st, vs, cur, target, true, past));
      }
    }
  }

  /** After an `up` that succeeds, every planned version has a "success" record. */
  lemma {:induction false} UpRecordsPlan(catalog: seq<Catalog.Descriptor>, st: Store, vs: seq<string>,
                                         cur: string, target: string)
    requires AllValid(vs) && Semver.IsValid(cur) && Semver.IsValid(target)
    requires Seqs.Sorted(vs, Semver.Le)
    ensures var r := UpScan(catalog, st, vs, cur, target, false);
      r.result.Ok? ==> forall v :: v in Plan(vs, cur, target) ==> Succeeded(r.store.ledger, v)
    decreases |vs|
  {
    if vs != [] {
      var v := vs[0];
      SortedTail(vs, Semver.Le);
      Semver.CompareFlip(v, cur);
      if Semver.Compare(v, cur) < 0 {
        UpRecordsPlan(catalog, st, vs[1..], cur, target);
      } else if Semver.Compare(v, target) > 0 {
        NothingPlannedAbove(vs, cur, target);
      } else {
        var step := Invoke(catalog, st, Up, v, false);
        if step.result.Ok? {
          UpRecordsPlan(catalog, step.store, vs[1..], cur, target);
          assert Succeeded(step.store.ledger, v) by {
            assert step.store.ledger[|step.store.ledger| - 1].version == v;
          }
          UpKeepsSucceeded(catalog, step.store, vs[1..], cur, target, v);
        }
      }
    }
  }

  /** An `up` only rewrites the records of versions it invokes, each to "success" when it passes. */
  lemma {:induction false} UpKeepsSucceeded(catalog: seq<Catalog.Descriptor>, st: Store, vs: seq<string>,
                                            cur: string, target: string, w: string)
    requires AllValid(vs) && Semver.IsValid(cur)
    requires Succeeded(st.ledger, w)
    ensures var r := UpScan(catalog, st, vs, cur, target, false);
      r.result.Ok? ==> Succeeded(r.store.ledger, w)
    decreases |vs|
  {
    if vs != [] {
      var v := vs[0];
      if Semver.Compare(v, cur) < 0 {
        UpKeepsSucceeded(catalog, st, vs[1..], cur, target, w);
      } else if Semver.IsValid(target) && Semver.Compare(v, target) <= 0 {
        var step := Invoke(catalog, st, Up, v, false);
        if step.result.Ok? {
          var ledger := step.store.ledger;
          if w == v {
            assert ledger[|ledger| - 1].version == w;
          } else {
            var i :| 0 <= i < |st.ledger| && st.ledger[i].version == w && st.ledger[i].status == "success";
            assert st.ledger[i] in Without(st.ledger, v);
            assert st.ledger[i] in ledger;
          }
          UpKeepsSucceeded(catalog, step.store, vs[1..], cur, target, w);
        }
      }
    }
  }

  /** A dry `down` over descending versions invokes `down` exactly on the versions from the
      current one down to the target, in order, until one fails. */
  lemma {:induction false} DryDownFollowsPlan(catalog: seq<Catalog.Descriptor>, st: Store, vs: seq<string>,
                                              cur: string, target: string, past: seq<Entry>)
    requires AllValid(vs) && Semver.IsValid(cur) && Semver.IsValid(target)
    requires Seqs.Sorted(vs, Semver.Ge)
    ensures var r := DownScan(catalog, st, vs, cur, target, true, past);
      && r.calls <= Calls(Down, Plan(vs, target, cur))
      && (r.result.Ok? ==> r.calls == Calls(Down, Plan(vs, target, cur)))
      && (Plan(vs, target, cur) == [] ==> r == Run(st, Ok(()), []))
    decreases |vs|, 1
  {
    if vs != [] {
      var v := vs[0];
      SortedTail(vs, Semver.Ge);
      Semver.CompareFlip(v, cur);
      Semver.CompareFlip(v, target);
      if Semver.Compare(v, cur) > 0 {
        DownSkip(catalog, st, vs, cur, target, true, past);
        PlanSkip(vs, target, cur);
        DryDownFollowsPlan(catalog, st, vs[1..], cur, target, past);
      } else if Semver.Compare(v, target) < 0 {
        NothingPlannedBelow(vs, target, cur);
      } else {
        DryDownInvokes(catalog, st, vs, cur, target, past);
      }
    }
  }

  /** The step of the dry `down` that invokes the head of the list. */
  lemma {:induction false} DryDownInvokes(catalog: seq<Catalog.Descriptor>, st: Store, vs: seq<string>,
                                          cur: string, target: string, past: seq<Entry>)
    requires AllValid(vs) && Semver.IsValid(cur) && Semver.IsValid(target)
    requires Seqs.Sorted(vs, Semver.Ge)
    requires vs != [] && Semver.Le(vs[0], cur) && Semver.Le(target, vs[0])
    ensures var r := DownScan(catalog, st, vs, cur, target, true, past);
      && r.calls <= Calls(Down, Plan(vs, target, cur))
      && (r.result.Ok? ==> r.calls == Calls(Down, Plan(vs, target, cur)))
      && Plan(vs, target, cur) != []
    decreases |vs|, 0
  {
    var v := vs[0];
    SortedTail(vs, Semver.Ge);
    Semver.CompareFlip(v, target);
    PlanCons(vs, target, cur);
    CallsCons(Down, v, Plan(vs[1..], target, cur));
    var step := Invoke(catalog, st, Down, v, true);
    InvokeShape(catalog, st, Down, v, true);
    DownInvoke(catalog, st, vs, cur, target, true, past);
    if step.result.Ok? {
      var rest := DownScan(catalog, step.store, vs[1..], cur, target, true, past);
      DryDownFollowsPlan(catalog, step.store, vs[1..], cur, target, past);
      StepThenPlan(Down, v, rest.calls, Plan(vs[1..], target, cur));
    }
  }

  /** Every call is a `down` on a version of `vs` at or above `lo`. */
  predicate DownsWithin(calls: seq<Call>, vs: seq<string>, lo: string) {
    forall i :: 0 <= i < |calls| ==>
      calls[i].body == Down && calls[i].version in vs && Semver.Le(lo, calls[i].version)
  }

  /** The called versions never go up. */
  predicate Descending(calls: seq<Call>) {
    forall i, j :: 0 <= i < j < |calls| ==> Semver.Le(calls[j].version, calls[i].version)
  }

  /** Whatever `down` does to the current version on the way, it invokes only `down`, only on
      versions of the list between the target and the current version it started from, and
      in descending order. */
  lemma {:induction false} DownStaysInRange(catalog: seq<Catalog.Descriptor>, st: Store, vs: seq<string>,
                                            cur: string, target: string, dry: bool, past: seq<Entry>)
    requires AllValid(vs) && Semver.IsValid(cur)
    requires Seqs.Sorted(vs, Semver.Ge)
    ensures var r := DownScan(catalog, st, vs, cur, target, dry, past);
      && DownsWithin(r.calls, vs, target)
      && Descending(r.calls)
      && (forall i :: 0 <= i < |r.calls| ==> Semver.Le(r.calls[i].version, cur))
    decreases |vs|
  {
    if vs != [] {
      var v := vs[0];
      SortedTail(vs, Semver.Ge);
      if Semver.Compare(v, cur) > 0 {
        DownStaysInRange(catalog, st, vs[1..], cur, target, dry, past);
        DownSkip(catalog, st, vs, cur, target, dry, past);
        var r := DownScan(catalog, st, vs[1..], cur, target, dry, past);
        forall i | 0 <= i < |r.calls| ensures r.calls[i].version in vs {
          assert r.calls[i].version in vs[1..];
        }
      } else if Semver.IsValid(target) && Semver.Compare(v, target) >= 0 {
        Semver.CompareFlip(v, target);
        var step := Invoke(catalog, st, Down, v, dry);
        InvokeShape(catalog, st, Down, v, dry);
        DownInvoke(catalog, st, vs, cur, target, dry, past);
        ComposeRange(vs, cur, target, []);
        if step.result.Ok? {
          var settled := Settle(catalog, step.store, v, cur, dry, past);
          if settled.Ok? {
            var next := settled.value;
            DownStaysInRange(catalog, next.0, vs[1..], next.1, target, dry, past);
            var rest := DownScan(catalog, next.0, vs[1..], next.1, target, dry, past);
            ComposeRange(vs, cur, target, rest.calls);
          }
        }
      }
    }
  }

  /** A `down` on the head of a descending list, followed by `down`s on its tail. */
  lemma ComposeRange(vs: seq<string>, cur: string, target: string, calls: seq<Call>)
    requires vs != [] && Semver.Le(target, vs[0]) && Semver.Le(vs[0], cur)
    requires Seqs.Sorted(vs, Semver.Ge)
    requires DownsWithin(calls, vs[1..], target) && Descending(calls)
    ensures var all := [Call(Down, vs[0])] + calls;
      DownsWithin(all, vs, target) && Descending(all) &&
      forall i :: 0 <= i < |all| ==> Semver.Le(all[i].version, cur)
  {
    TailBelowHead(vs, target, calls);
    ComposeDescending(vs[0], calls);
    ComposeWithin(vs, target, calls);
    ComposeBelow(vs[0], cur, calls);
  }

  /** Versions from the tail of a descending list are members of it and lie below its head. */
  lemma TailBelowHead(vs: seq<string>, target: string, calls: seq<Call>)
    requires vs != [] && Seqs.Sorted(vs, Semver.Ge)
    requires DownsWithin(calls, vs[1..], target)
    ensures forall i :: 0 <= i < |calls| ==> calls[i].version in vs && Semver.Le(calls[i].version, vs[0])
  {
    forall i | 0 <= i < |calls| ensures calls[i].version in vs && Semver.Le(calls[i].version, vs[0]) {
      var k :| 0 <= k < |vs[1..]| && vs[1..][k] == calls[i].version;
      assert vs[k + 1] == calls[i].version;
      assert Semver.Ge(vs[0], vs[k + 1]);
    }
  }

  lemma ComposeDescending(v: string, calls: seq<Call>)
    requires Descending(calls)
    requires forall i :: 0 <= i < |calls| ==> Semver.Le(calls[i].version, v)
    ensures Descending([Call(Down, v)] + calls)
  {
    var all := [Call(Down, v)] + calls;
    forall i, j | 0 <= i < j < |all| ensures Semver.Le(all[j].version, all[i].version) {
      assert all[j] == calls[j - 1];
      if i > 0 {
        assert all[i] == calls[i - 1];
      }
    }
  }

  lemma ComposeWithin(vs: seq<string>, target: string, calls: seq<Call>)
    requires vs != [] && Semver.Le(target, vs[0])
    requires DownsWithin(calls, vs[1..], target)
    requires forall i :: 0 <= i < |calls| ==> calls[i].version in vs
    ensures DownsWithin([Call(Down, vs[0])] + calls, vs, target)
  {
    var all := [Call(Down, vs[0])] + calls;
    forall i | 0 <= i < |all| ensures all[i].body == Down && all[i].version in vs && Semver.Le(target, all[i].version) {
      if i > 0 {
        assert all[i] == calls[i - 1];
      }
    }
  }

  lemma ComposeBelow(v: string, cur: string, calls: seq<Call>)
    requires Semver.Le(v, cur)
    requires forall i :: 0 <= i < |calls| ==> Semver.Le(calls[i].version, v)
    ensures forall i :: 0 <= i < |calls| + 1 ==> Semver.Le(([Call(Down, v)] + calls)[i].version, cur)
  {
    var all := [Call(Down, v)] + calls;
    forall i | 0 <= i < |all| ensures Semver.Le(all[i].version, cur) {
      if i > 0 {
        assert all[i] == calls[i - 1];
        Semver.CompareTrans(all[i].version, v, cur);
      }
    }
  }

  /** A non-dry `down` never adds or rewrites a record. When it succeeds, the records left are
      exactly those of versions it did not invoke `down` on, provided the snapshot `past` knows
      every record of the ledger. */
  lemma {:induction false} DownRemovesInvoked(catalog: seq<Catalog.Descriptor>, st: Store, vs: seq<string>,
                                              cur: string, target: string, past: seq<Entry>)
    requires AllValid(vs) && Semver.IsValid(cur)
    requires forall w :: Recorded(st.ledger, w) ==> Recorded(past, w)
    ensures var r := DownScan(catalog, st, vs, cur, target, false, past);
      && (forall e :: e in r.store.ledger ==> e in st.ledger)
      && (r.result.Ok? ==>
            forall e :: e in r.store.ledger <==> e in st.ledger && Call(Down, e.version) !in r.calls)
    decreases |vs|
  {
    if vs != [] {
      var v := vs[0];
      if Semver.Compare(v, cur) > 0 {
        DownRemovesInvoked(catalog, st, vs[1..], cur, target, past);
        DownSkip(catalog, st, vs, cur, target, false, past);
      } else if Semver.IsValid(target) && Semver.Compare(v, target) >= 0 {
        var step := Invoke(catalog, st, Down, v, false);
        InvokeShape(catalog, st, Down, v, false);
        DownInvoke(catalog, st, vs, cur, target, false, past);
        if step.result.Ok? {
          assert step.store.ledger == st.ledger;
          var settled := Settle(catalog, step.store, v, cur, false, past);
          var removed := if Recorded(past, v) then Without(st.ledger, v) else st.ledger;
          RemovedExactly(st.ledger, past, v);
          if settled.Ok? {
            var next := settled.value.0;
            assert next.ledger == removed;
            RecordedSubset(removed, st.ledger);
            DownRemovesInvoked(catalog, next, vs[1..], settled.value.1, target, past);
            var rest := DownScan(catalog, next, vs[1..], settled.value.1, target, false, past);
            ComposeRemoval(st.ledger, removed, rest.store.ledger, v, rest.calls, rest.result.Ok?);
            var r := DownScan(catalog, st, vs, cur, target, false, past);
            assert r.store == rest.store && r.result == rest.result && r.calls == [Call(Down, v)] + rest.calls;
          }
        }
      }
    }
  }

  lemma RecordedSubset(a: seq<Entry>, b: seq<Entry>)
    requires forall e :: e in a ==> e in b
    ensures forall w :: Recorded(a, w) ==> Recorded(b, w)
  {
    forall w | Recorded(a, w) ensures Recorded(b, w) {
      var i :| 0 <= i < |a| && a[i].version == w;
      assert a[i] in b;
      var j :| 0 <= j < |b| && b[j] == a[i];
    }
  }

  lemma ComposeRemoval(ledger: seq<Entry>, removed: seq<Entry>, final: seq<Entry>, v: string, calls: seq<Call>,
                       ok: bool)
    requires forall e :: e in removed <==> e in ledger && e.version != v
    requires forall e :: e in final ==> e in removed
    requires ok ==> forall e :: e in final <==> e in removed && Call(Down, e.version) !in calls
    ensures forall e :: e in final ==> e in ledger
    ensures ok ==> forall e :: e in final <==> e in ledger && Call(Down, e.version) !in [Call(Down, v)] + calls
  {
  }

  /** A ledger that keeps exactly the records of versions not rolled back records none of those. */
  lemma InvokedNotRecorded(ledger: seq<Entry>, final: seq<Entry>, calls: seq<Call>)
    requires forall e :: e in final <==> e in ledger && Call(Down, e.version) !in calls
    ensures forall v :: Call(Down, v) in calls ==> !Recorded(final, v)
  {
  }

  /** The ledger `down` goes on with after settling `v`: the records of other versions. */
  lemma RemovedExactly(ledger: seq<Entry>, past: seq<Entry>, v: string)
    requires forall w :: Recorded(ledger, w) ==> Recorded(past, w)
    ensures forall e :: e in (if Recorded(past, v) then Without(ledger, v) else ledger) <==>
                        e in ledger && e.version != v
  {
    if !Recorded(past, v) {
      forall e | e in ledger ensures e.version != v {
        var i :| 0 <= i < |ledger| && ledger[i] == e;
        assert Recorded(ledger, e.version);
      }
    }
  }

  /** Every valid version the ledger records lies at or below its current version. */
  lemma RecordedBelowCurrent(ledger: seq<Entry>, v: string)
    requires Semver.IsValid(v) && Recorded(ledger, v)
    ensures Semver.Le(v, CurrentVersion(ledger))
  {
    var i :| 0 <= i < |ledger| && ledger[i].version == v;
    assert HasValidVersion(ledger);
  }

  /** In a descending list whose head lies below `lo`, nothing lies at or above `lo`. */
  lemma NoneAtOrAbove(vs: seq<string>, lo: string)
    requires vs != [] && AllValid(vs) && Semver.IsValid(lo)
    requires Seqs.Sorted(vs, Semver.Ge)
    requires Semver.Compare(vs[0], lo) < 0
    ensures forall v :: v in vs ==> !Semver.Le(lo, v)
  {
    forall v | v in vs ensures !Semver.Le(lo, v) {
      var i :| 0 <= i < |vs| && vs[i] == v;
      Semver.CompareFlip(vs[0], lo);
      if i > 0 && Semver.Le(lo, v) {
        assert Semver.Ge(vs[0], vs[i]);
        Semver.CompareTrans(lo, v, vs[0]);
      }
    }
  }

  /** A non-dry `down` that starts from the ledger's current version and succeeds invokes
      `down` on every version of `vs` at or above the target that the ledger records: as each
      record goes the current version is read again, and it never falls below a version still
      recorded. */
  lemma {:induction false} DownReachesRecorded(catalog: seq<Catalog.Descriptor>, st: Store, vs: seq<string>,
                                               target: string, past: seq<Entry>)
    requires AllValid(vs) && Seqs.Sorted(vs, Semver.Ge)
    requires forall w :: Recorded(st.ledger, w) ==> Recorded(past, w)
    ensures var r := DownScan(catalog, st, vs, CurrentVersion(st.ledger), target, false, past);
      r.result.Ok? ==>
        forall v :: v in vs && Semver.Le(target, v) && Recorded(st.ledger, v) ==> Call(Down, v) in r.calls
    decreases |vs|
  {
    var cur := CurrentVersion(st.ledger);
    if vs != [] {
      var v0 := vs[0];
      SortedTail(vs, Semver.Ge);
      var r := DownScan(catalog, st, vs, cur, target, false, past);
      if Semver.Compare(v0, cur) > 0 {
        DownSkip(catalog, st, vs, cur, target, false, past);
        DownReachesRecorded(catalog, st, vs[1..], target, past);
        forall v | v in vs && Semver.Le(target, v) && Recorded(st.ledger, v) ensures v in vs[1..] {
          if v == v0 {
            RecordedBelowCurrent(st.ledger, v0);
            Semver.CompareFlip(v0, cur);
          }
        }
      } else if Semver.IsValid(target) && Semver.Compare(v0, target) < 0 {
        NoneAtOrAbove(vs, target);
      } else if Semver.IsValid(target) {
        DownReachesRecordedStep(catalog, st, vs, target, past);
      }
    }
  }

  /** The step of `DownReachesRecorded` that invokes the head of the list. */
  lemma {:induction false} DownReachesRecordedStep(catalog: seq<Catalog.Descriptor>, st: Store, vs: seq<string>,
                                                   target: string, past: seq<Entry>)
    requires AllValid(vs) && Seqs.Sorted(vs, Semver.Ge) && vs != [] && Semver.IsValid(target)
    requires Semver.Compare(vs[0], CurrentVersion(st.ledger)) <= 0 && Semver.Compare(vs[0], target) >= 0
    requires forall w :: Recorded(st.ledger, w) ==> Recorded(past, w)
    ensures var r := DownScan(catalog, st, vs, CurrentVersion(st.ledger), target, false, past);
      r.result.Ok? ==>
        forall v :: v in vs && Semver.Le(target, v) && Recorded(st.ledger, v) ==> Call(Down, v) in r.calls
    decreases |vs|, 0
  {
    var cur := CurrentVersion(st.ledger);
    var v0 := vs[0];
    SortedTail(vs, Semver.Ge);
    var step := Invoke(catalog, st, Down, v0, false);
    DownInvoke(catalog, st, vs, cur, target, false, past);
    if step.result.Ok? {
      assert step.store.ledger == st.ledger;
      var settled := Settle(catalog, step.store, v0, cur, false, past);
      if settled.Ok? {
        var next := settled.value.0;
        var removed := if Recorded(past, v0) then Without(st.ledger, v0) else st.ledger;
        assert next.ledger == removed && settled.value.1 == CurrentVersion(removed);
        RemovedExactly(st.ledger, past, v0);
        RecordedSubset(removed, st.ledger);
        DownReachesRecorded(catalog, next, vs[1..], target, past);
        var rest := DownScan(catalog, next, vs[1..], CurrentVersion(removed), target, false, past);
        if rest.result.Ok? {
          ReachedWithHead(st.ledger, removed, vs, target, rest.calls);
        }
      }
    }
  }

  /** Invoking `down` on the head, then on every recorded version of the tail that the
      ledger left after removing the head's records still holds, reaches every recorded version. */
  lemma ReachedWithHead(ledger: seq<Entry>, removed: seq<Entry>, vs: seq<string>, target: string,
                        calls: seq<Call>)
    requires vs != []
    requires forall e :: e in removed <==> e in ledger && e.version != vs[0]
    requires forall v :: v in vs[1..] && Semver.Le(target, v) && Recorded(removed, v) ==> Call(Down, v) in calls
    ensures forall v :: v in vs && Semver.Le(target, v) && Recorded(ledger, v) ==>
      Call(Down, v) in [Call(Down, vs[0])] + calls
  {
    forall v | v in vs && Semver.Le(target, v) && Recorded(ledger, v) && v != vs[0]
      ensures Call(Down, v) in calls
    {
      var i :| 0 <= i < |ledger| && ledger[i].version == v;
      assert ledger[i] in removed;
      var j :| 0 <= j < |removed| && removed[j] == ledger[i];
      var k :| 0 <= k < |vs| && vs[k] == v;
      assert vs[1..][k - 1] == v;
    }
  }

  // ---- Unfolding one step of the up scan ----

  lemma UpSkip(catalog: seq<Catalog.Descriptor>, st: Store, vs: seq<string>, cur: string, target: string, dry: bool)
    requires AllValid(vs) && Semver.IsValid(cur) && vs != []
    requires Semver.Compare(vs[0], cur) < 0
    ensures UpScan(catalog, st, vs, cur, target, dry) == UpScan(catalog, st, vs[1..], cur, target, dry)
  {
  }

  lemma UpInvoke(catalog: seq<Catalog.Descriptor>, st: Store, vs: seq<string>, cur: string, target: string, dry: bool)
    requires AllValid(vs) && Semver.IsValid(cur) && Semver.IsValid(target) && vs != []
    requires Semver.Compare(vs[0], cur) >= 0 && Semver.Compare(vs[0], target) <= 0
    ensures var step := Invoke(catalog, st, Up, vs[0], dry);
      var r := UpScan(catalog, st, vs, cur, target, dry);
      && (step.result.Err? ==> r == step)
      && (step.result.Ok? ==> r == After(step.calls, UpScan(catalog, step.store, vs[1..], cur, target, dry)))
  {
  }

  // ---- Dry runs ----

  /** A dry `up` writes nothing. */
  lemma {:induction false} UpDryWritesNothing(catalog: seq<Catalog.Descriptor>, st: Store, vs: seq<string>,
                                              cur: string, target: string)
    requires AllValid(vs) && Semver.IsValid(cur)
    ensures UpScan(catalog, st, vs, cur, target, true).store == st
    decreases |vs|
  {
    if vs != [] {
      var v := vs[0];
      if Semver.Compare(v, cur) < 0 {
        UpSkip(catalog, st, vs, cur, target, true);
        UpDryWritesNothing(catalog, st, vs[1..], cur, target);
      } else if Semver.IsValid(target) && Semver.Compare(v, target) <= 0 {
        UpInvoke(catalog, st, vs, cur, target, true);
        UpDryWritesNothing(catalog, st, vs[1..], cur, target);
      }
    }
  }

  /** A dry `down` writes nothing. */
  lemma {:induction false} DownDryWritesNothing(catalog: seq<Catalog.Descriptor>, st: Store, vs: seq<string>,
                                                cur: string, target: string, past: seq<Entry>)
    requires AllValid(vs) && Semver.IsValid(cur)
    ensures DownScan(catalog, st, vs, cur, target, true, past).store == st
    decreases |vs|
  {
    if vs != [] {
      var v := vs[0];
      if Semver.Compare(v, cur) > 0 {
        DownSkip(catalog, st, vs, cur, target, true, past);
        DownDryWritesNothing(catalog, st, vs[1..], cur, target, past);
      } else if Semver.IsValid(target) && Semver.Compare(v, target) >= 0 {
        DownInvoke(catalog, st, vs, cur, target, true, past);
        DownDryWritesNothing(catalog, st, vs[1..], cur, target, past);
      }
    }
  }

  // ---- Targets that are not versions ----

  /** With a target that is not a valid version, `up` invokes nothing and writes nothing; it
      throws exactly when some version is not below the current one, since comparing that
      version with the target is the first comparison the target takes part in. */
  lemma {:induction false} UpInvalidTarget(catalog: seq<Catalog.Descriptor>, st: Store, vs: seq<string>,
                                           cur: string, target: string, dry: bool)
    requires AllValid(vs) && Semver.IsValid(cur) && !Semver.IsValid(target)
    ensures var r := UpScan(catalog, st, vs, cur, target, dry);
      && r.calls == [] && r.store == st
      && (r.result.Ok? <==> forall i :: 0 <= i < |vs| ==> Semver.Compare(vs[i], cur) < 0)
      && (r.result.Err? ==> r.result.error == InvalidVersion(target))
    decreases |vs|
  {
    if vs != [] && Semver.Compare(vs[0], cur) < 0 {
      UpSkip(catalog, st, vs, cur, target, dry);
      UpInvalidTarget(catalog, st, vs[1..], cur, target, dry);
      assert forall i :: 1 <= i < |vs| ==> vs[i] == vs[1..][i - 1];
    }
  }

  /** The same for `down`, with the comparison reversed. */
  lemma {:induction false} DownInvalidTarget(catalog: seq<Catalog.Descriptor>, st: Store, vs: seq<string>,
                                             cur: string, target: string, dry: bool, past: seq<Entry>)
    requires AllValid(vs) && Semver.IsValid(cur) && !Semver.IsValid(target)
    ensures var r := DownScan(catalog, st, vs, cur, target, dry, past);
      && r.calls == [] && r.store == st
      && (r.result.Ok? <==> forall i :: 0 <= i < |vs| ==> Semver.Compare(vs[i], cur) > 0)
      && (r.result.Err? ==> r.result.error == InvalidVersion(target))
    decreases |vs|
  {
    if vs != [] && Semver.Compare(vs[0], cur) > 0 {
      DownSkip(catalog, st, vs, cur, target, dry, past);
      DownInvalidTarget(catalog, st, vs[1..], cur, target, dry, past);
      assert forall i :: 1 <= i < |vs| ==> vs[i] == vs[1..][i - 1];
    }
  }

  // ---- Well-formed stores ----

  lemma InvokeKeepsWellFormed(catalog: seq<Catalog.Descriptor>, st: Store, body: Action, v: string, dry: bool)
    requires body == Up || body == Down
    requires WellFormed(st)
    ensures WellFormed(Invoke(catalog, st, body, v, dry).store)
  {
    var r := Invoke(catalog, st, body, v, dry);
    if Catalog.LoadMigration(catalog, v).Ok? && !dry && body == Up {
      var m := Catalog.LoadMigration(catalog, v).value;
      var outcome := m.up;
      PutKeepsWellFormed(st, v, m.path, m.description, if outcome.Pass? then "success" else outcome.message);
    }
  }

  lemma {:induction false} UpKeepsWellFormed(catalog: seq<Catalog.Descriptor>, st: Store, vs: seq<string>,
                                             cur: string, target: string, dry: bool)
    requires AllValid(vs) && Semver.IsValid(cur)
    requires WellFormed(st)
    ensures WellFormed(UpScan(catalog, st, vs, cur, target, dry).store)
    decreases |vs|
  {
    if vs != [] {
      var v := vs[0];
      if Semver.Compare(v, cur) < 0 {
        UpSkip(catalog, st, vs, cur, target, dry);
        UpKeepsWellFormed(catalog, st, vs[1..], cur, target, dry);
      } else if Semver.IsValid(target) && Semver.Compare(v, target) <= 0 {
        UpInvoke(catalog, st, vs, cur, target, dry);
        InvokeKeepsWellFormed(catalog, st, Up, v, dry);
        UpKeepsWellFormed(catalog, Invoke(catalog, st, Up, v, dry).store, vs[1..], cur, target, dry);
      }
    }
  }

  lemma SettleKeepsWellFormed(catalog: seq<Catalog.Descriptor>, st: Store, v: string, cur: string, dry: bool,
                              past: seq<Entry>)
    requires Semver.IsValid(cur) && WellFormed(st)
    ensures var r := Settle(catalog, st, v, cur, dry, past);
      && (r.Ok? ==> WellFormed(r.value.0))
      && (r.Err? ==> WellFormed(r.error.0))
  {
    if !dry && Recorded(past, v) {
      RemoveKeepsWellFormed(st, v);
    }
  }

  lemma {:induction false} DownKeepsWellFormed(catalog: seq<Catalog.Descriptor>, st: Store, vs: seq<string>,
                                               cur: string, target: string, dry: bool, past: seq<Entry>)
    requires AllValid(vs) && Semver.IsValid(cur)
    requires WellFormed(st)
    ensures WellFormed(DownScan(catalog, st, vs, cur, target, dry, past).store)
    decreases |vs|
  {
    if vs != [] {
      var v := vs[0];
      if Semver.Compare(v, cur) > 0 {
        DownSkip(catalog, st, vs, cur, target, dry, past);
        DownKeepsWellFormed(catalog, st, vs[1..], cur, target, dry, past);
      } else if Semver.IsValid(target) && Semver.Compare(v, target) >= 0 {
        DownInvoke(catalog, st, vs, cur, target, dry, past);
        var step := Invoke(catalog, st, Down, v, dry);
        InvokeKeepsWellFormed(catalog, st, Down, v, dry);
        if step.result.Ok? {
          var settled := Settle(catalog, step.store, v, cur, dry, past);
          SettleKeepsWellFormed(catalog, step.store, v, cur, dry, past);
          if settled.Ok? {
            DownKeepsWellFormed(catalog, settled.value.0, vs[1..], settled.value.1, target, dry, past);
          }
        }
      }
    }
  }

  // ---- The reset loop ----

  /** No version occurs twice. */
  predicate Distinct(vs: seq<string>) {
    forall i, j :: 0 <= i < j < |vs| ==> vs[i] != vs[j]
  }

  /** Every version names a migration `loadMigration` accepts. */
  predicate Loadable(catalog: seq<Catalog.Descriptor>, vs: seq<string>) {
    forall i :: 0 <= i < |vs| ==> Catalog.LoadMigration(catalog, vs[i]).Ok?
  }

  /** No version is recorded in `ledger`. */
  predicate NoneRecorded(ledger: seq<Entry>, vs: seq<string>) {
    forall i :: 0 <= i < |vs| ==> !Recorded(ledger, vs[i])
  }

  lemma RecordedAppend(ledger: seq<Entry>, e: Entry)
    ensures forall w :: Recorded(ledger + [e], w) <==> Recorded(ledger, w) || w == e.version
  {
    var next := ledger + [e];
    forall w ensures Recorded(next, w) <==> Recorded(ledger, w) || w == e.version {
      if Recorded(next, w) && w != e.version {
        var i :| 0 <= i < |next| && next[i].version == w;
        assert ledger[i].version == w;
      }
      if w == e.version {
        assert next[|ledger|].version == w;
      }
      if Recorded(ledger, w) {
        var i :| 0 <= i < |ledger| && ledger[i].version == w;
        assert next[i].version == w;
      }
    }
  }

  /** What the reset loop demands of a list, split into its head and its tail. */
  lemma RebuildConditionsCons(catalog: seq<Catalog.Descriptor>, ledger: seq<Entry>, next: seq<Entry>,
                              vs: seq<string>)
    requires vs != []
    requires forall w :: Recorded(next, w) <==> Recorded(ledger, w) || w == vs[0]
    ensures (Loadable(catalog, vs) && Distinct(vs) && NoneRecorded(ledger, vs)) <==>
            (Catalog.LoadMigration(catalog, vs[0]).Ok? && !Recorded(ledger, vs[0]) &&
             Loadable(catalog, vs[1..]) && Distinct(vs[1..]) && NoneRecorded(next, vs[1..]))
  {
    var tail := vs[1..];
    assert forall i :: 1 <= i < |vs| ==> vs[i] == tail[i - 1];
    if Distinct(vs) {
      forall i | 0 <= i < |tail| ensures tail[i] != vs[0] {
        assert vs[i + 1] == tail[i];
      }
    }
    if Loadable(catalog, tail) && Distinct(tail) && NoneRecorded(next, tail) {
      forall i, j | 0 <= i < j < |vs| ensures vs[i] != vs[j] {
        if i == 0 {
          assert !Recorded(next, tail[j - 1]);
        }
      }
    }
  }

  /** The reset loop succeeds exactly when every version loads, none repeats and none is
      recorded already. It never invokes a migration body. */
  lemma {:induction false} RebuildSucceedsExactly(catalog: seq<Catalog.Descriptor>, st: Store, vs: seq<string>)
    ensures var r := Rebuild(catalog, st, vs);
      && r.calls == []
      && (r.result.Ok? <==> Loadable(catalog, vs) && Distinct(vs) && NoneRecorded(st.ledger, vs))
    decreases |vs|
  {
    if vs != [] {
      var v := vs[0];
      var loaded := Catalog.LoadMigration(catalog, v);
      if loaded.Ok? {
        var m := loaded.value;
        var created := Create(st, m.version, m.path, m.description, "success");
        if created.Ok? {
          RecordedAppend(st.ledger, Entry(v, st.clock, m.path, m.description, "success"));
          RebuildConditionsCons(catalog, st.ledger, created.value.ledger, vs);
          RebuildSucceedsExactly(catalog, created.value, vs[1..]);
        } else {
          assert !NoneRecorded(st.ledger, vs);
        }
      } else {
        assert !Loadable(catalog, vs);
      }
    }
  }

  /** When it succeeds, the reset loop appends one "success" record per version, in order,
      after the records it started from. */
  lemma {:induction false} RebuildAppends(catalog: seq<Catalog.Descriptor>, st: Store, vs: seq<string>)
    ensures var r := Rebuild(catalog, st, vs);
      r.result.Ok? ==>
        && |r.store.ledger| == |st.ledger| + |vs|
        && r.store.ledger[..|st.ledger|] == st.ledger
        && VersionsOf(r.store.ledger) == VersionsOf(st.ledger) + vs
        && forall i :: |st.ledger| <= i < |r.store.ledger| ==> r.store.ledger[i].status == "success"
    decreases |vs|
  {
    if vs != [] {
      var loaded := Catalog.LoadMigration(catalog, vs[0]);
      if loaded.Ok? {
        var m := loaded.value;
        var created := Create(st, m.version, m.path, m.description, "success");
        if created.Ok? {
          var next := created.value;
          RebuildAppends(catalog, next, vs[1..]);
          var r := Rebuild(catalog, next, vs[1..]);
          if r.result.Ok? {
            assert r.store.ledger[..|st.ledger|] == r.store.ledger[..|next.ledger|][..|st.ledger|];
            assert VersionsOf(next.ledger) == VersionsOf(st.ledger) + [vs[0]];
            assert vs == [vs[0]] + vs[1..];
          }
        }
      }
    }
  }

  lemma {:induction false} RebuildKeepsWellFormed(catalog: seq<Catalog.Descriptor>, st: Store, vs: seq<string>)
    requires WellFormed(st)
    ensures WellFormed(Rebuild(catalog, st, vs).store)
    decreases |vs|
  {
    if vs != [] {
      var loaded := Catalog.LoadMigration(catalog, vs[0]);
      if loaded.Ok? {
        var m := loaded.value;
        CreateKeepsWellFormed(st, m.version, m.path, m.description, "success");
        var created := Create(st, m.version, m.path, m.description, "success");
        if created.Ok? {
          RebuildKeepsWellFormed(catalog, created.value, vs[1..]);
        }
      }
    }
  }
}
