/**
 * The ledger of applied migrations and the queries the engine answers from it.
 * The store is reduced to the ledger records, the saved schema, and a clock
 * that stands for `new Date()`. The ledger model keys its records by version:
 * a write under an existing version replaces that record.
 */
module Ledger {
  import opened Wrappers
  import opened Errors
  import Seqs
  import Semver
  import Catalog

  /** One ledger record; `status` is "success" or the message of the error a body threw. */
  datatype Entry = Entry(version: string, date: nat, path: string, description: string, status: string)

  /** Everything of the store that the engine reads or writes. */
  datatype Store = Store(ledger: seq<Entry>, saved: Option<string>, clock: nat)

  const Zero: string := "0.0.0"

  predicate ByDate(a: Entry, b: Entry) { a.date <= b.date }

  /** `findPastMigrations`: every ledger record, oldest first. */
  function PastMigrations(ledger: seq<Entry>): (r: seq<Entry>)
    ensures Seqs.Sorted(r, ByDate)
    ensures multiset(r) == multiset(ledger)
  {
    Seqs.SortSorts(ledger, ByDate);
    Seqs.Sort(ledger, ByDate)
  }

  /** Some record of the ledger carries version `v`. */
  predicate Recorded(ledger: seq<Entry>, v: string) {
    exists i :: 0 <= i < |ledger| && ledger[i].version == v
  }

  lemma RecordedPast(ledger: seq<Entry>, v: string)
    ensures Recorded(PastMigrations(ledger), v) <==> Recorded(ledger, v)
  {
    var past := PastMigrations(ledger);
    Seqs.SameMembers(past, ledger);
    if Recorded(ledger, v) {
      var i :| 0 <= i < |ledger| && ledger[i].version == v;
      assert ledger[i] in past;
    }
    if Recorded(past, v) {
      var i :| 0 <= i < |past| && past[i].version == v;
      assert past[i] in ledger;
    }
  }

  function VersionsOf(entries: seq<Entry>): (r: seq<string>)
    ensures |r| == |entries|
    ensures forall i :: 0 <= i < |entries| ==> r[i] == entries[i].version
  {
    seq(|entries|, i requires 0 <= i < |entries| => entries[i].version)
  }

  /** A ledger holding some valid version. */
  predicate HasValidVersion(ledger: seq<Entry>) {
    exists i :: 0 <= i < |ledger| && Semver.IsValid(ledger[i].version)
  }

  /** `getCurrentVersion`: the greatest valid version recorded, else "0.0.0". */
  function CurrentVersion(ledger: seq<Entry>): (r: string)
    ensures Semver.IsValid(r)
    ensures !HasValidVersion(ledger) ==> r == Zero
    ensures HasValidVersion(ledger) ==>
      Recorded(ledger, r) &&
      forall i :: 0 <= i < |ledger| && Semver.IsValid(ledger[i].version) ==> Semver.Compare(ledger[i].version, r) <= 0
  {
    Semver.ZeroIsValid();
    var past := PastMigrations(ledger);
    if |past| == 0 then Zero
    else
      var valid := Seqs.Filter(VersionsOf(past), Semver.IsValid);
      var versions := Seqs.Sort(valid, Semver.Le);
      CurrentVersionFacts(ledger, past, valid, versions);
      if |versions| > 0 then versions[|versions| - 1] else Zero
  }

  lemma CurrentVersionFacts(ledger: seq<Entry>, past: seq<Entry>, valid: seq<string>, versions: seq<string>)
    requires multiset(past) == multiset(ledger)
    requires valid == Seqs.Filter(VersionsOf(past), Semver.IsValid)
    requires versions == Seqs.Sort(valid, Semver.Le)
    ensures |versions| == 0 <==> !HasValidVersion(ledger)
    ensures |versions| > 0 ==>
      var top := versions[|versions| - 1];
      Semver.IsValid(top) && Recorded(ledger, top) &&
      forall i :: 0 <= i < |ledger| && Semver.IsValid(ledger[i].version) ==> Semver.Compare(ledger[i].version, top) <= 0
  {
    Seqs.FilterMembers(VersionsOf(past), Semver.IsValid);
    Seqs.SameMembers(versions, valid);
    forall v ensures v in VersionsOf(past) <==> Recorded(ledger, v) {
      RecordedAmongVersions(ledger, past, v);
    }
    assert forall v :: v in versions <==> Recorded(ledger, v) && Semver.IsValid(v);
    if HasValidVersion(ledger) {
      var i :| 0 <= i < |ledger| && Semver.IsValid(ledger[i].version);
      assert Recorded(ledger, ledger[i].version);
      assert ledger[i].version in versions;
    }
    if |versions| > 0 {
      Semver.SortOrdersVersions(valid);
      LastIsGreatest(versions);
      forall i | 0 <= i < |ledger| && Semver.IsValid(ledger[i].version)
        ensures Semver.Compare(ledger[i].version, versions[|versions| - 1]) <= 0
      {
        assert Recorded(ledger, ledger[i].version);
      }
    }
  }

  lemma RecordedAmongVersions(ledger: seq<Entry>, past: seq<Entry>, v: string)
    requires multiset(past) == multiset(ledger)
    ensures v in VersionsOf(past) <==> Recorded(ledger, v)
  {
    Seqs.SameMembers(past, ledger);
    if v in VersionsOf(past) {
      var j :| 0 <= j < |past| && VersionsOf(past)[j] == v;
      assert past[j] in ledger;
    }
    if Recorded(ledger, v) {
      var i :| 0 <= i < |ledger| && ledger[i].version == v;
      assert ledger[i] in past;
      var j :| 0 <= j < |past| && past[j] == ledger[i];
      assert VersionsOf(past)[j] == v;
    }
  }

  /** The last of an ascending list of versions is at least every member. */
  lemma LastIsGreatest(versions: seq<string>)
    requires |versions| > 0 && Seqs.Sorted(versions, Semver.Le)
    requires forall v :: v in versions ==> Semver.IsValid(v)
    ensures forall v :: v in versions ==> Semver.Compare(v, versions[|versions| - 1]) <= 0
  {
    var n := |versions| - 1;
    forall v | v in versions ensures Semver.Compare(v, versions[n]) <= 0 {
      var m :| 0 <= m < |versions| && versions[m] == v;
      if m < n {
        assert Semver.Le(versions[m], versions[n]);
      } else {
        Semver.CompareFlip(v, v);
      }
    }
  }

  /** Every catalog version that no record carries, ascending: `getOutstandingVersions` before
      its cut. */
  function Pending(catalog: seq<Catalog.Descriptor>, ledger: seq<Entry>): (r: seq<string>)
    ensures Seqs.Sorted(r, Semver.Le)
    ensures forall v :: v in r <==> Semver.IsValid(v) && v in Catalog.Versions(catalog) && !Recorded(ledger, v)
    ensures |r| <= |catalog|
  {
    var past := PastMigrations(ledger);
    var versions := Catalog.SemVersions(catalog);
    var pending := Seqs.Filter(versions, v => !Recorded(past, v));
    Seqs.FilterKeepsSorted(versions, v => !Recorded(past, v), Semver.Le);
    Seqs.FilterMembers(versions, v => !Recorded(past, v));
    forall v ensures Recorded(past, v) <==> Recorded(ledger, v) { RecordedPast(ledger, v); }
    Catalog.SemVersionsFit(catalog);
    pending
  }

  /** `getOutstandingVersions(limit)`: the pending versions cut by `slice(0, limit)`. */
  function OutstandingVersions(catalog: seq<Catalog.Descriptor>, ledger: seq<Entry>, limit: int): (r: seq<string>)
    ensures r <= Pending(catalog, ledger)
    ensures |r| == Seqs.SliceEnd(|Pending(catalog, ledger)|, limit)
    ensures Seqs.Sorted(r, Semver.Le)
    ensures 0 <= limit ==> |r| <= limit
    ensures forall v :: v in r ==> Semver.IsValid(v) && v in Catalog.Versions(catalog) && !Recorded(ledger, v)
  {
    var pending := Pending(catalog, ledger);
    Seqs.PrefixKeepsSorted(pending, Seqs.SliceEnd(|pending|, limit), Semver.Le);
    Seqs.Slice(pending, limit)
  }

  /** A smaller limit gives a prefix of what a larger one gives. */
  lemma OutstandingPrefix(catalog: seq<Catalog.Descriptor>, ledger: seq<Entry>, limit1: int, limit2: int)
    requires 0 <= limit1 <= limit2
    ensures OutstandingVersions(catalog, ledger, limit1) <= OutstandingVersions(catalog, ledger, limit2)
  {
    Seqs.SliceMonotone(Pending(catalog, ledger), limit1, limit2);
  }

  /** With a limit at least the catalog's size nothing outstanding is left out. */
  lemma OutstandingComplete(catalog: seq<Catalog.Descriptor>, ledger: seq<Entry>, limit: int, v: string)
    requires limit >= |catalog|
    requires v in Catalog.Versions(catalog) && Semver.IsValid(v) && !Recorded(ledger, v)
    ensures v in OutstandingVersions(catalog, ledger, limit)
  {
    assert OutstandingVersions(catalog, ledger, limit) == Pending(catalog, ledger);
  }

  // ---- Writes ----

  /** The ledger without the record keyed by `v`, the others in their order. */
  function Without(ledger: seq<Entry>, v: string): (r: seq<Entry>)
    ensures !Recorded(r, v)
    ensures forall e :: e in r <==> e in ledger && e.version != v
    ensures |r| <= |ledger|
  {
    var r := Seqs.Filter(ledger, (e: Entry) => e.version != v);
    Seqs.FilterMembers(ledger, (e: Entry) => e.version != v);
    assert forall i :: 0 <= i < |r| ==> r[i] in r;
    r
  }

  /** `Migration.create(props, {exists: null})` and `Migration.update(props, {exists: null})`:
      an unconditional write under the key `version`, dated by the clock. */
  function Put(st: Store, version: string, path: string, description: string, status: string): (r: Store)
    ensures r.ledger == Without(st.ledger, version) + [Entry(version, st.clock, path, description, status)]
    ensures r.saved == st.saved && r.clock == st.clock + 1
  {
    Store(Without(st.ledger, version) + [Entry(version, st.clock, path, description, status)], st.saved, st.clock + 1)
  }

  /** `Migration.create(props)`: the store's default refuses a key that is already taken. */
  function Create(st: Store, version: string, path: string, description: string, status: string): (r: Result<Store, Error>)
    ensures r.Err? <==> Recorded(st.ledger, version)
    ensures r.Err? ==> r.error == DuplicateEntry(version)
    ensures r.Ok? ==> r.value.ledger == st.ledger + [Entry(version, st.clock, path, description, status)] &&
                      r.value.saved == st.saved && r.value.clock == st.clock + 1
  {
    if Recorded(st.ledger, version) then Err(DuplicateEntry(version))
    else Ok(Store(st.ledger + [Entry(version, st.clock, path, description, status)], st.saved, st.clock + 1))
  }

  /** `Migration.remove(record)`: drops the record keyed by its version. */
  function Remove(st: Store, v: string): (r: Store)
    ensures !Recorded(r.ledger, v)
    ensures forall e :: e in r.ledger <==> e in st.ledger && e.version != v
    ensures r.saved == st.saved && r.clock == st.clock
  {
    st.(ledger := Without(st.ledger, v))
  }

  predicate DifferentKeys(a: Entry, b: Entry) { a.version != b.version }

  predicate Older(a: Entry, b: Entry) { a.date < b.date }

  /** What a store built by these writes looks like: one record per version, dates strictly
      increasing in ledger order, all before the clock. */
  ghost predicate WellFormed(st: Store) {
    && Seqs.Sorted(st.ledger, DifferentKeys)
    && Seqs.Sorted(st.ledger, Older)
    && forall i :: 0 <= i < |st.ledger| ==> st.ledger[i].date < st.clock
  }

  lemma WithoutKeepsOrder(st: Store, v: string)
    requires WellFormed(st)
    ensures WellFormed(st.(ledger := Without(st.ledger, v)))
  {
    Seqs.FilterKeepsSorted(st.ledger, (e: Entry) => e.version != v, DifferentKeys);
    Seqs.FilterKeepsSorted(st.ledger, (e: Entry) => e.version != v, Older);
    var r := Without(st.ledger, v);
    forall i | 0 <= i < |r| ensures r[i].date < st.clock {
      assert r[i] in st.ledger;
    }
  }

  lemma PutKeepsWellFormed(st: Store, version: string, path: string, description: string, status: string)
    requires WellFormed(st)
    ensures WellFormed(Put(st, version, path, description, status))
  {
    WithoutKeepsOrder(st, version);
    var kept := Without(st.ledger, version);
    assert forall e :: e in kept ==> e in st.ledger;
  }

  lemma CreateKeepsWellFormed(st: Store, version: string, path: string, description: string, status: string)
    requires WellFormed(st)
    ensures Create(st, version, path, description, status).Ok? ==>
      WellFormed(Create(st, version, path, description, status).value)
  {
  }

  lemma RemoveKeepsWellFormed(st: Store, v: string)
    requires WellFormed(st)
    ensures WellFormed(Remove(st, v))
  {
    WithoutKeepsOrder(st, v);
  }

  /** On a well-formed store `findPastMigrations` returns the records in ledger order. */
  lemma PastMigrationsInLedgerOrder(st: Store)
    requires WellFormed(st)
    ensures PastMigrations(st.ledger) == st.ledger
  {
    Seqs.SortOfSorted(st.ledger, ByDate);
  }
}
