/**
 * The catalog of available migrations: the descriptors given in memory (or the
 * file names of a migrations directory), their split into semantic versions and
 * named migrations, and `loadMigration`'s validation of one descriptor.
 */
module Catalog {
  import opened Wrappers
  import opened Errors
  import Seqs
  import Semver

  /** What a migration body does when invoked: return, or throw an error with a message. */
  datatype Outcome = Pass | Fail(message: string)

  /** One element of the in-memory migrations list. An absent `version` is the empty string,
      an absent `schema` is `None`. */
  datatype Descriptor = Descriptor(version: string, description: string, schema: Option<string>,
                                   up: Outcome, down: Outcome)

  /** The record `loadMigration` returns. */
  datatype Migration = Migration(version: string, description: string, path: string, schema: string,
                                 up: Outcome, down: Outcome)

  /** `getVersions` over an in-memory list: one identifier per descriptor, in list order. */
  function Versions(catalog: seq<Descriptor>): (r: seq<string>)
    ensures |r| == |catalog|
    ensures forall i :: 0 <= i < |catalog| ==> r[i] == catalog[i].version
  {
    seq(|catalog|, i requires 0 <= i < |catalog| => catalog[i].version)
  }

  /** Index of the last '.' or '/' of `s`, or -1. */
  function LastStop(s: string): (k: int)
    ensures -1 <= k < |s|
    ensures k >= 0 ==> s[k] == '.' || s[k] == '/'
    ensures forall i :: k < i < |s| ==> s[i] != '.' && s[i] != '/'
  {
    if s == [] then -1
    else if s[|s| - 1] == '.' || s[|s| - 1] == '/' then |s| - 1
    else LastStop(s[..|s| - 1])
  }

  /** `file.replace(/\.[^/.]+$/, '')`: drops a final '.' and the non-empty run after it, when
      that run holds neither '.' nor '/'; otherwise the name is left as it is. */
  function StripExtension(file: string): (name: string)
    ensures name <= file
    ensures name != file ==>
      |name| + 1 < |file| && file[|name|] == '.' &&
      forall i :: |name| < i < |file| ==> file[i] != '.' && file[i] != '/'
    ensures name == file ==>
      forall k :: 0 <= k < |file| - 1 && file[k] == '.' ==>
        exists i :: k < i < |file| && (file[i] == '.' || file[i] == '/')
  {
    var k := LastStop(file);
    if 0 <= k < |file| - 1 && file[k] == '.' then file[..k] else file
  }

  /** `getVersions` over a directory listing. */
  function ListingVersions(files: seq<string>): (r: seq<string>)
    ensures |r| == |files|
    ensures forall i :: 0 <= i < |files| ==> r[i] == StripExtension(files[i])
  {
    seq(|files|, i requires 0 <= i < |files| => StripExtension(files[i]))
  }

  predicate IsNamed(v: string) { !Semver.IsValid(v) }

  /** `getSemVersions`: the valid versions of the catalog, ascending by precedence. */
  function SemVersions(catalog: seq<Descriptor>): (r: seq<string>)
    ensures forall v :: v in r <==> v in Versions(catalog) && Semver.IsValid(v)
    ensures Seqs.Sorted(r, Semver.Le)
    ensures multiset(r) == multiset(Seqs.Filter(Versions(catalog), Semver.IsValid))
  {
    var valid := Seqs.Filter(Versions(catalog), Semver.IsValid);
    Seqs.FilterMembers(Versions(catalog), Semver.IsValid);
    assert forall i :: 0 <= i < |valid| ==> valid[i] in valid;
    Semver.SortOrdersVersions(valid);
    var r := Seqs.Sort(valid, Semver.Le);
    Seqs.SameMembers(r, valid);
    Seqs.FilterMembers(Versions(catalog), Semver.IsValid);
    r
  }

  /** `getNamedVersions`: the identifiers that are not valid versions, in catalog order. */
  function NamedVersions(catalog: seq<Descriptor>): (r: seq<string>)
    ensures forall v :: v in r <==> v in Versions(catalog) && IsNamed(v)
    ensures |r| == |Seqs.Kept(Versions(catalog), IsNamed)|
    ensures forall i :: 0 <= i < |r| ==> r[i] == Versions(catalog)[Seqs.Kept(Versions(catalog), IsNamed)[i]]
  {
    Seqs.FilterMembers(Versions(catalog), IsNamed);
    Seqs.FilterKept(Versions(catalog), IsNamed);
    Seqs.Filter(Versions(catalog), IsNamed)
  }

  /** Together the two lists hold every identifier of the catalog exactly as often as it occurs. */
  lemma VersionsPartition(catalog: seq<Descriptor>)
    ensures multiset(SemVersions(catalog)) + multiset(NamedVersions(catalog)) == multiset(Versions(catalog))
  {
    Seqs.FilterPartition(Versions(catalog), Semver.IsValid, IsNamed);
  }

  /** There are no more versions than descriptors. */
  lemma SemVersionsFit(catalog: seq<Descriptor>)
    ensures |SemVersions(catalog)| <= |catalog|
  {
    VersionsPartition(catalog);
    assert |multiset(SemVersions(catalog))| <= |multiset(Versions(catalog))|;
  }

  /** `getNamedMigrations(limit)`: the first `limit` named migrations. */
  function NamedMigrations(catalog: seq<Descriptor>, limit: int): (r: seq<string>)
    ensures r <= NamedVersions(catalog)
    ensures 0 <= limit ==> |r| == if limit < |NamedVersions(catalog)| then limit else |NamedVersions(catalog)|
    ensures limit < 0 ==> |r| == if |NamedVersions(catalog)| + limit < 0 then 0 else |NamedVersions(catalog)| + limit
  {
    Seqs.Slice(NamedVersions(catalog), limit)
  }

  /** Index of the first descriptor whose version is `name` (`Array.find`), or |catalog|. */
  function FindIndex(catalog: seq<Descriptor>, name: string): (k: nat)
    ensures k <= |catalog|
    ensures forall j :: 0 <= j < k ==> catalog[j].version != name
    ensures k < |catalog| ==> catalog[k].version == name
  {
    if catalog == [] then 0
    else if catalog[0].version == name then 0
    else 1 + FindIndex(catalog[1..], name)
  }

  /** `loadMigration(name)` over the in-memory list: find, then check schema and version. */
  function LoadMigration(catalog: seq<Descriptor>, name: string): (r: Result<Migration, Error>)
    ensures r.Ok? ==> r.value.version == name && r.value.path == "memory"
  {
    var k := FindIndex(catalog, name);
    if k == |catalog| then Err(NotFound(name))
    else
      var d := catalog[k];
      if d.schema.None? then Err(MissingSchema(name))
      else if d.version == "" then Err(MissingVersion(name))
      else
        Ok(Migration(name, d.description, "memory", d.schema.value, d.up, d.down))
  }

  /** `loadMigration` fails with "not found" exactly when no descriptor has the version, with
      "missing a schema" exactly when the first one that has it declares none, and succeeds
      exactly when that first one declares a schema and the version is not empty; what it
      returns is that first descriptor's description, schema and bodies. */
  lemma LoadMigrationChecks(catalog: seq<Descriptor>, name: string)
    ensures var r := LoadMigration(catalog, name);
      && (r == Err(NotFound(name)) <==> forall i :: 0 <= i < |catalog| ==> catalog[i].version != name)
      && (r == Err(MissingSchema(name)) <==>
            exists i :: 0 <= i < |catalog| && catalog[i].version == name && catalog[i].schema.None? &&
                        forall j :: 0 <= j < i ==> catalog[j].version != name)
      && (r.Ok? <==>
            name != "" && exists i :: 0 <= i < |catalog| && catalog[i].version == name && catalog[i].schema.Some? &&
                                      forall j :: 0 <= j < i ==> catalog[j].version != name)
      && (r.Ok? ==>
            exists i :: 0 <= i < |catalog| && catalog[i].version == name &&
                        (forall j :: 0 <= j < i ==> catalog[j].version != name) &&
                        catalog[i].schema == Some(r.value.schema) &&
                        catalog[i].description == r.value.description &&
                        catalog[i].up == r.value.up && catalog[i].down == r.value.down)
  {
    var k := FindIndex(catalog, name);
    forall i | 0 <= i < |catalog| && catalog[i].version == name &&
               forall j :: 0 <= j < i ==> catalog[j].version != name
      ensures i == k
    {
    }
  }

  /** `loadMigration` as src/index.js:253-254 has it: the message of the missing-version error
      interpolates `version`, which is not declared in that scope, so building the message throws
      a ReferenceError in place of the intended error. */
  function LoadMigrationAsWritten(catalog: seq<Descriptor>, name: string): (r: Result<Migration, Error>)
    ensures LoadMigration(catalog, name) == Err(MissingVersion(name)) ==> r == Err(ReferenceError("version"))
    ensures LoadMigration(catalog, name) != Err(MissingVersion(name)) ==> r == LoadMigration(catalog, name)
  {
    var k := FindIndex(catalog, name);
    if k == |catalog| then Err(NotFound(name))
    else
      var d := catalog[k];
      if d.schema.None? then Err(MissingSchema(name))
      else if d.version == "" then Err(ReferenceError("version"))
      else
        Ok(Migration(name, d.description, "memory", d.schema.value, d.up, d.down))
  }

  /** A migration whose version is empty and that declares a schema, looked up by the empty name:
      the corrected load reports the missing version, the code as written throws a ReferenceError. */
  lemma MissingVersionMessageThrows(schema: string, up: Outcome, down: Outcome)
    ensures var catalog := [Descriptor("", "", Some(schema), up, down)];
      && LoadMigration(catalog, "") == Err(MissingVersion(""))
      && LoadMigrationAsWritten(catalog, "") == Err(ReferenceError("version"))
  {
    var catalog := [Descriptor("", "", Some(schema), up, down)];
    assert FindIndex(catalog, "") == 0;
  }

  /** The missing-version error is raised only for the empty name: a descriptor found by a
      non-empty name always carries a version. */
  lemma MissingVersionOnlyForEmptyName(catalog: seq<Descriptor>, name: string)
    ensures LoadMigration(catalog, name) == Err(MissingVersion(name)) <==>
      name == "" && FindIndex(catalog, name) < |catalog| && catalog[FindIndex(catalog, name)].schema.Some?
  {
  }

  /** Loads each of `vs` in turn; the first that does not load ends the list with its error. */
  function LoadAll(catalog: seq<Descriptor>, vs: seq<string>): (r: Result<seq<Migration>, Error>)
    ensures r.Ok? ==> |r.value| == |vs|
  {
    if vs == [] then Ok([])
    else
      match LoadMigration(catalog, vs[0])
      case Err(e) => Err(e)
      case Ok(m) =>
        match LoadAll(catalog, vs[1..])
        case Err(e) => Err(e)
        case Ok(ms) => Ok([m] + ms)
  }

  /** `ms` loaded before whatever `r` gives. */
  function Prefixed(ms: seq<Migration>, r: Result<seq<Migration>, Error>): Result<seq<Migration>, Error> {
    if r.Ok? then Ok(ms + r.value) else r
  }

  lemma PrefixedAppend(ms: seq<Migration>, m: Migration, r: Result<seq<Migration>, Error>)
    ensures Prefixed(ms, Prefixed([m], r)) == Prefixed(ms + [m], r)
  {
    if r.Ok? {
      assert ms + ([m] + r.value) == (ms + [m]) + r.value;
    }
  }

  /** The list loads in full exactly when every version loads, and then holds each version's
      migration at its index; otherwise the error is that of the first version that fails. */
  lemma {:induction false} LoadAllChecks(catalog: seq<Descriptor>, vs: seq<string>)
    ensures var r := LoadAll(catalog, vs);
      && (r.Ok? <==> forall i :: 0 <= i < |vs| ==> LoadMigration(catalog, vs[i]).Ok?)
      && (r.Ok? ==> forall i :: 0 <= i < |vs| ==> r.value[i] == LoadMigration(catalog, vs[i]).value)
      && (r.Err? ==>
            exists k :: 0 <= k < |vs| && LoadMigration(catalog, vs[k]) == Err(r.error) &&
                        forall j :: 0 <= j < k ==> LoadMigration(catalog, vs[j]).Ok?)
  {
    if vs != [] {
      LoadAllChecks(catalog, vs[1..]);
      var r := LoadAll(catalog, vs);
      var rest := LoadAll(catalog, vs[1..]);
      if LoadMigration(catalog, vs[0]).Err? {
        assert LoadMigration(catalog, vs[0]) == Err(r.error);
      } else if rest.Err? {
        var k :| 0 <= k < |vs[1..]| && LoadMigration(catalog, vs[1..][k]) == Err(rest.error) &&
                 forall j :: 0 <= j < k ==> LoadMigration(catalog, vs[1..][j]).Ok?;
        assert LoadMigration(catalog, vs[k + 1]) == Err(r.error);
        assert forall j :: 0 <= j < k + 1 ==> LoadMigration(catalog, vs[j]).Ok? by {
          forall j | 0 <= j < k + 1 ensures LoadMigration(catalog, vs[j]).Ok? {
            if j > 0 { assert vs[j] == vs[1..][j - 1]; }
          }
        }
      } else {
        forall i | 0 <= i < |vs| ensures r.value[i] == LoadMigration(catalog, vs[i]).value {
          if i > 0 { assert vs[i] == vs[1..][i - 1]; }
        }
      }
    }
  }
}
