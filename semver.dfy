/**
 * The two services the engine takes from the `semver` package, `valid` and
 * `compare`, over the grammar major.minor.patch[-prerelease] of Semantic
 * Versioning 2.0.0 (section 2 and section 9), ordered by the precedence rules of
 * its section 11.
 */
module Semver {
  import opened Wrappers
  import Seqs

  /** A pre-release identifier: numeric ones compare by value, the others as ASCII text. */
  datatype Ident = Num(n: nat) | Alpha(s: string)

  datatype Version = Version(major: nat, minor: nat, patch: nat, pre: seq<Ident>)

  predicate IsDigit(c: char) { '0' <= c <= '9' }

  predicate IsIdentChar(c: char) { IsDigit(c) || 'a' <= c <= 'z' || 'A' <= c <= 'Z' || c == '-' }

  predicate IsNumeral(s: string) { |s| > 0 && forall i :: 0 <= i < |s| ==> IsDigit(s[i]) }

  /** `0|[1-9][0-9]*`: a numeral without leading zeros. */
  predicate IsNumericIdentifier(s: string) { IsNumeral(s) && (|s| > 1 ==> s[0] != '0') }

  function NumeralValue(s: string): nat
    requires forall i :: 0 <= i < |s| ==> IsDigit(s[i])
  {
    if s == [] then 0
    else
      assert IsDigit(s[|s| - 1]);
      NumeralValue(s[..|s| - 1]) * 10 + (s[|s| - 1] as int - '0' as int)
  }

  /** `s.split(sep)`: the pieces between separators, so never an empty list. */
  function Split(s: string, sep: char): (parts: seq<string>)
    ensures |parts| >= 1
    ensures forall i :: 0 <= i < |parts| ==> sep !in parts[i]
  {
    if s == [] then [""]
    else
      var rest := Split(s[1..], sep);
      if s[0] == sep then [""] + rest
      else [[s[0]] + rest[0]] + rest[1..]
  }

  /** Putting the separators back gives the original string. */
  function Join(parts: seq<string>, sep: char): string
    requires |parts| >= 1
  {
    if |parts| == 1 then parts[0] else parts[0] + [sep] + Join(parts[1..], sep)
  }

  lemma {:induction false} JoinSplit(s: string, sep: char)
    ensures Join(Split(s, sep), sep) == s
  {
    if s != [] {
      JoinSplit(s[1..], sep);
      var rest := Split(s[1..], sep);
      if s[0] != sep && |rest| > 1 {
        assert Split(s, sep)[1..] == rest[1..];
      }
    }
  }

  /** Index of the first '-', or |s|: the main version ends there. */
  function DashIndex(s: string): (d: nat)
    ensures d <= |s|
    ensures forall i :: 0 <= i < d ==> s[i] != '-'
    ensures d < |s| ==> s[d] == '-'
  {
    if s == [] then 0
    else if s[0] == '-' then 0
    else 1 + DashIndex(s[1..])
  }

  function ParseIdent(p: string): (r: Option<Ident>)
    ensures r.Some? <==> p != [] && (forall i :: 0 <= i < |p| ==> IsIdentChar(p[i])) &&
                         (IsNumeral(p) ==> IsNumericIdentifier(p))
  {
    if IsNumeral(p) then
      if IsNumericIdentifier(p) then Some(Num(NumeralValue(p))) else None
    else if p != [] && forall i :: 0 <= i < |p| ==> IsIdentChar(p[i]) then Some(Alpha(p))
    else None
  }

  function ParseIdents(ps: seq<string>): (r: Option<seq<Ident>>)
    ensures r.Some? <==> forall i :: 0 <= i < |ps| ==> ParseIdent(ps[i]).Some?
    ensures r.Some? ==> |r.value| == |ps| &&
                        forall i :: 0 <= i < |ps| ==> r.value[i] == ParseIdent(ps[i]).value
  {
    if ps == [] then Some([])
    else
      var head, tail := ParseIdent(ps[0]), ParseIdents(ps[1..]);
      if head.Some? && tail.Some? then Some([head.value] + tail.value) else None
  }

  /** `semver.parse`: major.minor.patch, each a numeric identifier, then an optional
      '-' and a non-empty dot-separated list of pre-release identifiers. */
  function Parse(s: string): (r: Option<Version>)
  {
    var d := DashIndex(s);
    var core := Split(s[..d], '.');
    if |core| != 3 || !IsNumericIdentifier(core[0]) || !IsNumericIdentifier(core[1])
       || !IsNumericIdentifier(core[2]) then None
    else
      var pre := if d == |s| then Some([]) else ParseIdents(Split(s[d + 1..], '.'));
      if pre.None? then None
      else Some(Version(NumeralValue(core[0]), NumeralValue(core[1]), NumeralValue(core[2]), pre.value))
  }

  /** `semver.valid(s)` is truthy. */
  predicate IsValid(s: string) { Parse(s).Some? }

  lemma ZeroIsValid()
    ensures Parse("0.0.0") == Some(Version(0, 0, 0, []))
  {
    assert DashIndex("0.0.0") == 5;
    assert "0.0.0"[..5] == "0.0.0";
    assert Split("0.0.0", '.') == ["0", "0", "0"] by {
      assert Split("0", '.') == ["0"] by {
        assert "0"[1..] == "";
        assert Split("", '.') == [""];
        assert ['0'] + "" == "0";
      }
      assert Split(".0", '.') == ["", "0"] by { assert ".0"[1..] == "0"; }
      assert Split("0.0", '.') == ["0", "0"] by { assert "0.0"[1..] == ".0"; }
      assert Split(".0.0", '.') == ["", "0", "0"] by { assert ".0.0"[1..] == "0.0"; }
      assert "0.0.0"[1..] == ".0.0";
    }
    assert NumeralValue("0") == 0 by { assert "0"[..0] == ""; }
  }

  // ---- Precedence, section 11 ----

  function CompareNat(a: nat, b: nat): (r: int)
    ensures -1 <= r <= 1
    ensures r < 0 <==> a < b
    ensures r == 0 <==> a == b
  {
    if a < b then -1 else if a > b then 1 else 0
  }

  /** ASCII (code unit) order; a proper prefix comes first. */
  function CompareStrings(a: string, b: string): (r: int)
    ensures -1 <= r <= 1
  {
    if a == [] && b == [] then 0
    else if a == [] then -1
    else if b == [] then 1
    else if a[0] < b[0] then -1
    else if a[0] > b[0] then 1
    else CompareStrings(a[1..], b[1..])
  }

  lemma {:induction false} CompareStringsFlip(a: string, b: string)
    ensures CompareStrings(a, b) == -CompareStrings(b, a)
  {
    if a != [] && b != [] && a[0] == b[0] {
      CompareStringsFlip(a[1..], b[1..]);
    }
  }

  lemma {:induction false} CompareStringsZero(a: string, b: string)
    ensures CompareStrings(a, b) == 0 <==> a == b
  {
    if a != [] && b != [] && a[0] == b[0] {
      CompareStringsZero(a[1..], b[1..]);
      assert a == [a[0]] + a[1..] && b == [b[0]] + b[1..];
    }
  }

  lemma {:induction false} CompareStringsTrans(a: string, b: string, c: string)
    requires CompareStrings(a, b) < 0 && CompareStrings(b, c) < 0
    ensures CompareStrings(a, c) < 0
  {
    if a != [] && a[0] == b[0] && b[0] == c[0] {
      CompareStringsTrans(a[1..], b[1..], c[1..]);
    }
  }

  /** Numeric identifiers have lower precedence than alphanumeric ones (section 11.4.3). */
  function CompareIdent(a: Ident, b: Ident): (r: int)
    ensures -1 <= r <= 1
  {
    match (a, b)
    case (Num(x), Num(y)) => CompareNat(x, y)
    case (Num(_), Alpha(_)) => -1
    case (Alpha(_), Num(_)) => 1
    case (Alpha(x), Alpha(y)) => CompareStrings(x, y)
  }

  lemma CompareIdentLaws(a: Ident, b: Ident)
    ensures CompareIdent(a, b) == -CompareIdent(b, a)
    ensures CompareIdent(a, b) == 0 <==> a == b
  {
    if a.Alpha? && b.Alpha? {
      CompareStringsFlip(a.s, b.s);
      CompareStringsZero(a.s, b.s);
    }
  }

  lemma CompareIdentTrans(a: Ident, b: Ident, c: Ident)
    requires CompareIdent(a, b) < 0 && CompareIdent(b, c) < 0
    ensures CompareIdent(a, c) < 0
  {
    if a.Alpha? && b.Alpha? && c.Alpha? {
      CompareStringsTrans(a.s, b.s, c.s);
    }
  }

  /** Field by field; when all shared fields are equal the longer list wins (section 11.4.4). */
  function CompareIdents(a: seq<Ident>, b: seq<Ident>): (r: int)
    ensures -1 <= r <= 1
  {
    if a == [] && b == [] then 0
    else if a == [] then -1
    else if b == [] then 1
    else if CompareIdent(a[0], b[0]) != 0 then CompareIdent(a[0], b[0])
    else CompareIdents(a[1..], b[1..])
  }

  lemma {:induction false} CompareIdentsFlip(a: seq<Ident>, b: seq<Ident>)
    ensures CompareIdents(a, b) == -CompareIdents(b, a)
  {
    if a != [] && b != [] {
      CompareIdentLaws(a[0], b[0]);
      CompareIdentsFlip(a[1..], b[1..]);
    }
  }

  lemma {:induction false} CompareIdentsZero(a: seq<Ident>, b: seq<Ident>)
    ensures CompareIdents(a, b) == 0 <==> a == b
  {
    if a != [] && b != [] {
      CompareIdentLaws(a[0], b[0]);
      CompareIdentsZero(a[1..], b[1..]);
      assert a == [a[0]] + a[1..] && b == [b[0]] + b[1..];
    }
  }

  lemma {:induction false} CompareIdentsTrans(a: seq<Ident>, b: seq<Ident>, c: seq<Ident>)
    requires CompareIdents(a, b) < 0 && CompareIdents(b, c) < 0
    ensures CompareIdents(a, c) < 0
  {
    if a != [] && b != [] && c != [] {
      CompareIdentLaws(a[0], b[0]);
      CompareIdentLaws(b[0], c[0]);
      CompareIdentLaws(a[0], c[0]);
      if CompareIdent(a[0], b[0]) < 0 && CompareIdent(b[0], c[0]) < 0 {
        CompareIdentTrans(a[0], b[0], c[0]);
      } else if CompareIdent(a[0], b[0]) == 0 && CompareIdent(b[0], c[0]) == 0 {
        CompareIdentsTrans(a[1..], b[1..], c[1..]);
      }
    }
  }

  /** A version without pre-release fields outranks one with them (section 11.3). */
  function ComparePre(a: seq<Ident>, b: seq<Ident>): (r: int)
    ensures -1 <= r <= 1
  {
    if a == [] && b == [] then 0
    else if a == [] then 1
    else if b == [] then -1
    else CompareIdents(a, b)
  }

  /** Major, minor and patch numerically, then the pre-release part (section 11.2). */
  function CompareVersions(a: Version, b: Version): (r: int)
    ensures -1 <= r <= 1
  {
    if a.major != b.major then CompareNat(a.major, b.major)
    else if a.minor != b.minor then CompareNat(a.minor, b.minor)
    else if a.patch != b.patch then CompareNat(a.patch, b.patch)
    else ComparePre(a.pre, b.pre)
  }

  lemma CompareVersionsLaws(a: Version, b: Version)
    ensures CompareVersions(a, b) == -CompareVersions(b, a)
    ensures CompareVersions(a, b) == 0 <==> a == b
  {
    CompareIdentsFlip(a.pre, b.pre);
    CompareIdentsZero(a.pre, b.pre);
  }

  lemma CompareVersionsTrans(a: Version, b: Version, c: Version)
    requires CompareVersions(a, b) < 0 && CompareVersions(b, c) < 0
    ensures CompareVersions(a, c) < 0
  {
    CompareVersionsLaws(a, b);
    CompareVersionsLaws(b, c);
    if a.major == b.major == c.major && a.minor == b.minor == c.minor && a.patch == b.patch == c.patch {
      if a.pre != [] && b.pre != [] && c.pre != [] {
        CompareIdentsTrans(a.pre, b.pre, c.pre);
      }
    }
  }

  /** `semver.compare(a, b)`; the package throws on an invalid argument, so both must be valid. */
  function Compare(a: string, b: string): (r: int)
    requires IsValid(a) && IsValid(b)
    ensures -1 <= r <= 1
  {
    CompareVersions(Parse(a).value, Parse(b).value)
  }

  /** `compare(a, b) <= 0` between two valid versions: the order `sort(semver.compare)` produces. */
  predicate Le(a: string, b: string) {
    IsValid(a) && IsValid(b) && Compare(a, b) <= 0
  }

  /** The order a descending scan follows. */
  predicate Ge(a: string, b: string) { Le(b, a) }

  /** Swapping the arguments negates the comparison; a version equals itself. */
  lemma CompareFlip(a: string, b: string)
    requires IsValid(a) && IsValid(b)
    ensures Compare(a, b) == -Compare(b, a)
    ensures Compare(a, a) == 0
  {
    CompareVersionsLaws(Parse(a).value, Parse(b).value);
    CompareVersionsLaws(Parse(a).value, Parse(a).value);
  }

  /** Precedence is transitive, and strictly so when either step is strict. */
  lemma CompareTrans(a: string, b: string, c: string)
    requires IsValid(a) && IsValid(b) && IsValid(c)
    requires Compare(a, b) <= 0 && Compare(b, c) <= 0
    ensures Compare(a, c) <= 0
    ensures Compare(a, b) < 0 || Compare(b, c) < 0 ==> Compare(a, c) < 0
  {
    var x, y, z := Parse(a).value, Parse(b).value, Parse(c).value;
    CompareVersionsLaws(x, y);
    CompareVersionsLaws(y, z);
    CompareVersionsLaws(x, z);
    if CompareVersions(x, y) < 0 && CompareVersions(y, z) < 0 {
      CompareVersionsTrans(x, y, z);
    }
  }

  /** On valid versions `Le` is a total preorder, so the comparator sort is well behaved. */
  lemma LeIsTotalPreorder(s: seq<string>)
    requires forall i :: 0 <= i < |s| ==> IsValid(s[i])
    ensures Seqs.TotalPreorderOn(s, Le)
  {
    forall a, b | a in s && b in s ensures Le(a, b) || Le(b, a) {
      CompareFlip(a, b);
    }
    forall a, b, c | a in s && b in s && c in s && Le(a, b) && Le(b, c) ensures Le(a, c) {
      CompareTrans(a, b, c);
    }
  }

  /** `versions.sort(semver.compare)` orders any list of valid versions. */
  lemma SortOrdersVersions(s: seq<string>)
    requires forall i :: 0 <= i < |s| ==> IsValid(s[i])
    ensures Seqs.Sorted(Seqs.Sort(s, Le), Le)
  {
    LeIsTotalPreorder(s);
    Seqs.SortSorts(s, Le);
  }
}
