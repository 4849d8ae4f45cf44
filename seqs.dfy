/**
 * The array operations the engine relies on, stated over sequences:
 * `filter`, a comparator-driven `sort`, and JavaScript's `slice(0, end)`.
 */
module Seqs {

  /** `s.filter(p)`: the elements of `s` satisfying `p`, in their original order. */
  function Filter<T>(s: seq<T>, p: T -> bool): (r: seq<T>)
    ensures |r| <= |s|
  {
    if s == [] then []
    else
      assert s == [s[0]] + s[1..];
      (if p(s[0]) then [s[0]] else []) + Filter(s[1..], p)
  }

  /** `filter` keeps exactly the elements satisfying `p`. */
  lemma {:induction false} FilterMembers<T>(s: seq<T>, p: T -> bool)
    ensures forall x :: x in Filter(s, p) <==> x in s && p(x)
    ensures forall i :: 0 <= i < |Filter(s, p)| ==> Filter(s, p)[i] in s && p(Filter(s, p)[i])
  {
    if s != [] {
      FilterMembers(s[1..], p);
      assert s == [s[0]] + s[1..];
      forall x ensures x in s <==> x == s[0] || x in s[1..] { }
    }
  }

  /** The positions of `s` whose elements satisfy `p`, ascending. */
  function Kept<T>(s: seq<T>, p: T -> bool): (k: seq<nat>)
    ensures |k| <= |s|
    ensures forall i :: 0 <= i < |k| ==> k[i] < |s| && p(s[k[i]])
    ensures forall i, j :: 0 <= i < j < |k| ==> k[i] < k[j]
    ensures forall j :: 0 <= j < |s| && p(s[j]) ==> j in k
    decreases |s|
  {
    if s == [] then []
    else
      var n := |s| - 1;
      var init := Kept(s[..n], p);
      assert forall j :: 0 <= j < n ==> s[..n][j] == s[j];
      init + (if p(s[n]) then [n] else [])
  }

  /** Filtering one more element at the end. */
  lemma {:induction false} FilterSnoc<T>(s: seq<T>, x: T, p: T -> bool)
    ensures Filter(s + [x], p) == Filter(s, p) + (if p(x) then [x] else [])
  {
    if s != [] {
      FilterSnoc(s[1..], x, p);
      assert (s + [x])[1..] == s[1..] + [x];
    }
  }

  /** `filter` keeps the elements at the positions `Kept` lists, in that order: so it keeps
      the original order and skips exactly the elements failing `p`. */
  lemma {:induction false} FilterKept<T>(s: seq<T>, p: T -> bool)
    ensures |Filter(s, p)| == |Kept(s, p)|
    ensures forall i :: 0 <= i < |Kept(s, p)| ==> Filter(s, p)[i] == s[Kept(s, p)[i]]
    decreases |s|
  {
    if s != [] {
      var n := |s| - 1;
      FilterKept(s[..n], p);
      assert s == s[..n] + [s[n]];
      FilterSnoc(s[..n], s[n], p);
    }
  }

  /** Splitting a sequence by a predicate and its negation loses and invents nothing. */
  lemma {:induction false} FilterPartition<T>(s: seq<T>, p: T -> bool, q: T -> bool)
    requires forall x :: q(x) == !p(x)
    ensures multiset(Filter(s, p)) + multiset(Filter(s, q)) == multiset(s)
  {
    if s != [] {
      var a := Filter(s[1..], p);
      var b := Filter(s[1..], q);
      FilterPartition(s[1..], p, q);
      assert multiset(s) == multiset{s[0]} + multiset(s[1..]) by {
        assert s == [s[0]] + s[1..];
      }
      if p(s[0]) {
        assert Filter(s, p) == [s[0]] + a;
        assert Filter(s, q) == b by { assert !q(s[0]); }
        calc {
          multiset(Filter(s, p)) + multiset(Filter(s, q));
          multiset{s[0]} + multiset(a) + multiset(b);
          multiset(s);
        }
      } else {
        assert Filter(s, p) == a;
        assert Filter(s, q) == [s[0]] + b by { assert q(s[0]); }
        calc {
          multiset(Filter(s, p)) + multiset(Filter(s, q));
          multiset(a) + (multiset{s[0]} + multiset(b));
          multiset(s);
        }
      }
    }
  }

  /** Every pair of positions is in order (not only neighbours). */
  ghost predicate Sorted<T>(s: seq<T>, le: (T, T) -> bool) {
    forall i, j :: 0 <= i < j < |s| ==> le(s[i], s[j])
  }

  /** `le` is a total preorder on the elements of `s`. */
  ghost predicate TotalPreorderOn<T>(s: seq<T>, le: (T, T) -> bool) {
    && (forall a, b :: a in s && b in s ==> le(a, b) || le(b, a))
    && (forall a, b, c :: a in s && b in s && c in s && le(a, b) && le(b, c) ==> le(a, c))
  }

  /** Filtering a sorted sequence leaves it sorted. */
  lemma FilterKeepsSorted<T>(s: seq<T>, p: T -> bool, le: (T, T) -> bool)
    requires Sorted(s, le)
    ensures Sorted(Filter(s, p), le)
  {
    if s != [] {
      var tail := s[1..];
      FilterKeepsSorted(tail, p, le);
      FilterMembers(tail, p);
      var rest := Filter(tail, p);
      forall j | 0 <= j < |rest| ensures le(s[0], rest[j]) {
        assert rest[j] in rest;
        assert rest[j] in tail;
        var k :| 0 <= k < |tail| && tail[k] == rest[j];
        assert s[k + 1] == rest[j];
      }
    }
  }

  /** Inserts `x` in front of the first element it is not above. */
  function Insert<T>(x: T, s: seq<T>, le: (T, T) -> bool): (r: seq<T>)
    ensures multiset(r) == multiset(s) + multiset{x}
  {
    if s == [] then [x]
    else if le(x, s[0]) then [x] + s
    else
      assert s == [s[0]] + s[1..];
      [s[0]] + Insert(x, s[1..], le)
  }

  lemma {:induction false} InsertKeepsSorted<T>(x: T, s: seq<T>, le: (T, T) -> bool)
    requires TotalPreorderOn([x] + s, le)
    requires Sorted(s, le)
    ensures Sorted(Insert(x, s, le), le)
  {
    if s == [] {
    } else if le(x, s[0]) {
      forall j | 0 <= j < |s| ensures le(x, s[j]) {
        if j > 0 {
          assert x in [x] + s && s[0] in [x] + s && s[j] in [x] + s;
        }
      }
    } else {
      var tail := s[1..];
      assert forall a :: a in [x] + tail ==> a in [x] + s;
      InsertKeepsSorted(x, tail, le);
      var rest := Insert(x, tail, le);
      assert le(s[0], x) by {
        assert x in [x] + s && s[0] in [x] + s;
      }
      forall j | 0 <= j < |rest| ensures le(s[0], rest[j]) {
        assert rest[j] in multiset(rest);
        if rest[j] != x {
          assert rest[j] in multiset(tail);
          var k :| 0 <= k < |tail| && tail[k] == rest[j];
          assert s[k + 1] == rest[j];
        }
      }
    }
  }

  /** `s.sort(cmp)` where `le(a, b)` holds when `cmp(a, b) <= 0`. */
  function Sort<T>(s: seq<T>, le: (T, T) -> bool): (r: seq<T>)
    ensures multiset(r) == multiset(s)
  {
    if s == [] then []
    else
      assert s == [s[0]] + s[1..];
      Insert(s[0], Sort(s[1..], le), le)
  }

  /** The comparator sort orders the sequence whenever `le` is a total preorder on it. */
  lemma {:induction false} SortSorts<T>(s: seq<T>, le: (T, T) -> bool)
    requires TotalPreorderOn(s, le)
    ensures Sorted(Sort(s, le), le)
  {
    if s != [] {
      assert forall a :: a in s[1..] ==> a in s;
      SortSorts(s[1..], le);
      var rest := Sort(s[1..], le);
      assert forall a :: a in [s[0]] + rest ==> a in s by {
        forall a | a in [s[0]] + rest ensures a in s {
          if a != s[0] {
            assert a in multiset(rest);
            assert a in multiset(s[1..]);
          }
        }
      }
      InsertKeepsSorted(s[0], rest, le);
    }
  }

  /** Sequences with equal multisets have the same members. */
  lemma SameMembers<T>(a: seq<T>, b: seq<T>)
    requires multiset(a) == multiset(b)
    ensures forall x :: x in a <==> x in b
  {
    forall x ensures x in a <==> x in b {
      assert x in a <==> x in multiset(a);
      assert x in b <==> x in multiset(b);
    }
  }

  /** Sorting what is already in order changes nothing. */
  lemma {:induction false} SortOfSorted<T>(s: seq<T>, le: (T, T) -> bool)
    requires Sorted(s, le)
    ensures Sort(s, le) == s
  {
    if s != [] {
      SortOfSorted(s[1..], le);
      assert s == [s[0]] + s[1..];
    }
  }

  /** `s.reverse()`. */
  function Reverse<T>(s: seq<T>): (r: seq<T>)
    ensures |r| == |s|
    ensures forall i :: 0 <= i < |s| ==> r[i] == s[|s| - 1 - i]
  {
    if s == [] then [] else Reverse(s[1..]) + [s[0]]
  }

  /** Reversing an ascending sequence gives one that descends by the same order. */
  lemma ReverseSorted<T>(s: seq<T>, le: (T, T) -> bool, ge: (T, T) -> bool)
    requires Sorted(s, le)
    requires forall a, b :: ge(a, b) == le(b, a)
    ensures Sorted(Reverse(s), ge)
  {
    var r := Reverse(s);
    forall i, j | 0 <= i < j < |r| ensures ge(r[i], r[j]) {
      assert le(s[|s| - 1 - j], s[|s| - 1 - i]);
    }
  }

  lemma ReverseMembers<T>(s: seq<T>)
    ensures forall x :: x in Reverse(s) <==> x in s
  {
    var r := Reverse(s);
    forall x ensures x in r <==> x in s {
      if x in s {
        var i :| 0 <= i < |s| && s[i] == x;
        assert r[|s| - 1 - i] == x;
      }
    }
  }

  /** The element count of `s.slice(0, end)`: a negative `end` counts back from the end. */
  function SliceEnd(len: nat, end: int): (n: nat)
    ensures n <= len
    ensures 0 <= end ==> n == if end < len then end else len
    ensures end < 0 ==> n == if len + end < 0 then 0 else len + end
  {
    if end < 0 then (if len + end < 0 then 0 else len + end)
    else if end < len then end else len
  }

  /** `s.slice(0, end)`. */
  function Slice<T>(s: seq<T>, end: int): (r: seq<T>)
    ensures r <= s
    ensures 0 <= end ==> |r| == if end < |s| then end else |s|
    ensures end < 0 ==> |r| == if |s| + end < 0 then 0 else |s| + end
  {
    s[..SliceEnd(|s|, end)]
  }

  /** A longer limit only extends the slice. */
  lemma SliceMonotone<T>(s: seq<T>, end1: int, end2: int)
    requires 0 <= end1 <= end2
    ensures Slice(s, end1) <= Slice(s, end2)
  {
    assert SliceEnd(|s|, end1) <= SliceEnd(|s|, end2);
  }

  lemma PrefixKeepsSorted<T>(s: seq<T>, n: nat, le: (T, T) -> bool)
    requires n <= |s| && Sorted(s, le)
    ensures Sorted(s[..n], le)
  {
  }

  lemma AppendAssoc<T>(a: seq<T>, b: seq<T>, c: seq<T>)
    ensures (a + b) + c == a + (b + c)
  {
  }
}
