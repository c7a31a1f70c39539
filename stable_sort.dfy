/**
 * JavaScript's `Array.prototype.sort(compare)`, which has been stable since
 * ES2019: its result is fixed by the comparison alone and equals that of a
 * stable insertion sort. `SortBy` states it as a function, `SortInPlace`
 * carries it out on an array. The comparison `le(x, y)` reads
 * "`compare(x, y) <= 0`".
 */
module StableSort {

  ghost predicate Total<T(!new)>(le: (T, T) -> bool) {
    forall x, y :: le(x, y) || le(y, x)
  }

  ghost predicate Transitive<T(!new)>(le: (T, T) -> bool) {
    forall x, y, z :: le(x, y) && le(y, z) ==> le(x, z)
  }

  ghost predicate Sorted<T>(s: seq<T>, le: (T, T) -> bool) {
    forall i, j :: 0 <= i < j < |s| ==> le(s[i], s[j])
  }

  /** `x` placed behind every trailing element that sorts strictly after it. */
  function Insert<T>(s: seq<T>, x: T, le: (T, T) -> bool): (r: seq<T>)
    ensures |r| == |s| + 1
  {
    if s == [] then [x]
    else if le(s[|s| - 1], x) then s + [x]
    else Insert(s[..|s| - 1], x, le) + [s[|s| - 1]]
  }

  /** The stable sort of `s` under `le`. */
  function SortBy<T>(s: seq<T>, le: (T, T) -> bool): (r: seq<T>)
    ensures |r| == |s|
  {
    if s == [] then [] else Insert(SortBy(s[..|s| - 1], le), s[|s| - 1], le)
  }

  lemma {:induction false} InsertMultiset<T>(s: seq<T>, x: T, le: (T, T) -> bool)
    ensures multiset(Insert(s, x, le)) == multiset(s) + multiset{x}
  {
    if s != [] && !le(s[|s| - 1], x) {
      InsertMultiset(s[..|s| - 1], x, le);
      assert s == s[..|s| - 1] + [s[|s| - 1]];
    }
  }

  /** The sort only reorders: the result is a permutation of its input. */
  lemma {:induction false} SortByPermutes<T>(s: seq<T>, le: (T, T) -> bool)
    ensures multiset(SortBy(s, le)) == multiset(s)
  {
    if s != [] {
      SortByPermutes(s[..|s| - 1], le);
      InsertMultiset(SortBy(s[..|s| - 1], le), s[|s| - 1], le);
      assert s == s[..|s| - 1] + [s[|s| - 1]];
    }
  }

  /** Where `x` lands: right after the last position whose element sorts at or before it. */
  lemma {:induction false} InsertAt<T>(s: seq<T>, x: T, le: (T, T) -> bool, j: nat)
    requires j <= |s|
    requires j > 0 ==> le(s[j - 1], x)
    requires forall k :: j <= k < |s| ==> !le(s[k], x)
    ensures Insert(s, x, le) == s[..j] + [x] + s[j..]
  {
    if j < |s| {
      var init, last := s[..|s| - 1], s[|s| - 1];
      assert !le(last, x);
      assert Insert(s, x, le) == Insert(init, x, le) + [last];
      assert j > 0 ==> le(init[j - 1], x);
      assert forall k :: j <= k < |init| ==> !le(init[k], x);
      InsertAt(init, x, le, j);
      assert init[..j] == s[..j];
      assert init[j..] + [last] == s[j..];
      assert init[..j] + [x] + init[j..] + [last] == s[..j] + [x] + s[j..];
    } else {
      assert s[..j] == s && s[j..] == [];
    }
  }

  lemma {:induction false} InsertSorted<T(!new)>(s: seq<T>, x: T, le: (T, T) -> bool)
    requires Total(le) && Transitive(le)
    requires Sorted(s, le)
    ensures Sorted(Insert(s, x, le), le)
  {
    if s != [] {
      var last := s[|s| - 1];
      if !le(last, x) {
        var init := s[..|s| - 1];
        InsertSorted(init, x, le);
        var ins := Insert(init, x, le);
        InsertMultiset(init, x, le);
        forall y | y in multiset(ins) ensures le(y, last) {
          if y != x {
            assert y in multiset(init);
            var k :| 0 <= k < |init| && init[k] == y;
            assert s[k] == y;
          }
        }
        var r := ins + [last];
        forall i, j | 0 <= i < j < |r| ensures le(r[i], r[j]) {
          if j == |ins| { assert r[i] in multiset(ins); }
        }
      }
    }
  }

  /** The sort yields a list ordered by `le`. */
  lemma {:induction false} SortBySorted<T(!new)>(s: seq<T>, le: (T, T) -> bool)
    requires Total(le) && Transitive(le)
    ensures Sorted(SortBy(s, le), le)
  {
    if s != [] {
      SortBySorted(s[..|s| - 1], le);
      InsertSorted(SortBy(s[..|s| - 1], le), s[|s| - 1], le);
    }
  }

  /** A list already in order is left exactly as it is: no two equal elements are swapped. */
  lemma {:induction false} SortByOfSorted<T>(s: seq<T>, le: (T, T) -> bool)
    requires Sorted(s, le)
    ensures SortBy(s, le) == s
  {
    if s != [] {
      var init := s[..|s| - 1];
      SortByOfSorted(init, le);
      if |s| > 1 { assert le(s[|s| - 2], s[|s| - 1]); }
      assert init + [s[|s| - 1]] == s;
    }
  }

  /** Sorting twice is sorting once. */
  lemma SortByIdempotent<T(!new)>(s: seq<T>, le: (T, T) -> bool)
    requires Total(le) && Transitive(le)
    ensures SortBy(SortBy(s, le), le) == SortBy(s, le)
  {
    SortBySorted(s, le);
    SortByOfSorted(SortBy(s, le), le);
  }

  /** `a.sort(compare)` in place: a stable insertion sort by adjacent swaps. */
  method SortInPlace<T>(a: array<T>, le: (T, T) -> bool)
    modifies a
    ensures a[..] == SortBy(old(a[..]), le)
  {
    ghost var orig := a[..];
    var i := 0;
    while i < a.Length
      invariant 0 <= i <= a.Length
      invariant a[..i] == SortBy(orig[..i], le)
      invariant a[i..] == orig[i..]
    {
      InsertLast(a, i, le);
      assert orig[..i + 1][..i] == orig[..i];
      i := i + 1;
    }
    assert a[..] == a[..a.Length];
    assert orig[..a.Length] == orig;
  }

  /** One pass of the insertion sort: `a[i]` is swapped leftwards into place among `a[..i]`. */
  method InsertLast<T>(a: array<T>, i: nat, le: (T, T) -> bool)
    requires i < a.Length
    modifies a
    ensures a[..i + 1] == Insert(old(a[..i]), old(a[i]), le)
    ensures a[i + 1..] == old(a[i + 1..])
  {
    ghost var sorted := a[..i];
    var x := a[i];
    var j := i;
    while j > 0 && !le(a[j - 1], x)
      invariant 0 <= j <= i
      invariant a[j] == x
      invariant forall k :: 0 <= k < j ==> a[k] == sorted[k]
      invariant forall k :: j < k <= i ==> a[k] == sorted[k - 1]
      invariant forall k :: j <= k < i ==> !le(sorted[k], x)
      invariant forall k :: i < k < a.Length ==> a[k] == old(a[k])
    {
      a[j - 1], a[j] := a[j], a[j - 1];
      j := j - 1;
    }
    InsertAt(sorted, x, le, j);
    ghost var expected := sorted[..j] + [x] + sorted[j..];
    forall k | 0 <= k < i + 1 ensures a[..i + 1][k] == expected[k] {
      if k < j {
        assert expected[k] == sorted[k];
      } else if k == j {
        assert expected[k] == x;
      } else {
        assert expected[k] == sorted[k - 1];
      }
    }
    assert a[..i + 1] == expected;
    assert a[i + 1..] == old(a[i + 1..]);
  }
}
