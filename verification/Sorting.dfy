/** Byte-wise string order and sorted key lists. On Unicode text the order of the
    UTF-8 bytes is the order of the code points. */
module Sorting {

  predicate Le(a: string, b: string) {
    if a == "" then true
    else if b == "" then false
    else if a[0] != b[0] then a[0] < b[0]
    else Le(a[1..], b[1..])
  }

  lemma {:induction false} LeTotal(a: string, b: string)
    ensures Le(a, b) || Le(b, a)
    ensures Le(a, b) && Le(b, a) ==> a == b
    ensures Le(a, a)
  {
    if a != "" {
      LeTotal(a[1..], a[1..]);
      if b != "" && a[0] == b[0] {
        LeTotal(a[1..], b[1..]);
        assert a == [a[0]] + a[1..] && b == [b[0]] + b[1..];
      }
    }
  }

  lemma {:induction false} LeTransitive(a: string, b: string, c: string)
    requires Le(a, b) && Le(b, c)
    ensures Le(a, c)
  {
    if a != "" && a[0] == b[0] == c[0] {
      LeTransitive(a[1..], b[1..], c[1..]);
    }
  }

  /** The texts agree on their first `n` characters, and then the first text ends or has the
      smaller character. */
  ghost predicate IsOrderedAt(a: string, b: string, n: nat) {
    && n <= |a| && n <= |b|
    && (forall i :: 0 <= i < n ==> a[i] == b[i])
    && (n == |a| || (n < |b| && a[n] < b[n]))
  }

  lemma {:induction false} OrderedPlace(a: string, b: string) returns (n: nat)
    requires Le(a, b)
    ensures IsOrderedAt(a, b, n)
  {
    if a == "" || a[0] != b[0] {
      n := 0;
    } else {
      var m := OrderedPlace(a[1..], b[1..]);
      n := m + 1;
      forall i | 0 <= i < n
        ensures a[i] == b[i]
      {
        assert i > 0 ==> a[i] == a[1..][i - 1] && b[i] == b[1..][i - 1];
      }
    }
  }

  lemma {:induction false} OrderedIsLe(a: string, b: string, n: nat)
    requires IsOrderedAt(a, b, n)
    ensures Le(a, b)
  {
    if a != "" && n > 0 {
      assert forall i :: 0 <= i < n - 1 ==> a[1..][i] == a[i + 1] && b[1..][i] == b[i + 1];
      OrderedIsLe(a[1..], b[1..], n - 1);
    }
  }

  /** The order is the lexicographic one. */
  lemma LeIsLexicographic(a: string, b: string)
    ensures Le(a, b) <==> exists n :: IsOrderedAt(a, b, n)
  {
    if Le(a, b) {
      var n := OrderedPlace(a, b);
    }
    if n :| IsOrderedAt(a, b, n) {
      OrderedIsLe(a, b, n);
    }
  }

  ghost predicate IsLeast(x: string, s: set<string>) {
    x in s && forall y :: y in s ==> Le(x, y)
  }

  lemma {:induction false} LeastExists(s: set<string>)
    requires s != {}
    ensures exists x :: IsLeast(x, s)
    decreases |s|
  {
    var a :| a in s;
    LeTotal(a, a);
    if s == {a} {
      assert IsLeast(a, s);
    } else {
      LeastExists(s - {a});
      var b :| IsLeast(b, s - {a});
      LeTotal(a, b);
      var x := if Le(a, b) then a else b;
      forall y | y in s
        ensures Le(x, y)
      {
        if y != a && x == a {
          LeTransitive(a, b, y);
        }
      }
      assert IsLeast(x, s);
    }
  }

  lemma LeastUnique(s: set<string>)
    ensures forall x, y :: x in s && y in s && Le(x, y) && Le(y, x) ==> x == y
  {
    forall x, y | x in s && y in s && Le(x, y) && Le(y, x)
      ensures x == y
    {
      LeTotal(x, y);
    }
  }

  function Least(s: set<string>): (x: string)
    requires s != {}
    ensures IsLeast(x, s)
  {
    LeastExists(s);
    LeastUnique(s);
    var x :| x in s && forall y :: y in s ==> Le(x, y);
    x
  }

  predicate Sorted(names: seq<string>) {
    forall i, j :: 0 <= i < j < |names| ==> Le(names[i], names[j])
  }

  predicate Distinct(names: seq<string>) {
    forall i, j :: 0 <= i < j < |names| ==> names[i] != names[j]
  }

  ghost predicate Lists(names: seq<string>, s: set<string>) {
    forall x :: x in names <==> x in s
  }

  /** The members of a set in ascending order. */
  function SortedKeys(s: set<string>): (names: seq<string>)
    ensures Sorted(names) && Distinct(names) && Lists(names, s)
    decreases |s|
  {
    if s == {} then []
    else
      var x := Least(s);
      var rest := SortedKeys(s - {x});
      assert forall i :: 0 <= i < |rest| ==> rest[i] in s - {x};
      [x] + rest
  }

  /** Only one list without repetitions is sorted and has the given members. */
  lemma {:induction false} SortedKeysUnique(names: seq<string>, s: set<string>)
    requires Sorted(names) && Distinct(names) && Lists(names, s)
    ensures names == SortedKeys(s)
    decreases |names|
  {
    if names == [] {
      assert forall x :: x in s ==> x in names;
    } else {
      assert names[0] in s;
      var x := Least(s);
      var i :| 0 <= i < |names| && names[i] == x;
      LeTotal(names[0], x);
      assert names[0] == x;
      forall y
        ensures y in names[1..] <==> y in s - {x}
      {
        assert names == [x] + names[1..];
      }
      SortedKeysUnique(names[1..], s - {x});
    }
  }

  lemma {:induction false} SortedKeysSize(s: set<string>)
    ensures |SortedKeys(s)| == |s|
    decreases |s|
  {
    if s != {} {
      SortedKeysSize(s - {Least(s)});
    }
  }

  /** `sort.Strings`. */
  method SortStrings(names: seq<string>) returns (sorted: seq<string>)
    ensures Sorted(sorted)
    ensures multiset(sorted) == multiset(names)
  {
    sorted := [];
    for n := 0 to |names|
      invariant Sorted(sorted)
      invariant multiset(sorted) == multiset(names[..n])
    {
      InsertKeeps(names[n], sorted);
      InsertSorts(names[n], sorted);
      sorted := Insert(names[n], sorted);
      assert names[..n + 1] == names[..n] + [names[n]];
    }
    assert names[..|names|] == names;
  }

  function Insert(x: string, sorted: seq<string>): seq<string> {
    if sorted == [] then [x]
    else if Le(x, sorted[0]) then [x] + sorted
    else [sorted[0]] + Insert(x, sorted[1..])
  }

  lemma {:induction false} InsertKeeps(x: string, sorted: seq<string>)
    ensures multiset(Insert(x, sorted)) == multiset(sorted) + multiset{x}
  {
    if sorted != [] {
      assert sorted == [sorted[0]] + sorted[1..];
      InsertKeeps(x, sorted[1..]);
    }
  }

  lemma {:induction false} InsertSorts(x: string, sorted: seq<string>)
    requires Sorted(sorted)
    ensures Sorted(Insert(x, sorted))
  {
    if sorted != [] {
      LeTotal(x, sorted[0]);
      if Le(x, sorted[0]) {
        forall i | 0 < i < |sorted|
          ensures Le(x, sorted[i])
        {
          LeTransitive(x, sorted[0], sorted[i]);
        }
      } else {
        InsertSorts(x, sorted[1..]);
        InsertKeeps(x, sorted[1..]);
        forall y | y in Insert(x, sorted[1..])
          ensures Le(sorted[0], y)
        {
          assert y in multiset(Insert(x, sorted[1..]));
        }
      }
    }
  }

  /** The names a map is ranged over, in the arbitrary order of the iteration. */
  method RangeKeys(s: set<string>) returns (names: seq<string>)
    ensures Distinct(names) && Lists(names, s)
  {
    names := [];
    var rest := s;
    while rest != {}
      invariant Distinct(names)
      invariant rest <= s
      invariant Lists(names, s - rest)
    {
      var x :| x in rest;
      names := names + [x];
      rest := rest - {x};
    }
  }

  lemma SortedPermutation(names: seq<string>, sorted: seq<string>, s: set<string>)
    requires Distinct(names) && Lists(names, s)
    requires Sorted(sorted) && multiset(sorted) == multiset(names)
    ensures sorted == SortedKeys(s)
  {
    forall x
      ensures x in sorted <==> x in s
    {
      assert x in multiset(sorted) <==> x in multiset(names);
    }
    DistinctCounts(names);
    forall i, j | 0 <= i < j < |sorted|
      ensures sorted[i] != sorted[j]
    {
      RepeatCounts(sorted, i, j);
    }
    SortedKeysUnique(sorted, s);
  }

  lemma RepeatCounts(names: seq<string>, i: nat, j: nat)
    requires i < j < |names|
    ensures names[i] == names[j] ==> multiset(names)[names[j]] >= 2
  {
    assert names == names[..j] + [names[j]] + names[j + 1..];
    assert names[i] in names[..j];
  }

  lemma {:induction false} DistinctCounts(names: seq<string>)
    requires Distinct(names)
    ensures forall x :: multiset(names)[x] <= 1
  {
    if names != [] {
      DistinctCounts(names[1..]);
      assert names == [names[0]] + names[1..];
    }
  }

  /** Collecting the keys of a map in any order and sorting them gives `SortedKeys`. */
  method SortedNames(s: set<string>) returns (names: seq<string>)
    ensures names == SortedKeys(s)
  {
    var collected := RangeKeys(s);
    names := SortStrings(collected);
    SortedPermutation(collected, names, s);
  }
}
