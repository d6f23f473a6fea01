/** `Array.prototype.sort()` without a comparator, applied to strings: the result is the
    same strings in ascending JavaScript string order. */
module Sorting {
  import opened Text

  /** Non-decreasing in JavaScript's string order. */
  predicate Sorted(s: seq<string>)
  {
    forall i, j :: 0 <= i < j < |s| ==> !Less(s[j], s[i])
  }

  predicate StrictlyAscending(s: seq<string>)
  {
    forall i, j :: 0 <= i < j < |s| ==> Less(s[i], s[j])
  }

  predicate Distinct<T(==)>(s: seq<T>)
  {
    forall i, j :: 0 <= i < j < |s| ==> s[i] != s[j]
  }

  /** `b` is at least `a` in JavaScript's string order. */
  lemma AtLeastTransitive(a: string, b: string, c: string)
    requires !Less(b, a) && !Less(c, b)
    ensures !Less(c, a)
  {
    LessTotal(a, b);
    LessTotal(b, c);
    if a != b && b != c {
      LessTransitive(a, b, c);
      LessAsymmetric(a, c);
    }
  }

  lemma ConsSorted(x: string, s: seq<string>)
    requires Sorted(s)
    requires forall y | y in s :: !Less(y, x)
    ensures Sorted([x] + s)
  {
    forall i, j | 0 <= i < j < |[x] + s| ensures !Less(([x] + s)[j], ([x] + s)[i]) {
      assert ([x] + s)[j] == s[j - 1];
      if i > 0 {
        assert ([x] + s)[i] == s[i - 1];
      }
    }
  }

  lemma ConsDistinct<T>(x: T, s: seq<T>)
    requires Distinct(s) && x !in s
    ensures Distinct([x] + s)
  {
    forall i, j | 0 <= i < j < |[x] + s| ensures ([x] + s)[i] != ([x] + s)[j] {
      assert ([x] + s)[j] == s[j - 1];
    }
  }

  /** Every element of a sorted `s` is at least `x` once its head is. */
  lemma BelowHead(x: string, s: seq<string>)
    requires Sorted(s) && s != [] && !Less(s[0], x)
    ensures forall y | y in s :: !Less(y, x)
  {
    forall y | y in s ensures !Less(y, x) {
      var j :| 0 <= j < |s| && s[j] == y;
      if j > 0 {
        AtLeastTransitive(x, s[0], s[j]);
      }
    }
  }

  /** The head of a sorted `s` stays first when `x` is inserted behind it. */
  lemma AboveHead(x: string, s: seq<string>, rest: seq<string>)
    requires Sorted(s) && s != [] && Less(s[0], x)
    requires multiset(rest) == multiset(s[1..]) + multiset{x}
    ensures forall y | y in rest :: !Less(y, s[0])
  {
    forall y | y in rest ensures !Less(y, s[0]) {
      assert y in multiset(rest);
      if y == x {
        LessAsymmetric(s[0], x);
      } else {
        assert y in multiset(s[1..]);
        var j :| 0 <= j < |s[1..]| && s[1..][j] == y;
        assert s[j + 1] == y;
      }
    }
  }

  /** Puts `x` into an already sorted sequence, after every string smaller than it. */
  function Insert(x: string, s: seq<string>): (r: seq<string>)
    requires Sorted(s)
    ensures Sorted(r)
    ensures multiset(r) == multiset(s) + multiset{x}
    ensures x !in s && Distinct(s) ==> Distinct(r)
  {
    if s == [] then
      [x]
    else if !Less(s[0], x) then
      BelowHead(x, s);
      ConsSorted(x, s);
      if x !in s && Distinct(s) then ConsDistinct(x, s); [x] + s else [x] + s
    else
      var rest := Insert(x, s[1..]);
      AboveHead(x, s, rest);
      ConsSorted(s[0], rest);
      assert s == [s[0]] + s[1..];
      if x !in s && Distinct(s) then
        assert s[0] !in multiset(rest);
        ConsDistinct(s[0], rest);
        [s[0]] + rest
      else
        [s[0]] + rest
  }

  /** Insertion sort: the model of the default string sort. */
  function Sort(s: seq<string>): (r: seq<string>)
    ensures Sorted(r)
    ensures multiset(r) == multiset(s)
    ensures Distinct(s) ==> Distinct(r)
  {
    if s == [] then
      []
    else
      var rest := Sort(s[1..]);
      assert s == [s[0]] + s[1..];
      assert Distinct(s) ==> s[0] !in multiset(rest);
      Insert(s[0], rest)
  }

  lemma SortedDistinctIsAscending(s: seq<string>)
    requires Sorted(s) && Distinct(s)
    ensures StrictlyAscending(s)
  {
    forall i, j | 0 <= i < j < |s| ensures Less(s[i], s[j]) {
      LessTotal(s[i], s[j]);
    }
  }

  /** A strictly ascending sequence is determined by its elements alone. */
  lemma {:induction false} AscendingUnique(a: seq<string>, b: seq<string>)
    requires StrictlyAscending(a) && StrictlyAscending(b)
    requires forall x :: x in a <==> x in b
    ensures a == b
  {
    if a != [] {
      assert a[0] in a;
    }
    if b != [] {
      assert b[0] in b;
    }
    if a != [] && b != [] {
      if a[0] != b[0] {
        var k :| 0 <= k < |b| && b[k] == a[0];
        var m :| 0 <= m < |a| && a[m] == b[0];
        LessAsymmetric(a[0], b[0]);
        assert false;
      }
      forall x ensures x in a[1..] <==> x in b[1..] {
        if x in a[1..] {
          var i :| 1 <= i < |a| && a[i] == x;
          LessIrreflexive(a[0]);
          assert x in a;
          var k :| 0 <= k < |b| && b[k] == x;
          assert k != 0;
          assert b[1..][k - 1] == x;
        }
        if x in b[1..] {
          var i :| 1 <= i < |b| && b[i] == x;
          LessIrreflexive(b[0]);
          assert x in b;
          var k :| 0 <= k < |a| && a[k] == x;
          assert k != 0;
          assert a[1..][k - 1] == x;
        }
      }
      AscendingUnique(a[1..], b[1..]);
      assert a == [a[0]] + a[1..] && b == [b[0]] + b[1..];
    }
  }
}
