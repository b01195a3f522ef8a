/** Orderings used by the queries over the store: properties of a comparison,
    the ordinal order on strings, the least element of a finite set, the
    ascending enumeration of a set, a stable insertion sort and LINQ's `Take`. */
module Order {

  ghost predicate Total<T(!new)>(le: (T, T) -> bool) {
    forall a, b :: le(a, b) || le(b, a)
  }

  ghost predicate Transitive<T(!new)>(le: (T, T) -> bool) {
    forall a, b, c :: le(a, b) && le(b, c) ==> le(a, c)
  }

  ghost predicate Antisymmetric<T(!new)>(le: (T, T) -> bool) {
    forall a, b :: le(a, b) && le(b, a) ==> a == b
  }

  /** What an `OrderBy` key comparison must be: ties are allowed. */
  ghost predicate TotalPreorder<T(!new)>(le: (T, T) -> bool) {
    Total(le) && Transitive(le)
  }

  /** A comparison with no ties between different values. */
  ghost predicate TotalOrder<T(!new)>(le: (T, T) -> bool) {
    TotalPreorder(le) && Antisymmetric(le)
  }

  predicate SortedBy<T>(s: seq<T>, le: (T, T) -> bool) {
    forall i, j :: 0 <= i < j < |s| ==> le(s[i], s[j])
  }

  predicate NoDuplicates<T(==)>(s: seq<T>) {
    forall i, j :: 0 <= i < j < |s| ==> s[i] != s[j]
  }

  function IntLe(a: int, b: int): bool { a <= b }

  lemma IntLeIsTotalOrder()
    ensures TotalOrder(IntLe)
  {
  }

  /** Ordinal (code-point) comparison of strings: `a` is a prefix of `b`, or
      `a` has the smaller character at the first position where they differ. */
  predicate StrLe(a: string, b: string)
    decreases |a|
  {
    |a| == 0 || (|b| > 0 && (a[0] < b[0] || (a[0] == b[0] && StrLe(a[1..], b[1..]))))
  }

  lemma {:induction false} StrLeTotal(a: string, b: string)
    ensures StrLe(a, b) || StrLe(b, a)
    decreases |a|
  {
    if |a| > 0 && |b| > 0 && a[0] == b[0] {
      StrLeTotal(a[1..], b[1..]);
    }
  }

  lemma {:induction false} StrLeTransitive(a: string, b: string, c: string)
    requires StrLe(a, b) && StrLe(b, c)
    ensures StrLe(a, c)
    decreases |a|
  {
    if |a| > 0 && a[0] == b[0] && b[0] == c[0] {
      StrLeTransitive(a[1..], b[1..], c[1..]);
    }
  }

  lemma {:induction false} StrLeAntisymmetric(a: string, b: string)
    requires StrLe(a, b) && StrLe(b, a)
    ensures a == b
    decreases |a|
  {
    if |a| > 0 {
      StrLeAntisymmetric(a[1..], b[1..]);
      assert a == [a[0]] + a[1..];
      assert b == [b[0]] + b[1..];
    }
  }

  /** The ordinal string comparison has no ties between different strings. */
  lemma StrLeIsTotalOrder()
    ensures TotalOrder(StrLe)
  {
    forall a, b ensures StrLe(a, b) || StrLe(b, a) {
      StrLeTotal(a, b);
    }
    forall a, b, c | StrLe(a, b) && StrLe(b, c) ensures StrLe(a, c) {
      StrLeTransitive(a, b, c);
    }
    forall a, b | StrLe(a, b) && StrLe(b, a) ensures a == b {
      StrLeAntisymmetric(a, b);
    }
  }

  /** `m` is an element of `ks` that comes no later than any other. */
  predicate IsLeast<T(==)>(m: T, ks: set<T>, le: (T, T) -> bool) {
    m in ks && forall k :: k in ks ==> le(m, k)
  }

  lemma {:induction false} LeastExists<T(!new)>(ks: set<T>, le: (T, T) -> bool)
    requires ks != {} && TotalPreorder(le)
    ensures exists m :: IsLeast(m, ks, le)
    decreases |ks|
  {
    var x :| x in ks;
    if ks == {x} {
      assert le(x, x) || le(x, x);
      assert IsLeast(x, ks, le);
    } else {
      LeastExists(ks - {x}, le);
      var m :| IsLeast(m, ks - {x}, le);
      if le(m, x) {
        assert IsLeast(m, ks, le);
      } else {
        assert le(x, m);
        forall k | k in ks ensures le(x, k) {
          if k != x {
            assert le(x, m) && le(m, k);
          } else {
            assert le(x, x) || le(x, x);
          }
        }
        assert IsLeast(x, ks, le);
      }
    }
  }

  /** The least element of a non-empty finite set under a total order. */
  function Least<T(!new)>(ks: set<T>, le: (T, T) -> bool): (m: T)
    requires ks != {} && TotalOrder(le)
    ensures m in ks
    ensures forall k :: k in ks ==> le(m, k)
  {
    LeastExists(ks, le);
    var m :| IsLeast(m, ks, le);
    m
  }

  /** The elements of a finite set in ascending order. */
  function Ascending<T(!new)>(ks: set<T>, le: (T, T) -> bool): (r: seq<T>)
    requires TotalOrder(le)
    ensures |r| == |ks|
    ensures forall k :: k in r <==> k in ks
    ensures SortedBy(r, le)
    ensures NoDuplicates(r)
    decreases |ks|
  {
    if ks == {} then []
    else
      var m := Least(ks, le);
      var rest := Ascending(ks - {m}, le);
      [m] + rest
  }

  /** Inserts `x` in front of the first element it does not come after, so
      that elements that compare equal keep their original order. */
  function Insert<T(!new)>(x: T, s: seq<T>, le: (T, T) -> bool): (r: seq<T>)
    requires TotalPreorder(le)
    requires SortedBy(s, le)
    ensures SortedBy(r, le)
    ensures multiset(r) == multiset(s) + multiset{x}
  {
    if s == [] then [x]
    else if le(x, s[0]) then [x] + s
    else
      var rest := Insert(x, s[1..], le);
      assert multiset(s) == multiset{s[0]} + multiset(s[1..]) by {
        assert s == [s[0]] + s[1..];
      }
      assert forall y :: y in multiset(rest) ==> le(s[0], y) by {
        forall y | y in multiset(rest) ensures le(s[0], y) {
          assert y in multiset(s[1..]) || y == x;
          if y != x {
            var j :| 0 <= j < |s[1..]| && s[1..][j] == y;
            assert s[1 + j] == y;
          }
        }
      }
      assert forall j :: 0 <= j < |rest| ==> rest[j] in multiset(rest);
      [s[0]] + rest
  }

  /** A stable insertion sort: the result is ordered by `le` and is a
      permutation of the input. */
  function Sort<T(!new)>(s: seq<T>, le: (T, T) -> bool): (r: seq<T>)
    requires TotalPreorder(le)
    ensures SortedBy(r, le)
    ensures multiset(r) == multiset(s)
    ensures |r| == |s|
  {
    if s == [] then []
    else
      assert s == [s[0]] + s[1..];
      var r := Insert(s[0], Sort(s[1..], le), le);
      assert |r| == |multiset(r)|;
      r
  }

  /** The number of rows `Take(n)` keeps out of `total`. */
  function Kept(n: int, total: nat): nat {
    if n <= 0 then 0 else if n < total then n else total
  }

  /** LINQ `Take(n)`: the first `n` elements, all of them when there are
      fewer, none when `n` is zero or negative. */
  function Take<T>(s: seq<T>, n: int): (r: seq<T>)
    ensures |r| == Kept(n, |s|)
    ensures r == s[..|r|]
  {
    if n <= 0 then [] else if n < |s| then s[..n] else s
  }

  /** What is left out by `Take` comes no earlier in the order than the last
      element kept. */
  lemma TakeOfSortedKeepsSmallest<T>(s: seq<T>, n: int, le: (T, T) -> bool)
    requires SortedBy(s, le)
    requires 0 < |Take(s, n)|
    ensures var r := Take(s, n);
            forall y :: y in multiset(s) - multiset(r) ==> le(r[|r| - 1], y)
  {
    var r := Take(s, n);
    var rest := s[|r|..];
    assert s == r + rest;
    assert multiset(s) - multiset(r) == multiset(rest);
    forall y | y in multiset(rest) ensures le(r[|r| - 1], y) {
      var j :| 0 <= j < |rest| && rest[j] == y;
      assert s[|r| + j] == y;
    }
  }

  /** A sequence without repeated elements holds each value at most once. */
  lemma {:induction false} NoDuplicatesCountsAtMostOne<T>(s: seq<T>, x: T)
    requires NoDuplicates(s)
    ensures multiset(s)[x] <= 1
    decreases |s|
  {
    if s != [] {
      assert s == [s[0]] + s[1..];
      assert NoDuplicates(s[1..]);
      NoDuplicatesCountsAtMostOne(s[1..], x);
      if x == s[0] {
        assert x !in s[1..];
      }
    }
  }

  /** A value at two positions occurs at least twice. */
  lemma RepeatCountsTwice<T>(s: seq<T>, i: int, j: int)
    requires 0 <= i < j < |s| && s[i] == s[j]
    ensures multiset(s)[s[i]] >= 2
  {
    assert s == s[..j] + s[j..];
    assert s[i] == s[..j][i];
    assert s[j] == s[j..][0];
  }

  /** Rearranging a sequence without repeated elements introduces none. */
  lemma PermutationKeepsNoDuplicates<T>(a: seq<T>, b: seq<T>)
    requires NoDuplicates(a) && multiset(a) == multiset(b)
    ensures NoDuplicates(b)
  {
    forall i, j | 0 <= i < j < |b| ensures b[i] != b[j] {
      if b[i] == b[j] {
        RepeatCountsTwice(b, i, j);
        NoDuplicatesCountsAtMostOne(a, b[i]);
        assert false;
      }
    }
  }

  /** LINQ `OrderBy(key).Take(n)` for a key comparison `le`: the `n` first
      rows in `le` order. The body keeps ties in their original order, which
      is one of the orders SQL Server's `ORDER BY ... TOP` may return; that
      order leaves ties unspecified, and so does this contract. The result is
      ordered, is drawn from `rows`, has the length `Take` promises, nothing
      left out comes before the last row kept, and no row is repeated unless
      `rows` repeats it. */
  function TopN<T(!new)>(rows: seq<T>, le: (T, T) -> bool, n: int): (r: seq<T>)
    requires TotalPreorder(le)
    ensures |r| == Kept(n, |rows|)
    ensures SortedBy(r, le)
    ensures multiset(r) <= multiset(rows)
    ensures forall y :: y in r ==> y in rows
    ensures |r| > 0 ==> forall y :: y in multiset(rows) - multiset(r) ==> le(r[|r| - 1], y)
    ensures NoDuplicates(rows) ==> NoDuplicates(r)
  {
    var r := Take(Sort(rows, le), n);
    TopNOrder(rows, le, n, r);
    TopNContents(rows, le, n, r);
    r
  }

  /** A prefix of an ordered sequence is ordered, and nothing after it comes
      before its last element. */
  lemma TakeOfSorted<T>(sorted: seq<T>, le: (T, T) -> bool, n: int, r: seq<T>)
    requires SortedBy(sorted, le) && r == Take(sorted, n)
    ensures SortedBy(r, le)
    ensures |r| > 0 ==> forall y :: y in multiset(sorted) - multiset(r) ==> le(r[|r| - 1], y)
  {
    forall i, j | 0 <= i < j < |r| ensures le(r[i], r[j]) {
      assert r[i] == sorted[i] && r[j] == sorted[j];
    }
    if |r| > 0 {
      TakeOfSortedKeepsSmallest(sorted, n, le);
    }
  }

  /** The rows `TopN` keeps are as many as `Take` keeps, in order, and
      none left behind comes before the last one kept. */
  lemma TopNOrder<T(!new)>(rows: seq<T>, le: (T, T) -> bool, n: int, r: seq<T>)
    requires TotalPreorder(le) && r == Take(Sort(rows, le), n)
    ensures |r| == Kept(n, |rows|)
    ensures SortedBy(r, le)
    ensures |r| > 0 ==> forall y :: y in multiset(rows) - multiset(r) ==> le(r[|r| - 1], y)
  {
    TakeOfSorted(Sort(rows, le), le, n, r);
  }

  /** A prefix of a rearrangement of `rows` is drawn from `rows`, and
      repeats none that `rows` does not repeat. */
  lemma TakeOfPermutation<T>(rows: seq<T>, sorted: seq<T>, n: int, r: seq<T>)
    requires multiset(sorted) == multiset(rows) && r == Take(sorted, n)
    ensures multiset(r) <= multiset(rows)
    ensures forall y :: y in r ==> y in rows
    ensures NoDuplicates(rows) ==> NoDuplicates(r)
  {
    assert sorted == r + sorted[|r|..];
    assert multiset(sorted) == multiset(r) + multiset(sorted[|r|..]);
    if NoDuplicates(rows) {
      PermutationKeepsNoDuplicates(rows, sorted);
      forall i, j | 0 <= i < j < |r| ensures r[i] != r[j] {
        assert r[i] == sorted[i] && r[j] == sorted[j];
      }
    }
    assert forall y :: y in r ==> y in multiset(rows);
  }

  /** The rows `TopN` keeps are drawn from `rows`, and repeat none that
      `rows` does not repeat. */
  lemma TopNContents<T(!new)>(rows: seq<T>, le: (T, T) -> bool, n: int, r: seq<T>)
    requires TotalPreorder(le) && r == Take(Sort(rows, le), n)
    ensures multiset(r) <= multiset(rows)
    ensures forall y :: y in r ==> y in rows
    ensures NoDuplicates(rows) ==> NoDuplicates(r)
  {
    TakeOfPermutation(rows, Sort(rows, le), n, r);
  }

  /** A row that every other row comes strictly after is the single row
      `TopN(rows, le, 1)` keeps. */
  lemma TopOneIsStrictMinimum<T(!new)>(rows: seq<T>, le: (T, T) -> bool, x: T)
    requires TotalPreorder(le) && x in rows
    requires forall y :: y in rows && le(y, x) ==> y == x
    ensures TopN(rows, le, 1) == [x]
  {
    var r := TopN(rows, le, 1);
    assert |r| == 1;
    assert r == [r[0]];
    assert r[0] == x || x in multiset(rows) - multiset(r);
  }
}
