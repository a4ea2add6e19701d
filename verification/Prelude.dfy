/** Failure-compatible result types used by every component. */
module Wrappers {
  datatype Option<+T> = None | Some(value: T) {
    predicate IsFailure() {
      None?
    }

    function PropagateFailure<U>(): Option<U>
      requires None?
    {
      None
    }

    function Extract(): T
      requires Some?
    {
      value
    }
  }

  datatype Result<+T, +E> = Success(value: T) | Failure(error: E)
}

/** Powers of two, the only arithmetic the bit-level components share. */
module Powers {
  function Pow2(n: nat): (r: nat)
    ensures r >= 1
  {
    if n == 0 then 1 else 2 * Pow2(n - 1)
  }

  lemma {:induction false} Pow2Add(m: nat, n: nat)
    ensures Pow2(m + n) == Pow2(m) * Pow2(n)
  {
    if m > 0 {
      Pow2Add(m - 1, n);
      DoubleProduct(Pow2(m - 1), Pow2(n));
    }
  }

  lemma DoubleProduct(a: nat, b: nat)
    ensures 2 * (a * b) == (2 * a) * b
  {
  }

  lemma {:induction false} Pow2Monotone(m: nat, n: nat)
    requires m <= n
    ensures Pow2(m) <= Pow2(n)
  {
    if m < n {
      Pow2Monotone(m, n - 1);
    }
  }
}

/** Listing a finite set in the order a total comparison prescribes. */
module Ordering {
  ghost predicate TotalPreorder<T(!new)>(le: (T, T) -> bool) {
    && (forall x, y :: le(x, y) || le(y, x))
    && (forall x, y, z :: le(x, y) && le(y, z) ==> le(x, z))
  }

  ghost predicate TotalOrder<T(!new)>(le: (T, T) -> bool) {
    TotalPreorder(le) && forall x, y :: le(x, y) && le(y, x) ==> x == y
  }

  ghost predicate IsLeast<T(!new)>(le: (T, T) -> bool, m: T, s: set<T>) {
    m in s && forall x :: x in s ==> le(m, x)
  }

  lemma {:induction false} LeastExists<T(!new)>(le: (T, T) -> bool, s: set<T>)
    requires TotalOrder(le) && s != {}
    ensures exists m :: IsLeast(le, m, s)
  {
    var x :| x in s;
    if s == {x} {
      assert IsLeast(le, x, s);
    } else {
      LeastExists(le, s - {x});
      var m :| IsLeast(le, m, s - {x});
      if le(m, x) {
        assert IsLeast(le, m, s);
      } else {
        assert IsLeast(le, x, s);
      }
    }
  }

  /** The unique ascending listing of `s`: what sorting any enumeration of `s` yields. */
  ghost function Sorted<T(!new)>(le: (T, T) -> bool, s: set<T>): (r: seq<T>)
    requires TotalOrder(le)
    ensures |r| == |s| && (forall x :: x in r <==> x in s)
    ensures forall i, j :: 0 <= i < j < |r| ==> r[i] != r[j] && le(r[i], r[j])
  {
    if s == {} then []
    else
      LeastExists(le, s);
      var m :| IsLeast(le, m, s);
      [m] + Sorted(le, s - {m})
  }

  lemma {:induction false} SortedUnique<T(!new)>(le: (T, T) -> bool, r: seq<T>, q: seq<T>)
    requires TotalOrder(le)
    requires forall x :: x in r <==> x in q
    requires forall i, j :: 0 <= i < j < |r| ==> r[i] != r[j] && le(r[i], r[j])
    requires forall i, j :: 0 <= i < j < |q| ==> q[i] != q[j] && le(q[i], q[j])
    ensures r == q
  {
    if r == [] {
      assert forall i :: 0 <= i < |q| ==> q[i] in r;
    } else {
      assert r[0] in q;
      assert q[0] in r;
      assert r[0] == q[0];
      forall x ensures x in r[1..] <==> x in q[1..] {
        assert x in r <==> x == r[0] || x in r[1..];
        assert x in q <==> x == q[0] || x in q[1..];
      }
      SortedUnique(le, r[1..], q[1..]);
    }
  }

  lemma EmptyOrMember<T>(s: seq<T>)
    ensures s == [] || exists x :: x in s
  {
    if s != [] {
      assert s[0] in s;
    }
  }

  function InsertInto<T>(le: (T, T) -> bool, x: T, s: seq<T>): seq<T> {
    if s == [] || le(x, s[0]) then [x] + s else [s[0]] + InsertInto(le, x, s[1..])
  }

  /** What the standard library's sort does to a list. */
  function SortBy<T>(le: (T, T) -> bool, s: seq<T>): seq<T> {
    if s == [] then [] else InsertInto(le, s[0], SortBy(le, s[1..]))
  }

  function Max(m: nat, n: nat): nat {
    if m < n then n else m
  }

  ghost predicate SameMembers<T(!new)>(xs: seq<T>, ys: seq<T>) {
    forall x :: x in xs <==> x in ys
  }

  ghost predicate InOrder<T(!new)>(le: (T, T) -> bool, s: seq<T>) {
    forall i, j :: 0 <= i < j < |s| ==> le(s[i], s[j])
  }

  ghost predicate Distinct<T(!new)>(s: seq<T>) {
    forall i, j :: 0 <= i < j < |s| ==> s[i] != s[j]
  }

  lemma {:induction false} InsertIntoMembers<T(!new)>(le: (T, T) -> bool, x: T, s: seq<T>)
    ensures multiset(InsertInto(le, x, s)) == multiset{x} + multiset(s)
    ensures forall y :: y in InsertInto(le, x, s) <==> y == x || y in s
  {
    if s != [] {
      InsertIntoMembers(le, x, s[1..]);
      assert s == [s[0]] + s[1..];
    }
  }

  lemma {:induction false} InsertIntoSorted<T(!new)>(le: (T, T) -> bool, x: T, s: seq<T>)
    requires TotalPreorder(le) && InOrder(le, s)
    ensures InOrder(le, InsertInto(le, x, s))
  {
    if s != [] && !le(x, s[0]) {
      InsertIntoSorted(le, x, s[1..]);
      InsertIntoMembers(le, x, s[1..]);
      assert forall y :: y in s[1..] ==> le(s[0], y);
      var tail := InsertInto(le, x, s[1..]);
      assert forall i :: 0 <= i < |tail| ==> tail[i] in tail && le(s[0], tail[i]);
    }
  }

  lemma {:induction false} SortBySorts<T(!new)>(le: (T, T) -> bool, s: seq<T>)
    requires TotalPreorder(le)
    ensures InOrder(le, SortBy(le, s)) && multiset(SortBy(le, s)) == multiset(s)
    ensures forall y :: y in SortBy(le, s) <==> y in s
  {
    if s != [] {
      SortBySorts(le, s[1..]);
      InsertIntoSorted(le, s[0], SortBy(le, s[1..]));
      InsertIntoMembers(le, s[0], SortBy(le, s[1..]));
      assert s == [s[0]] + s[1..];
    }
  }

  lemma {:induction false} DistinctOnce<T(!new)>(s: seq<T>)
    requires Distinct(s)
    ensures forall x :: x in s ==> multiset(s)[x] == 1
  {
    if s != [] {
      var rest := s[1..];
      assert s == [s[0]] + rest;
      assert forall i :: 0 <= i < |rest| ==> rest[i] == s[i + 1];
      DistinctOnce(rest);
    }
  }

  lemma {:induction false} OnceDistinct<T(!new)>(s: seq<T>)
    requires forall x :: x in s ==> multiset(s)[x] == 1
    ensures Distinct(s)
  {
    if s != [] {
      var rest := s[1..];
      assert s == [s[0]] + rest;
      assert multiset(s)[s[0]] == 1 && s[0] !in rest;
      assert forall x :: x in rest ==> x in s && multiset(s)[x] == multiset(rest)[x];
      OnceDistinct(rest);
      assert forall i, j :: 0 < i < j < |s| ==> s[i] == rest[i - 1] && s[j] == rest[j - 1];
    }
  }

  /** Sorting any enumeration of a set gives the one ascending listing of it. */
  lemma SortOfEnumeration<T(!new)>(le: (T, T) -> bool, s: seq<T>, members: set<T>)
    requires TotalOrder(le) && Distinct(s) && forall x :: x in s <==> x in members
    ensures SortBy(le, s) == Sorted(le, members)
  {
    SortBySorts(le, s);
    DistinctOnce(s);
    OnceDistinct(SortBy(le, s));
    SortedUnique(le, SortBy(le, s), Sorted(le, members));
  }
}

/** Bytes and texts; a text is the byte string that stores it, compared as such. */
module Bytes {
  import opened Ordering

  type Byte = b: int | 0 <= b < 256 witness 0

  type Text = seq<Byte>

  predicate TextLe(a: Text, b: Text) {
    a == [] || (b != [] && (a[0] < b[0] || (a[0] == b[0] && TextLe(a[1..], b[1..]))))
  }

  lemma {:induction false} TextLeTotal(a: Text, b: Text)
    ensures TextLe(a, b) || TextLe(b, a)
    ensures TextLe(a, b) && TextLe(b, a) ==> a == b
  {
    if a != [] && b != [] && a[0] == b[0] {
      TextLeTotal(a[1..], b[1..]);
      assert a == [a[0]] + a[1..] && b == [b[0]] + b[1..];
    }
  }

  lemma {:induction false} TextLeTransitive(a: Text, b: Text, c: Text)
    requires TextLe(a, b) && TextLe(b, c)
    ensures TextLe(a, c)
  {
    if a != [] && a[0] == b[0] == c[0] {
      TextLeTransitive(a[1..], b[1..], c[1..]);
    }
  }

  /** The texts agree up to a point where the first ends or has the smaller byte. */
  ghost predicate TextLess(a: Text, b: Text) {
    exists n :: FirstDifference(a, b, n)
  }

  predicate FirstDifference(a: Text, b: Text, n: nat) {
    n <= |a| && n < |b| && a[..n] == b[..n] && (n < |a| ==> a[n] < b[n])
  }

  lemma SharedFirst(a: Text, b: Text, n: nat)
    requires FirstDifference(a, b, n) && n > 0
    ensures a[0] == b[0]
  {
    assert a[..n][0] == b[..n][0];
  }

  lemma DifferenceStep(a: Text, b: Text, n: nat)
    requires a != [] && b != [] && a[0] == b[0]
    ensures FirstDifference(a[1..], b[1..], n) <==> FirstDifference(a, b, n + 1)
  {
    if n < |a| && n < |b| {
      assert a[..n + 1] == [a[0]] + a[1..][..n] && b[..n + 1] == [b[0]] + b[1..][..n];
      assert a[..n + 1] == b[..n + 1] ==> a[1..][..n] == a[..n + 1][1..] == b[..n + 1][1..] == b[1..][..n];
    }
  }

  /** The comparison is the lexicographic one. */
  lemma {:induction false} TextLeMeaning(a: Text, b: Text)
    ensures TextLe(a, b) <==> a == b || TextLess(a, b)
  {
    if a == [] {
      assert b != [] ==> FirstDifference(a, b, 0);
    } else if b != [] && a[0] == b[0] {
      TextLeMeaning(a[1..], b[1..]);
      assert a == [a[0]] + a[1..] && b == [b[0]] + b[1..];
      if n: nat :| FirstDifference(a[1..], b[1..], n) {
        DifferenceStep(a, b, n);
      }
      if n: nat :| FirstDifference(a, b, n) {
        assert n > 0;
        DifferenceStep(a, b, n - 1);
      }
    } else if b != [] {
      assert a[0] < b[0] ==> FirstDifference(a, b, 0);
      if n: nat :| FirstDifference(a, b, n) {
        if n > 0 {
          SharedFirst(a, b, n);
          assert false;
        }
      }
    }
  }

  lemma TextOrder()
    ensures TotalOrder(TextLe)
  {
    forall a: Text, b: Text
      ensures (TextLe(a, b) || TextLe(b, a)) && (TextLe(a, b) && TextLe(b, a) ==> a == b)
    {
      TextLeTotal(a, b);
    }
    forall a: Text, b: Text, c: Text | TextLe(a, b) && TextLe(b, c) ensures TextLe(a, c) {
      TextLeTransitive(a, b, c);
    }
  }
}

/** Counting maps: a missing key counts zero, and every key there is was counted up from it. */
module Counters {
  function Count<K>(m: map<K, nat>, k: K): nat {
    if k in m then m[k] else 0
  }

  function Bump<K>(m: map<K, nat>, k: K): map<K, nat> {
    m[k := Count(m, k) + 1]
  }

  /** The sum of all counts. */
  ghost function Sum<K>(m: map<K, nat>): nat {
    if m == map[] then 0
    else
      var k :| k in m;
      m[k] + Sum(m - {k})
  }

  lemma {:induction false} SumAt<K>(m: map<K, nat>, k: K)
    requires k in m
    ensures Sum(m) == m[k] + Sum(m - {k})
    decreases |m|
  {
    assert m != map[];
    var j :| j in m && Sum(m) == m[j] + Sum(m - {j});
    if j != k {
      SumAt(m - {j}, k);
      SumAt(m - {k}, j);
      assert m - {j} - {k} == m - {k} - {j};
    }
  }

  lemma BumpSum<K>(m: map<K, nat>, k: K)
    ensures Sum(Bump(m, k)) == Sum(m) + 1
  {
    SumAt(Bump(m, k), k);
    if k in m {
      SumAt(m, k);
      assert Bump(m, k) - {k} == m - {k};
    } else {
      assert Bump(m, k) - {k} == m;
    }
  }
}
