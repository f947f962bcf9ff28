/**
 * Sequence operations that stand for the SQL clauses the handlers use:
 * `WHERE` (Filter), `ORDER BY` (SortBy), `LIMIT ? OFFSET ?` (Page) and
 * `SELECT DISTINCT`/`GROUP BY` keys (Dedup).
 */
module Seqs {
  import opened Wrappers

  /** `WHERE p`: the rows satisfying `p`, in table order. */
  function Filter<T(!new)>(s: seq<T>, p: T -> bool): (r: seq<T>)
    ensures |r| <= |s|
    ensures forall x :: x in r <==> x in s && p(x)
    ensures forall i :: 0 <= i < |r| ==> p(r[i])
  {
    if s == [] then []
    else
      assert s == [s[0]] + s[1..];
      (if p(s[0]) then [s[0]] else []) + Filter(s[1..], p)
  }

  /** Two predicates that agree on every element of `s` select the same rows. */
  lemma {:induction false} FilterCongruent<T(!new)>(s: seq<T>, p: T -> bool, q: T -> bool)
    requires forall i :: 0 <= i < |s| ==> p(s[i]) == q(s[i])
    ensures Filter(s, p) == Filter(s, q)
  {
    if s != [] {
      FilterCongruent(s[1..], p, q);
    }
  }

  /** `le` is total and transitive: a valid `ORDER BY` key comparison. */
  ghost predicate TotalPreorder<T(!new)>(le: (T, T) -> bool) {
    (forall a, b :: le(a, b) || le(b, a))
    && (forall a, b, c :: le(a, b) && le(b, c) ==> le(a, c))
  }

  /** Every earlier element comes before, or ties with, every later one. */
  predicate SortedBy<T>(s: seq<T>, le: (T, T) -> bool) {
    forall i, j :: 0 <= i < j < |s| ==> le(s[i], s[j])
  }

  /** Inserts `x` before the first element it comes before. */
  function Insert<T>(x: T, s: seq<T>, le: (T, T) -> bool): (r: seq<T>)
    ensures multiset(r) == multiset(s) + multiset{x}
    ensures |r| == |s| + 1
  {
    if s == [] then [x]
    else if le(x, s[0]) then [x] + s
    else
      assert s == [s[0]] + s[1..];
      [s[0]] + Insert(x, s[1..], le)
  }

  /** `ORDER BY`: the rows rearranged so that they are sorted by `le`. */
  function SortBy<T(!new)>(s: seq<T>, le: (T, T) -> bool): (r: seq<T>)
    ensures multiset(r) == multiset(s)
    ensures |r| == |s|
    ensures forall x :: x in r <==> x in s
  {
    if s == [] then []
    else
      var t := s[1..];
      var r := Insert(s[0], SortBy(t, le), le);
      HeadTailMultiset(s);
      assert multiset(r) == multiset(s);
      SameMembers(r, s);
      r
  }

  lemma HeadTailMultiset<T>(s: seq<T>)
    requires s != []
    ensures multiset(s) == multiset(s[1..]) + multiset{s[0]}
  {
    assert s == [s[0]] + s[1..];
  }

  /** Two arrangements of the same multiset have the same members. */
  lemma SameMembers<T>(a: seq<T>, b: seq<T>)
    requires multiset(a) == multiset(b)
    ensures forall x :: x in a <==> x in b
  {
    forall x ensures x in a <==> x in b {
      assert x in a <==> x in multiset(a);
      assert x in b <==> x in multiset(b);
    }
  }

  lemma {:induction false} InsertSorted<T(!new)>(x: T, s: seq<T>, le: (T, T) -> bool)
    requires TotalPreorder(le) && SortedBy(s, le)
    ensures SortedBy(Insert(x, s, le), le)
  {
    if s != [] && !le(x, s[0]) {
      InsertSorted(x, s[1..], le);
      var r := Insert(x, s, le);
      assert r == [s[0]] + Insert(x, s[1..], le);
      forall j | 0 < j < |r| ensures le(r[0], r[j]) {
        var t := Insert(x, s[1..], le);
        assert r[j] == t[j - 1];
        assert r[j] in multiset(t);
        assert r[j] in multiset(s[1..]) || r[j] == x;
        if r[j] != x {
          var k :| 0 <= k < |s[1..]| && s[1..][k] == r[j];
          assert s[k + 1] == r[j];
        }
      }
    }
  }

  /** Sorting by a total preorder yields a sorted sequence. */
  lemma {:induction false} SortByIsSorted<T(!new)>(s: seq<T>, le: (T, T) -> bool)
    requires TotalPreorder(le)
    ensures SortedBy(SortBy(s, le), le)
  {
    if s != [] {
      SortByIsSorted(s[1..], le);
      InsertSorted(s[0], SortBy(s[1..], le), le);
    }
  }

  /** `LIMIT limit OFFSET offset`: the rows at positions offset .. offset+limit-1. */
  function Page<T>(s: seq<T>, limit: nat, offset: nat): (r: seq<T>)
    ensures |r| <= limit
    ensures |r| == if offset >= |s| then 0 else if |s| - offset < limit then |s| - offset else limit
    ensures forall i :: 0 <= i < |r| ==> r[i] == s[offset + i]
  {
    if offset >= |s| then []
    else if |s| - offset <= limit then s[offset..]
    else s[offset..offset + limit]
  }

  /** Each element of `s` exactly once (one of the orders SQL may return groups in). */
  function Dedup<T(==,!new)>(s: seq<T>): (r: seq<T>)
    ensures forall x :: x in r <==> x in s
    ensures forall i, j :: 0 <= i < j < |r| ==> r[i] != r[j]
  {
    if s == [] then []
    else
      var rest := Dedup(s[1..]);
      if s[0] in rest then rest else [s[0]] + rest
  }

  /** `rows.map(f)`. */
  function Map<A, B>(s: seq<A>, f: A -> B): (r: seq<B>)
    ensures |r| == |s| && forall i :: 0 <= i < |s| ==> r[i] == f(s[i])
  {
    if s == [] then [] else [f(s[0])] + Map(s[1..], f)
  }

  /** The position of the first row satisfying `p` (`LIMIT 1` in table order). */
  function IndexWhere<T>(s: seq<T>, p: T -> bool): (r: Option<nat>)
    ensures r.Some? ==> r.value < |s| && p(s[r.value]) && forall j :: 0 <= j < r.value ==> !p(s[j])
    ensures r.None? <==> forall j :: 0 <= j < |s| ==> !p(s[j])
  {
    if s == [] then None
    else if p(s[0]) then Some(0)
    else match IndexWhere(s[1..], p)
      case None => None
      case Some(k) => Some(k + 1)
  }

  /** The first row satisfying `p`, or `None` when there is none. */
  function FirstWhere<T>(s: seq<T>, p: T -> bool): (r: Option<T>)
    ensures r.Some? ==> r.value in s && p(r.value)
    ensures r.None? <==> forall j :: 0 <= j < |s| ==> !p(s[j])
  {
    match IndexWhere(s, p)
    case None => None
    case Some(k) => Some(s[k])
  }

  /** Replacing a row the filter rejects by another row it rejects leaves the
      filtered rows as they were. */
  lemma {:induction false} FilterUpdateOutside<T(!new)>(s: seq<T>, i: nat, x: T, p: T -> bool)
    requires i < |s| && !p(s[i]) && !p(x)
    ensures Filter(s[i := x], p) == Filter(s, p)
  {
    if i > 0 {
      FilterUpdateOutside(s[1..], i - 1, x, p);
      assert s[i := x][1..] == s[1..][i - 1 := x];
    } else {
      assert s[i := x][1..] == s[1..];
    }
  }

  /** Filtering first by a weaker condition does not change what a stronger one selects. */
  lemma {:induction false} FilterFilter<T(!new)>(s: seq<T>, p: T -> bool, q: T -> bool)
    requires forall i :: 0 <= i < |s| ==> p(s[i]) ==> q(s[i])
    ensures Filter(Filter(s, q), p) == Filter(s, p)
  {
    if s != [] {
      var t := s[1..];
      assert forall i :: 0 <= i < |t| ==> t[i] == s[i + 1];
      FilterFilter(t, p, q);
      var h := if p(s[0]) then [s[0]] else [];
      assert Filter(s, p) == h + Filter(t, p);
      if q(s[0]) {
        var fq := [s[0]] + Filter(t, q);
        assert Filter(s, q) == fq;
        assert fq[0] == s[0] && fq[1..] == Filter(t, q);
        assert Filter(fq, p) == h + Filter(fq[1..], p);
      } else {
        assert Filter(s, q) == Filter(t, q);
      }
    }
  }

  /** A window of a sorted sequence is sorted. */
  lemma PageSorted<T>(s: seq<T>, le: (T, T) -> bool, limit: nat, offset: nat)
    requires SortedBy(s, le)
    ensures SortedBy(Page(s, limit, offset), le)
  {
    var r := Page(s, limit, offset);
    forall i, j | 0 <= i < j < |r| ensures le(r[i], r[j]) {
      assert r[i] == s[offset + i] && r[j] == s[offset + j];
    }
  }

  /** No element occurs twice. */
  predicate Distinct<T(==)>(s: seq<T>) {
    forall i, j :: 0 <= i < j < |s| ==> s[i] != s[j]
  }

  /** A sequence is free of repetitions exactly when its multiset counts every element at most once. */
  lemma {:induction false} DistinctMultiset<T>(s: seq<T>)
    ensures Distinct(s) <==> forall x :: multiset(s)[x] <= 1
  {
    if s != [] {
      var t := s[1..];
      assert s == [s[0]] + t;
      DistinctMultiset(t);
      assert forall i :: 0 <= i < |t| ==> t[i] == s[i + 1];
      if Distinct(s) {
        assert Distinct(t);
        assert s[0] !in t;
        forall x ensures multiset(s)[x] <= 1 {
          assert multiset(s)[x] == multiset([s[0]])[x] + multiset(t)[x];
        }
      }
      if forall x :: multiset(s)[x] <= 1 {
        forall x ensures multiset(t)[x] <= 1 {
          assert multiset(s)[x] == multiset([s[0]])[x] + multiset(t)[x];
        }
        assert multiset(s)[s[0]] == 1 + multiset(t)[s[0]];
        assert s[0] !in t;
        forall i, j | 0 <= i < j < |s| ensures s[i] != s[j] {
          if i == 0 { assert s[j] == t[j - 1]; assert s[j] in t; }
          else { assert s[i] == t[i - 1] && s[j] == t[j - 1]; }
        }
      }
    }
  }

  /** Arranging a repetition-free sequence in another order keeps it repetition-free. */
  lemma PermutationDistinct<T>(s: seq<T>, r: seq<T>)
    requires multiset(r) == multiset(s) && Distinct(s)
    ensures Distinct(r)
  {
    DistinctMultiset(s);
    DistinctMultiset(r);
  }

  /** Filtering a sorted sequence keeps it sorted. */
  lemma {:induction false} FilterSorted<T(!new)>(s: seq<T>, le: (T, T) -> bool, p: T -> bool)
    requires SortedBy(s, le)
    ensures SortedBy(Filter(s, p), le)
  {
    if s != [] {
      var t := s[1..];
      assert forall i :: 0 <= i < |t| ==> t[i] == s[i + 1];
      FilterSorted(t, le, p);
      var ft := Filter(t, p);
      if p(s[0]) {
        assert forall y :: y in t ==> le(s[0], y) by {
          forall y | y in t ensures le(s[0], y) {
            var k :| 0 <= k < |t| && t[k] == y;
            assert s[k + 1] == y;
          }
        }
        var r := [s[0]] + ft;
        assert Filter(s, p) == r;
        assert forall j :: 0 < j < |r| ==> r[j] == ft[j - 1];
        assert forall j :: 0 < j < |r| ==> r[j] in t;
      } else {
        assert Filter(s, p) == ft;
      }
    }
  }

  /** How often `Filter` keeps a value: as often as `s` holds it, if it passes. */
  lemma {:induction false} FilterCount<T(!new)>(s: seq<T>, p: T -> bool, x: T)
    ensures multiset(Filter(s, p))[x] == if p(x) then multiset(s)[x] else 0
  {
    if s != [] {
      FilterCount(s[1..], p, x);
      assert s == [s[0]] + s[1..];
      assert Filter(s, p) == (if p(s[0]) then [s[0]] else []) + Filter(s[1..], p);
    }
  }

  /** Filtering two arrangements of the same rows keeps the same rows. */
  lemma FilterMultiset<T(!new)>(s: seq<T>, t: seq<T>, p: T -> bool)
    requires multiset(s) == multiset(t)
    ensures multiset(Filter(s, p)) == multiset(Filter(t, p))
  {
    forall x ensures multiset(Filter(s, p))[x] == multiset(Filter(t, p))[x] {
      FilterCount(s, p, x);
      FilterCount(t, p, x);
    }
  }

  /** The tail of a sorted sequence is sorted. */
  lemma SortedTail<T>(a: seq<T>, le: (T, T) -> bool)
    requires a != [] && SortedBy(a, le)
    ensures SortedBy(a[1..], le)
  {
    var t := a[1..];
    forall i, j | 0 <= i < j < |t| ensures le(t[i], t[j]) {
      assert t[i] == a[i + 1] && t[j] == a[j + 1];
    }
  }

  /** The first element of a sorted sequence comes before, or ties with, every element. */
  lemma SortedHead<T(!new)>(a: seq<T>, le: (T, T) -> bool, y: T)
    requires TotalPreorder(le) && SortedBy(a, le) && y in a
    ensures le(a[0], y)
  {
    var k :| 0 <= k < |a| && a[k] == y;
    if k == 0 {
      assert le(y, y) || le(y, y);
    }
  }

  /** Two sorted arrangements of the same rows, without ties between distinct
      rows, start with the same row. */
  lemma SortedSameHead<T(!new)>(a: seq<T>, b: seq<T>, le: (T, T) -> bool)
    requires TotalPreorder(le) && a != []
    requires SortedBy(a, le) && SortedBy(b, le) && multiset(a) == multiset(b)
    requires forall x, y :: x in a && y in a && le(x, y) && le(y, x) ==> x == y
    ensures b != [] && a[0] == b[0]
  {
    assert |b| == |multiset(b)| == |multiset(a)| == |a|;
    assert b[0] in multiset(b) && a[0] in multiset(a);
    SortedHead(a, le, b[0]);
    SortedHead(b, le, a[0]);
  }

  /** Removing the same first row from two arrangements of the same rows. */
  lemma TailMultiset<T>(a: seq<T>, b: seq<T>)
    requires a != [] && b != [] && a[0] == b[0] && multiset(a) == multiset(b)
    ensures multiset(a[1..]) == multiset(b[1..])
  {
    assert a == [a[0]] + a[1..] && b == [b[0]] + b[1..];
    assert multiset(a[1..]) == multiset(a) - multiset{a[0]};
    assert multiset(b[1..]) == multiset(b) - multiset{b[0]};
  }

  /** When no two distinct rows tie, there is only one sorted arrangement. */
  lemma {:induction false} SortedUnique<T(!new)>(a: seq<T>, b: seq<T>, le: (T, T) -> bool)
    requires TotalPreorder(le)
    requires SortedBy(a, le) && SortedBy(b, le) && multiset(a) == multiset(b)
    requires forall x, y :: x in a && y in a && le(x, y) && le(y, x) ==> x == y
    ensures a == b
    decreases |a|
  {
    if a == [] {
      assert |b| == |multiset(b)| == |multiset(a)| == 0;
    } else {
      SortedSameHead(a, b, le);
      TailMultiset(a, b);
      SortedTail(a, le);
      SortedTail(b, le);
      var t := a[1..];
      assert forall x :: x in t ==> x in a;
      SortedUnique(t, b[1..], le);
      assert a == [a[0]] + t && b == [b[0]] + b[1..];
    }
  }

  /** Sorting the selected rows, or selecting from the sorted rows, gives the
      same sequence when the order has no ties between distinct rows. */
  lemma SortFilterCommute<T(!new)>(s: seq<T>, le: (T, T) -> bool, p: T -> bool)
    requires TotalPreorder(le)
    requires forall x, y :: x in s && y in s && le(x, y) && le(y, x) ==> x == y
    ensures SortBy(Filter(s, p), le) == Filter(SortBy(s, le), p)
  {
    SortByIsSorted(Filter(s, p), le);
    SortByIsSorted(s, le);
    FilterSorted(SortBy(s, le), le, p);
    FilterMultiset(s, SortBy(s, le), p);
    SortedUnique(SortBy(Filter(s, p), le), Filter(SortBy(s, le), p), le);
  }

  /** Changing the condition so that it rejects one more row, held at most
      once, shortens the selection by one exactly when that row was selected. */
  lemma {:induction false} FilterDropOne<T(!new)>(s: seq<T>, p: T -> bool, q: T -> bool, x: T)
    requires forall i :: 0 <= i < |s| ==> (q(s[i]) <==> p(s[i]) && s[i] != x)
    requires forall i, j :: 0 <= i < |s| && 0 <= j < |s| && s[i] == x && s[j] == x ==> i == j
    ensures |Filter(s, q)| + (if x in s && p(x) then 1 else 0) == |Filter(s, p)|
  {
    if s != [] {
      var t := s[1..];
      assert forall i :: 0 <= i < |t| ==> t[i] == s[i + 1];
      assert Filter(s, p) == (if p(s[0]) then [s[0]] else []) + Filter(t, p);
      assert Filter(s, q) == (if q(s[0]) then [s[0]] else []) + Filter(t, q);
      if s[0] == x {
        assert forall k :: 0 <= k < |t| ==> t[k] != x;
        FilterCongruent(t, p, q);
      } else {
        FilterDropOne(t, p, q, x);
        assert x in s <==> x in t;
      }
    }
  }

  /** Filtering a repetition-free sequence keeps it repetition-free. */
  lemma FilterDistinct<T(!new)>(s: seq<T>, p: T -> bool)
    requires Distinct(s)
    ensures Distinct(Filter(s, p))
  {
    DistinctMultiset(s);
    forall x ensures multiset(Filter(s, p))[x] <= 1 {
      FilterCount(s, p, x);
    }
    DistinctMultiset(Filter(s, p));
  }

  /** A condition that holds exactly from position `m` on selects the suffix from `m`. */
  lemma {:induction false} FilterFrom<T(!new)>(s: seq<T>, p: T -> bool, m: nat)
    requires m <= |s|
    requires forall i :: 0 <= i < |s| ==> (p(s[i]) <==> i >= m)
    ensures Filter(s, p) == s[m..]
  {
    if s != [] {
      var t := s[1..];
      assert forall i :: 0 <= i < |t| ==> t[i] == s[i + 1];
      if m == 0 {
        assert p(s[0]);
        FilterFrom(t, p, 0);
        assert Filter(s, p) == [s[0]] + Filter(t, p);
        assert [s[0]] + t == s;
      } else {
        assert !p(s[0]);
        FilterFrom(t, p, m - 1);
        assert Filter(s, p) == Filter(t, p);
        assert t[m - 1..] == s[m..];
      }
    }
  }

  /** In a sorted repetition-free sequence without ties, the rows strictly
      after the one at `k` are the suffix after `k`. */
  lemma SortedSuffix<T(!new)>(l: seq<T>, le: (T, T) -> bool, p: T -> bool, k: nat)
    requires k < |l| && SortedBy(l, le) && Distinct(l)
    requires forall x, y :: x in l && y in l && le(x, y) && le(y, x) ==> x == y
    requires forall i :: 0 <= i < |l| ==> (p(l[i]) <==> le(l[k], l[i]) && l[i] != l[k])
    ensures Filter(l, p) == l[k + 1..]
  {
    forall i | 0 <= i < |l| ensures p(l[i]) <==> i >= k + 1 {
      if i < k {
        assert le(l[i], l[k]);
        assert l[i] != l[k];
      } else if i > k {
        assert le(l[k], l[i]);
        assert l[k] != l[i];
      }
    }
    FilterFrom(l, p, k + 1);
  }
}
