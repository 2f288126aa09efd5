/**
 * SQLite's default BINARY collation on TEXT values, and the ordered, limited
 * views built from it (`ORDER BY col DESC LIMIT n`). BINARY compares the
 * UTF-8 encodings byte by byte, which for Unicode scalar values is the
 * lexicographic order on code points, a proper prefix sorting first.
 */
module Collation {

  /** `a <= b` under the BINARY collation. */
  predicate StrLe(a: string, b: string): (r: bool)
    ensures a <= b ==> r
    ensures a != [] && b != [] && a[0] != b[0] ==> (r <==> a[0] < b[0])
  {
    if a == [] then true
    else if b == [] then false
    else if a[0] != b[0] then a[0] < b[0]
    else StrLe(a[1..], b[1..])
  }

  lemma {:induction false} StrLeReflexive(a: string)
    ensures StrLe(a, a)
  {
    if a != [] { StrLeReflexive(a[1..]); }
  }

  lemma {:induction false} StrLeAntisymmetric(a: string, b: string)
    requires StrLe(a, b) && StrLe(b, a)
    ensures a == b
  {
    if a != [] && b != [] {
      StrLeAntisymmetric(a[1..], b[1..]);
      assert a == [a[0]] + a[1..] && b == [b[0]] + b[1..];
    }
  }

  lemma {:induction false} StrLeTransitive(a: string, b: string, c: string)
    requires StrLe(a, b) && StrLe(b, c)
    ensures StrLe(a, c)
  {
    if a != [] && b != [] && c != [] && a[0] == b[0] == c[0] {
      StrLeTransitive(a[1..], b[1..], c[1..]);
    }
  }

  lemma {:induction false} StrLeTotal(a: string, b: string)
    ensures StrLe(a, b) || StrLe(b, a)
  {
    if a != [] && b != [] && a[0] == b[0] {
      StrLeTotal(a[1..], b[1..]);
    }
  }

  /** Non-increasing under the collation: the order of `ORDER BY ... DESC`. */
  ghost predicate SortedDesc(s: seq<string>)
  {
    forall i, j :: 0 <= i < j < |s| ==> StrLe(s[j], s[i])
  }

  /** Inserts `x` into a non-increasing sequence, before the first element not above it. */
  function Insert(x: string, s: seq<string>): (r: seq<string>)
    ensures multiset(r) == multiset(s) + multiset{x}
    ensures |r| == |s| + 1
  {
    if s == [] then [x]
    else if StrLe(s[0], x) then [x] + s
    else
      assert s == [s[0]] + s[1..];
      [s[0]] + Insert(x, s[1..])
  }

  /** The rows' values in `ORDER BY ... DESC` order (insertion sort). */
  function SortDesc(s: seq<string>): (r: seq<string>)
    ensures multiset(r) == multiset(s)
    ensures |r| == |s|
  {
    if s == [] then []
    else
      assert s == [s[0]] + s[1..];
      Insert(s[0], SortDesc(s[1..]))
  }

  /** `LIMIT n`: the first `n` rows, or all of them when there are fewer. */
  function Take(s: seq<string>, n: nat): (r: seq<string>)
    ensures |r| == if n < |s| then n else |s|
    ensures r == s[..|r|]
  {
    if n < |s| then s[..n] else s
  }

  lemma {:induction false} InsertSorted(x: string, s: seq<string>)
    requires SortedDesc(s)
    ensures SortedDesc(Insert(x, s))
  {
    if s == [] {
    } else if StrLe(s[0], x) {
      var r := [x] + s;
      forall i, j | 0 <= i < j < |r| ensures StrLe(r[j], r[i]) {
        if i == 0 {
          if j > 1 { StrLeTransitive(s[j - 1], s[0], x); }
        }
      }
    } else {
      StrLeTotal(s[0], x);
      var t := s[1..];
      assert SortedDesc(t);
      InsertSorted(x, t);
      var it := Insert(x, t);
      var r := [s[0]] + it;
      forall k | 0 <= k < |it| ensures StrLe(it[k], s[0]) {
        assert it[k] in multiset(it);
        assert it[k] in multiset(t) + multiset{x};
        if it[k] != x {
          assert it[k] in multiset(t);
          var m :| 0 <= m < |t| && t[m] == it[k];
          assert t[m] == s[m + 1];
        }
      }
      forall i, j | 0 <= i < j < |r| ensures StrLe(r[j], r[i]) {
        if i == 0 { assert r[j] == it[j - 1]; }
        else { assert r[j] == it[j - 1] && r[i] == it[i - 1]; }
      }
    }
  }

  lemma {:induction false} SortDescSorted(s: seq<string>)
    ensures SortedDesc(SortDesc(s))
  {
    if s != [] {
      SortDescSorted(s[1..]);
      InsertSorted(s[0], SortDesc(s[1..]));
    }
  }

  /** The head of a non-increasing sequence is at or above every value in it. */
  lemma SortedDescHeadIsMax(a: seq<string>, x: string)
    requires SortedDesc(a) && x in multiset(a)
    ensures StrLe(x, a[0])
  {
    var i :| 0 <= i < |a| && a[i] == x;
    if i == 0 { StrLeReflexive(x); }
  }

  lemma SortedDescTail(a: seq<string>)
    requires SortedDesc(a) && a != []
    ensures SortedDesc(a[1..])
  {
  }

  lemma MultisetTail(a: seq<string>)
    requires a != []
    ensures multiset(a[1..]) == multiset(a) - multiset{a[0]}
  {
    assert a == [a[0]] + a[1..];
  }

  /**
   * A non-increasing arrangement of given values is unique: whatever order
   * SQLite uses among equal keys, the returned strings are the same.
   */
  lemma {:induction false} SortedDescUnique(a: seq<string>, b: seq<string>)
    requires SortedDesc(a) && SortedDesc(b)
    requires multiset(a) == multiset(b)
    ensures a == b
  {
    if a == [] || b == [] {
      assert |a| == |multiset(a)| == |multiset(b)| == |b|;
    } else {
      assert a[0] in multiset(a) && b[0] in multiset(b);
      SortedDescHeadIsMax(b, a[0]);
      SortedDescHeadIsMax(a, b[0]);
      StrLeAntisymmetric(a[0], b[0]);
      MultisetTail(a);
      MultisetTail(b);
      SortedDescTail(a);
      SortedDescTail(b);
      SortedDescUnique(a[1..], b[1..]);
      assert a == [a[0]] + a[1..] && b == [b[0]] + b[1..];
    }
  }

  /** `LIMIT n` keeps some of the values, and each value it drops is at or below each value it keeps. */
  lemma TakeSortedKeepsLargest(s: seq<string>, n: nat)
    requires SortedDesc(s)
    ensures multiset(Take(s, n)) <= multiset(s)
    ensures forall x, i :: x in multiset(s) - multiset(Take(s, n)) && 0 <= i < |Take(s, n)| ==> StrLe(x, Take(s, n)[i])
  {
    var r := Take(s, n);
    var k := |r|;
    assert s == r + s[k..];
    assert multiset(s) == multiset(r) + multiset(s[k..]);
    forall x, i | x in multiset(s) - multiset(r) && 0 <= i < k ensures StrLe(x, r[i]) {
      assert x in multiset(s[k..]);
      var j :| 0 <= j < |s| - k && s[k..][j] == x;
      assert s[k + j] == x && s[i] == r[i];
    }
  }

  /**
   * A value is among the first `limit` of a non-increasing sequence exactly
   * when it occurs and either nothing is cut or it is at or above the last
   * value kept.
   */
  lemma TakeSortedMembership(s: seq<string>, limit: nat, x: string)
    requires SortedDesc(s)
    ensures x in Take(s, limit) <==> x in s && (|s| <= limit || (limit > 0 && StrLe(s[limit - 1], x)))
  {
    if x in Take(s, limit) && |s| > limit {
      var i :| 0 <= i < limit && s[i] == x;
      if i < limit - 1 { assert StrLe(s[limit - 1], s[i]); }
      else { StrLeReflexive(x); }
    }
    if x in s && |s| > limit && limit > 0 && StrLe(s[limit - 1], x) {
      var j :| 0 <= j < |s| && s[j] == x;
      if j >= limit {
        assert StrLe(s[j], s[limit - 1]);
        StrLeAntisymmetric(x, s[limit - 1]);
        assert Take(s, limit)[limit - 1] == x;
      } else {
        assert Take(s, limit)[j] == x;
      }
    }
  }
}
