/** The order SQLite's ORDER BY uses, over sort keys written as integer sequences: a TEXT
    column under the BINARY collation compares code point by code point (UTF-8 preserves
    code point order), an INTEGER column is a one-element key. Ties come out in an order
    SQL does not fix; the sort here is stable, keeping tied rows in rowid order. */
module Ordering {

  /** Lexicographic order on keys; a proper prefix comes first. */
  predicate LexLe(a: seq<int>, b: seq<int>)
    decreases |a|
  {
    |a| == 0 || (|b| > 0 && (a[0] < b[0] || (a[0] == b[0] && LexLe(a[1..], b[1..]))))
  }

  lemma {:induction false} LexTotal(a: seq<int>, b: seq<int>)
    ensures LexLe(a, b) || LexLe(b, a)
    decreases |a|
  {
    if |a| > 0 && |b| > 0 && a[0] == b[0] {
      LexTotal(a[1..], b[1..]);
    }
  }

  lemma {:induction false} LexTrans(a: seq<int>, b: seq<int>, c: seq<int>)
    requires LexLe(a, b) && LexLe(b, c)
    ensures LexLe(a, c)
    decreases |a|
  {
    if |a| > 0 && a[0] == b[0] && b[0] == c[0] {
      LexTrans(a[1..], b[1..], c[1..]);
    }
  }

  /** The key of a string: its code points. */
  function StringKey(s: string): (k: seq<int>)
    ensures |k| == |s|
  {
    seq(|s|, i requires 0 <= i < |s| => s[i] as int)
  }

  /** On one-element keys the order is the order of the integers. */
  lemma IntKeyOrder(x: int, y: int)
    ensures LexLe([x], [y]) <==> x <= y
  {
    assert [x][1..] == [] && [y][1..] == [];
  }

  predicate SortedBy<T>(s: seq<T>, key: T -> seq<int>) {
    forall i, j :: 0 <= i < j < |s| ==> LexLe(key(s[i]), key(s[j]))
  }

  /** Inserts `x` before the first element whose key is above its own, so that `x` goes
      after every element with an equal key. */
  function InsertBy<T(==)>(s: seq<T>, x: T, key: T -> seq<int>): (r: seq<T>)
    ensures multiset(r) == multiset(s) + multiset{x}
    decreases |s|
  {
    if |s| == 0 then [x]
    else if !LexLe(key(s[0]), key(x)) then [x] + s
    else assert s == [s[0]] + s[1..]; [s[0]] + InsertBy(s[1..], x, key)
  }

  lemma {:induction false} InsertByMembers<T>(s: seq<T>, x: T, key: T -> seq<int>)
    ensures forall y :: y in InsertBy(s, x, key) ==> y == x || y in s
    decreases |s|
  {
    if |s| > 0 && LexLe(key(s[0]), key(x)) {
      InsertByMembers(s[1..], x, key);
    }
  }

  /** When `x` goes after the head, the head is below everything inserted after it. */
  lemma HeadBelowRest<T>(s: seq<T>, x: T, key: T -> seq<int>)
    requires SortedBy(s, key) && |s| > 0 && LexLe(key(s[0]), key(x))
    ensures forall y :: y in InsertBy(s[1..], x, key) ==> LexLe(key(s[0]), key(y))
  {
    InsertByMembers(s[1..], x, key);
    forall y | y in InsertBy(s[1..], x, key) ensures LexLe(key(s[0]), key(y)) {
      if y != x {
        var k :| 0 <= k < |s[1..]| && s[1..][k] == y;
        assert s[k + 1] == y;
      }
    }
  }

  lemma {:induction false} InsertBySorted<T>(s: seq<T>, x: T, key: T -> seq<int>)
    requires SortedBy(s, key)
    ensures SortedBy(InsertBy(s, x, key), key)
    decreases |s|
  {
    if |s| == 0 {
    } else if !LexLe(key(s[0]), key(x)) {
      LexTotal(key(x), key(s[0]));
      var r := [x] + s;
      forall i, j | 0 <= i < j < |r| ensures LexLe(key(r[i]), key(r[j])) {
        if i == 0 && j > 1 { LexTrans(key(x), key(s[0]), key(s[j - 1])); }
      }
    } else {
      var t := InsertBy(s[1..], x, key);
      assert SortedBy(s[1..], key);
      InsertBySorted(s[1..], x, key);
      HeadBelowRest(s, x, key);
      var r := [s[0]] + t;
      forall i, j | 0 <= i < j < |r| ensures LexLe(key(r[i]), key(r[j])) {
        if i == 0 { assert r[j] == t[j - 1] && t[j - 1] in t; }
        else { assert r[i] == t[i - 1] && r[j] == t[j - 1]; }
      }
    }
  }

  /** Insertion sort: the rows of ORDER BY key. */
  function SortBy<T(==)>(s: seq<T>, key: T -> seq<int>): (r: seq<T>)
    ensures multiset(r) == multiset(s)
    ensures SortedBy(r, key)
    decreases |s|
  {
    if |s| == 0 then []
    else
      var prefix := SortBy(s[..|s| - 1], key);
      InsertBySorted(prefix, s[|s| - 1], key);
      assert s == s[..|s| - 1] + [s[|s| - 1]];
      InsertBy(prefix, s[|s| - 1], key)
  }

  lemma {:induction false} LexRefl(a: seq<int>)
    ensures LexLe(a, a)
    decreases |a|
  {
    if |a| > 0 {
      LexRefl(a[1..]);
    }
  }

  /** An element whose key is at least every key of `s` goes at the end. */
  lemma {:induction false} InsertAtEnd<T>(s: seq<T>, x: T, key: T -> seq<int>)
    requires forall i :: 0 <= i < |s| ==> LexLe(key(s[i]), key(x))
    ensures InsertBy(s, x, key) == s + [x]
    decreases |s|
  {
    if |s| > 0 {
      assert forall i :: 0 <= i < |s[1..]| ==> s[1..][i] == s[i + 1];
      InsertAtEnd(s[1..], x, key);
      assert s == [s[0]] + s[1..];
    }
  }

  /** Sorting rows that are already in key order keeps them as they are; in particular
      rows with equal keys keep their input (rowid) order. */
  lemma {:induction false} SortBySortedIsIdentity<T>(s: seq<T>, key: T -> seq<int>)
    requires SortedBy(s, key)
    ensures SortBy(s, key) == s
    decreases |s|
  {
    if |s| > 0 {
      var p := s[..|s| - 1];
      assert SortedBy(p, key);
      SortBySortedIsIdentity(p, key);
      assert forall i :: 0 <= i < |p| ==> p[i] == s[i];
      InsertAtEnd(p, s[|s| - 1], key);
      assert p + [s[|s| - 1]] == s;
    }
  }

  /** Two rows with equal keys come out in the order they went in. */
  lemma TiesKeepInputOrder<T>(x: T, y: T, key: T -> seq<int>)
    requires key(x) == key(y)
    ensures SortBy([x, y], key) == [x, y]
  {
    LexRefl(key(x));
    SortBySortedIsIdentity([x, y], key);
  }

  /** What a permutation holds, the original holds. */
  lemma PermutationMembers<T>(s: seq<T>, r: seq<T>)
    requires multiset(r) == multiset(s)
    ensures forall i :: 0 <= i < |r| ==> r[i] in s
  {
    forall i | 0 <= i < |r| ensures r[i] in s {
      assert r[i] in multiset(r);
    }
  }
}
