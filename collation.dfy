/**
 * How SQLite orders TEXT values under its default BINARY collation, and the
 * `ORDER BY timestamp DESC` that the per-employee listings apply.
 *
 * BINARY compares the UTF-8 encodings byte by byte; UTF-8 preserves the order
 * of code points, so on `char` sequences it is plain lexicographic order, a
 * proper prefix sorting first.
 */
module Collation {

  /** `a` sorts at or before `b` under the BINARY collation. */
  predicate TextLe(a: string, b: string)
    decreases |a|
  {
    a == [] || (b != [] && (a[0] < b[0] || (a[0] == b[0] && TextLe(a[1..], b[1..]))))
  }

  /** Any two texts are comparable. */
  lemma {:induction false} TextLeTotal(a: string, b: string)
    ensures TextLe(a, b) || TextLe(b, a)
    decreases |a|
  {
    if a != [] && b != [] && a[0] == b[0] {
      TextLeTotal(a[1..], b[1..]);
    }
  }

  lemma {:induction false} TextLeTransitive(a: string, b: string, c: string)
    requires TextLe(a, b) && TextLe(b, c)
    ensures TextLe(a, c)
    decreases |a|
  {
    if a != [] && a[0] == b[0] && b[0] == c[0] {
      TextLeTransitive(a[1..], b[1..], c[1..]);
    }
  }

  lemma {:induction false} TextLeAntisymmetric(a: string, b: string)
    requires TextLe(a, b) && TextLe(b, a)
    ensures a == b
    decreases |a|
  {
    if a != [] {
      TextLeAntisymmetric(a[1..], b[1..]);
      assert a == [a[0]] + a[1..] && b == [b[0]] + b[1..];
    }
  }

  /** `rows` is in `ORDER BY key DESC` order: no row sorts before a later one. */
  ghost predicate NewestFirst<T>(rows: seq<T>, key: T -> string) {
    forall i, j :: 0 <= i < j < |rows| ==> TextLe(key(rows[j]), key(rows[i]))
  }

  /** Each row sorts at or after the next: the local form of NewestFirst. */
  ghost predicate Descending<T>(rows: seq<T>, key: T -> string) {
    forall i :: 0 < i < |rows| ==> TextLe(key(rows[i]), key(rows[i - 1]))
  }

  lemma {:induction false} DescendingChain<T>(rows: seq<T>, key: T -> string, i: int, j: int)
    requires Descending(rows, key) && 0 <= i < j < |rows|
    ensures TextLe(key(rows[j]), key(rows[i]))
    decreases j - i
  {
    if j > i + 1 {
      DescendingChain(rows, key, i, j - 1);
      TextLeTransitive(key(rows[j]), key(rows[j - 1]), key(rows[i]));
    }
  }

  lemma DescendingIsNewestFirst<T>(rows: seq<T>, key: T -> string)
    requires Descending(rows, key)
    ensures NewestFirst(rows, key)
  {
    forall i, j | 0 <= i < j < |rows|
      ensures TextLe(key(rows[j]), key(rows[i]))
    {
      DescendingChain(rows, key, i, j);
    }
  }

  /** Places `x` into the descending `rows` before the first row that does not
      sort after it. */
  function InsertNewest<T(==)>(x: T, rows: seq<T>, key: T -> string): (r: seq<T>)
    requires Descending(rows, key)
    ensures Descending(r, key)
    ensures multiset(r) == multiset(rows) + multiset{x}
    ensures |r| == |rows| + 1 && (r[0] == x || (rows != [] && r[0] == rows[0]))
    decreases |rows|
  {
    if rows == [] then [x]
    else if TextLe(key(rows[0]), key(x)) then [x] + rows
    else
      TextLeTotal(key(rows[0]), key(x));
      assert rows == [rows[0]] + rows[1..];
      [rows[0]] + InsertNewest(x, rows[1..], key)
  }

  /** `ORDER BY key DESC`: a permutation of `rows` with the largest keys first.
      Rows with equal keys are left in an order of the engine's choosing; this
      model keeps them in their storage order. */
  function SortNewestFirst<T(==)>(rows: seq<T>, key: T -> string): (r: seq<T>)
    ensures multiset(r) == multiset(rows)
    ensures NewestFirst(r, key)
    decreases |rows|
  {
    if rows == [] then []
    else
      var rest := SortNewestFirst(rows[1..], key);
      assert Descending(rest, key);
      var r := InsertNewest(rows[0], rest, key);
      assert rows == [rows[0]] + rows[1..];
      DescendingIsNewestFirst(r, key);
      r
  }

  /** No two rows share a key. */
  ghost predicate DistinctKeys<T>(rows: seq<T>, key: T -> string) {
    forall i, j :: 0 <= i < j < |rows| ==> key(rows[i]) != key(rows[j])
  }

  /** Two newest-first arrangements of the same rows with distinct keys start
      with the same row. */
  lemma SameNewest<T>(r1: seq<T>, r2: seq<T>, key: T -> string)
    requires NewestFirst(r1, key) && NewestFirst(r2, key)
    requires multiset(r1) == multiset(r2)
    requires DistinctKeys(r1, key)
    requires r1 != []
    ensures r2 != [] && r1[0] == r2[0]
  {
    assert r1[0] in multiset(r2);
    assert r2 != [];
    assert r2[0] in multiset(r1);
    var k :| 0 <= k < |r1| && r1[k] == r2[0];
    var m :| 0 <= m < |r2| && r2[m] == r1[0];
    TextLeTotal(key(r1[0]), key(r1[0]));
    TextLeTotal(key(r2[0]), key(r2[0]));
    assert TextLe(key(r1[k]), key(r1[0]));
    assert TextLe(key(r2[m]), key(r2[0]));
    TextLeAntisymmetric(key(r1[0]), key(r2[0]));
  }

  /** With pairwise distinct keys the newest-first order is unique: any two
      newest-first arrangements of the same rows are the same sequence. */
  lemma {:induction false} NewestFirstUnique<T>(r1: seq<T>, r2: seq<T>, key: T -> string)
    requires NewestFirst(r1, key) && NewestFirst(r2, key)
    requires multiset(r1) == multiset(r2)
    requires DistinctKeys(r1, key)
    ensures r1 == r2
    decreases |r1|
  {
    if r1 == [] {
      assert |r2| == |multiset(r2)| == 0;
    } else {
      SameNewest(r1, r2, key);
      NewestFirstTail(r1, key);
      NewestFirstTail(r2, key);
      DistinctKeysTail(r1, key);
      MultisetTail(r1, r2);
      NewestFirstUnique(r1[1..], r2[1..], key);
      assert r1 == [r1[0]] + r1[1..] && r2 == [r2[0]] + r2[1..];
    }
  }

  lemma NewestFirstTail<T>(rows: seq<T>, key: T -> string)
    requires rows != [] && NewestFirst(rows, key)
    ensures NewestFirst(rows[1..], key)
  {
    assert forall i :: 0 <= i < |rows| - 1 ==> rows[1..][i] == rows[i + 1];
  }

  lemma DistinctKeysTail<T>(rows: seq<T>, key: T -> string)
    requires rows != [] && DistinctKeys(rows, key)
    ensures DistinctKeys(rows[1..], key)
  {
    assert forall i :: 0 <= i < |rows| - 1 ==> rows[1..][i] == rows[i + 1];
  }

  /** Two permutations of each other that start alike continue alike. */
  lemma MultisetTail<T>(r1: seq<T>, r2: seq<T>)
    requires r1 != [] && r2 != [] && r1[0] == r2[0] && multiset(r1) == multiset(r2)
    ensures multiset(r1[1..]) == multiset(r2[1..])
  {
    assert r1 == [r1[0]] + r1[1..] && r2 == [r2[0]] + r2[1..];
    assert multiset(r1[1..]) == multiset(r1) - multiset{r1[0]};
    assert multiset(r2[1..]) == multiset(r2) - multiset{r2[0]};
  }

}
