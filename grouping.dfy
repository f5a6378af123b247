/**
 * Grouping rows by a key, the two ways the scripts do it:
 *  - a Python dict filled row by row, whose keys come out in first-seen order
 *    (`Distinct`), each key holding the values seen with it in row order (`Select`);
 *  - a pandas `groupby`, whose groups come out in ascending key order
 *    (`SortedDistinct`). A pandas group key is the tuple of the grouping
 *    columns' values, compared as Python compares tuples of str.
 */
module Grouping {

  predicate NoDuplicates<T(==)>(xs: seq<T>) {
    forall i, j :: 0 <= i < j < |xs| ==> xs[i] != xs[j]
  }

  /** The index of the first occurrence of `x`. */
  function FirstIndex<T(==)>(xs: seq<T>, x: T): (i: nat)
    requires x in xs
    ensures i < |xs| && xs[i] == x && x !in xs[..i]
  {
    if xs[0] == x then 0 else 1 + FirstIndex(xs[1..], x)
  }

  /** The first occurrence of each element, in order: the keys of a dict filled from `xs`. */
  function Distinct<T(==)>(xs: seq<T>): (r: seq<T>)
    ensures NoDuplicates(r)
    ensures |r| <= |xs|
    decreases |xs|
  {
    if xs == [] then []
    else
      var d := Distinct(xs[..|xs| - 1]);
      if xs[|xs| - 1] in d then d else d + [xs[|xs| - 1]]
  }

  /** The dict has a key exactly for each element seen. */
  lemma {:induction false} DistinctMember<T>(xs: seq<T>, x: T)
    ensures x in Distinct(xs) <==> x in xs
    decreases |xs|
  {
    if xs != [] {
      var p := xs[..|xs| - 1];
      DistinctMember(p, x);
      assert xs == p + [xs[|xs| - 1]];
    }
  }

  /** `Distinct` lists the elements in the order of their first occurrence. */
  lemma {:induction false} DistinctFirstSeen<T>(xs: seq<T>)
    ensures forall i, j :: 0 <= i < j < |Distinct(xs)| ==>
      Distinct(xs)[i] in xs && Distinct(xs)[j] in xs &&
      FirstIndex(xs, Distinct(xs)[i]) < FirstIndex(xs, Distinct(xs)[j])
    decreases |xs|
  {
    if xs != [] {
      var p := xs[..|xs| - 1];
      var last := xs[|xs| - 1];
      DistinctFirstSeen(p);
      var d := Distinct(p);
      assert xs == p + [last];
      forall i | 0 <= i < |d|
        ensures d[i] in p && FirstIndex(xs, d[i]) == FirstIndex(p, d[i]) && FirstIndex(p, d[i]) < |p|
      {
        DistinctMember(p, d[i]);
        FirstIndexPrefix(xs, p, d[i]);
      }
      DistinctMember(p, last);
      var r := Distinct(xs);
      if last in d {
        assert r == d;
      } else {
        assert FirstIndex(xs, last) == |p|;
        assert r == d + [last];
      }
      forall i, j | 0 <= i < j < |r|
        ensures r[i] in xs && r[j] in xs && FirstIndex(xs, r[i]) < FirstIndex(xs, r[j])
      {
        assert r[i] == d[i] && d[i] in p;
        if j < |d| {
          assert r[j] == d[j] && d[j] in p;
        }
      }
    } else {
      assert Distinct(xs) == [];
    }
  }

  lemma {:induction false} FirstIndexPrefix<T>(xs: seq<T>, p: seq<T>, x: T)
    requires p <= xs && x in p
    ensures FirstIndex(xs, x) == FirstIndex(p, x)
    decreases |p|
  {
    if xs[0] != x {
      FirstIndexPrefix(xs[1..], p[1..], x);
    }
  }

  /** A duplicate-free sequence has as many elements as its set. */
  lemma {:induction false} NoDuplicatesCardinality<T>(xs: seq<T>)
    requires NoDuplicates(xs)
    ensures |set x | x in xs| == |xs|
    decreases |xs|
  {
    if xs != [] {
      var p := xs[..|xs| - 1];
      NoDuplicatesCardinality(p);
      assert (set x | x in xs) == (set x | x in p) + {xs[|xs| - 1]};
      assert xs[|xs| - 1] !in p;
    }
  }

  /** The key column of keyed rows. */
  function Keys<K(==), V>(ps: seq<(K, V)>): (r: seq<K>)
    ensures |r| == |ps| && forall i :: 0 <= i < |ps| ==> r[i] == ps[i].0
  {
    if ps == [] then [] else Keys(ps[..|ps| - 1]) + [ps[|ps| - 1].0]
  }

  /** The values of the rows keyed `k`, in row order: what a dict of lists holds for `k`. */
  function Select<K(==), V>(ps: seq<(K, V)>, k: K): seq<V> {
    if ps == [] then []
    else Select(ps[..|ps| - 1], k) + (if ps[|ps| - 1].0 == k then [ps[|ps| - 1].1] else [])
  }

  /** A key has values exactly when some row carries it. */
  lemma {:induction false} SelectNonEmpty<K, V>(ps: seq<(K, V)>, k: K)
    ensures Select(ps, k) != [] <==> k in Keys(ps)
    decreases |ps|
  {
    if ps != [] {
      var p := ps[..|ps| - 1];
      SelectNonEmpty(p, k);
      assert Keys(ps) == Keys(p) + [ps[|ps| - 1].0];
    }
  }

  /** Every value selected for `k` comes from a row keyed `k`. */
  lemma {:induction false} SelectMember<K, V>(ps: seq<(K, V)>, k: K, v: V)
    ensures v in Select(ps, k) <==> (k, v) in ps
    decreases |ps|
  {
    if ps != [] {
      var p := ps[..|ps| - 1];
      SelectMember(p, k, v);
      assert ps == p + [ps[|ps| - 1]];
    }
  }

  lemma KeysSnoc<K, V>(ps: seq<(K, V)>, row: (K, V))
    ensures Keys(ps + [row]) == Keys(ps) + [row.0]
  {
    assert (ps + [row])[..|ps|] == ps;
  }

  lemma {:induction false} KeysAppend<K, V>(ps: seq<(K, V)>, qs: seq<(K, V)>)
    ensures Keys(ps + qs) == Keys(ps) + Keys(qs)
  {
    assert |Keys(ps + qs)| == |Keys(ps) + Keys(qs)|;
    forall i | 0 <= i < |ps + qs|
      ensures Keys(ps + qs)[i] == (Keys(ps) + Keys(qs))[i]
    {
    }
  }

  lemma SelectSnoc<K, V>(ps: seq<(K, V)>, row: (K, V), k: K)
    ensures Select(ps + [row], k) == Select(ps, k) + (if row.0 == k then [row.1] else [])
  {
    assert (ps + [row])[..|ps|] == ps;
  }

  lemma DistinctSnoc<T>(xs: seq<T>, x: T)
    ensures Distinct(xs + [x]) == if x in xs then Distinct(xs) else Distinct(xs) + [x]
  {
    assert (xs + [x])[..|xs|] == xs;
    DistinctMember(xs, x);
  }

  /** A key holds as many values as there are rows with that key. */
  lemma {:induction false} SelectCount<K, V>(ps: seq<(K, V)>, k: K)
    ensures |Select(ps, k)| == multiset(Keys(ps))[k]
    decreases |ps|
  {
    if ps != [] {
      var p := ps[..|ps| - 1];
      SelectCount(p, k);
      assert Keys(ps) == Keys(p) + [ps[|ps| - 1].0];
    }
  }

  /** Rows that are pairwise distinct give each key pairwise distinct values. */
  lemma {:induction false} SelectNoDuplicates<K, V>(ps: seq<(K, V)>, k: K)
    requires NoDuplicates(ps)
    ensures NoDuplicates(Select(ps, k))
    decreases |ps|
  {
    if ps != [] {
      var p := ps[..|ps| - 1];
      var last := ps[|ps| - 1];
      assert NoDuplicates(p) by {
        forall i, j | 0 <= i < j < |p|
          ensures p[i] != p[j]
        {
          assert p[i] == ps[i] && p[j] == ps[j];
        }
      }
      SelectNoDuplicates(p, k);
      if last.0 == k {
        SelectMember(p, k, last.1);
        assert last !in p by {
          forall i | 0 <= i < |p|
            ensures p[i] != last
          {
            assert p[i] == ps[i];
          }
        }
        var s := Select(p, k);
        assert Select(ps, k) == s + [last.1];
        forall i, j | 0 <= i < j < |s + [last.1]|
          ensures (s + [last.1])[i] != (s + [last.1])[j]
        {
          if j == |s| {
            assert (s + [last.1])[i] == s[i];
          } else {
            assert (s + [last.1])[i] == s[i] && (s + [last.1])[j] == s[j];
          }
        }
      } else {
        assert Select(ps, k) == Select(p, k) + [] == Select(p, k);
      }
    }
  }

  /** The total number of values held by the keys `ks`. */
  function TotalSize<K(==), V>(ps: seq<(K, V)>, ks: seq<K>): nat {
    if ks == [] then 0 else |Select(ps, ks[0])| + TotalSize(ps, ks[1..])
  }

  lemma {:induction false} TotalSizeSnoc<K, V>(ps: seq<(K, V)>, row: (K, V), ks: seq<K>)
    requires NoDuplicates(ks)
    ensures TotalSize(ps + [row], ks) == TotalSize(ps, ks) + (if row.0 in ks then 1 else 0)
    decreases |ks|
  {
    assert (ps + [row])[..|ps|] == ps;
    if ks != [] {
      TotalSizeSnoc(ps, row, ks[1..]);
      assert row.0 in ks <==> row.0 == ks[0] || row.0 in ks[1..];
      assert ks[0] !in ks[1..];
    }
  }

  /**
   * Grouping loses and invents no row: over any duplicate-free list of keys
   * that covers every row's key, the group sizes add up to the number of rows.
   */
  lemma {:induction false} TotalSizeCovers<K, V>(ps: seq<(K, V)>, ks: seq<K>)
    requires NoDuplicates(ks)
    requires forall i :: 0 <= i < |ps| ==> ps[i].0 in ks
    ensures TotalSize(ps, ks) == |ps|
    decreases |ps|
  {
    if ps == [] {
      TotalSizeEmpty(ps, ks);
    } else {
      var p := ps[..|ps| - 1];
      TotalSizeCovers(p, ks);
      TotalSizeSnoc(p, ps[|ps| - 1], ks);
      assert p + [ps[|ps| - 1]] == ps;
    }
  }

  lemma {:induction false} TotalSizeEmpty<K, V>(ps: seq<(K, V)>, ks: seq<K>)
    requires ps == []
    ensures TotalSize(ps, ks) == 0
    decreases |ks|
  {
    if ks != [] {
      TotalSizeEmpty(ps, ks[1..]);
    }
  }

  // ---- pandas group keys: tuples of str in ascending order ----

  /** Python's `<` on str: lexicographic by code point. */
  predicate StrBelow(a: string, b: string)
    decreases |a|
  {
    if a == [] then b != []
    else if b == [] then false
    else a[0] < b[0] || (a[0] == b[0] && StrBelow(a[1..], b[1..]))
  }

  lemma {:induction false} StrBelowIrreflexive(a: string)
    ensures !StrBelow(a, a)
    decreases |a|
  {
    if a != [] {
      StrBelowIrreflexive(a[1..]);
    }
  }

  lemma {:induction false} StrBelowTotal(a: string, b: string)
    ensures a == b || StrBelow(a, b) || StrBelow(b, a)
    decreases |a|
  {
    if a != [] && b != [] && a[0] == b[0] {
      StrBelowTotal(a[1..], b[1..]);
      if a[1..] == b[1..] {
        assert a == [a[0]] + a[1..] && b == [b[0]] + b[1..];
      }
    }
  }

  lemma {:induction false} StrBelowTransitive(a: string, b: string, c: string)
    requires StrBelow(a, b) && StrBelow(b, c)
    ensures StrBelow(a, c)
    decreases |a|
  {
    if a != [] && a[0] == b[0] && b[0] == c[0] {
      StrBelowTransitive(a[1..], b[1..], c[1..]);
    }
  }

  lemma {:induction false} StrBelowAsymmetric(a: string, b: string)
    requires StrBelow(a, b)
    ensures !StrBelow(b, a)
    decreases |a|
  {
    if a != [] && a[0] == b[0] {
      StrBelowAsymmetric(a[1..], b[1..]);
    }
  }

  /** A pandas group key: the values of the grouping columns. */
  type Key = seq<string>

  /** Python's `<` on tuples of str. */
  predicate KeyBelow(a: Key, b: Key)
    decreases |a|
  {
    if a == [] then b != []
    else if b == [] then false
    else StrBelow(a[0], b[0]) || (a[0] == b[0] && KeyBelow(a[1..], b[1..]))
  }

  lemma {:induction false} KeyBelowIrreflexive(a: Key)
    ensures !KeyBelow(a, a)
    decreases |a|
  {
    if a != [] {
      StrBelowIrreflexive(a[0]);
      KeyBelowIrreflexive(a[1..]);
    }
  }

  lemma {:induction false} KeyBelowTotal(a: Key, b: Key)
    ensures a == b || KeyBelow(a, b) || KeyBelow(b, a)
    decreases |a|
  {
    if a != [] && b != [] {
      StrBelowTotal(a[0], b[0]);
      if a[0] == b[0] {
        KeyBelowTotal(a[1..], b[1..]);
        if a[1..] == b[1..] {
          assert a == [a[0]] + a[1..] && b == [b[0]] + b[1..];
        }
      }
    }
  }

  lemma {:induction false} KeyBelowTransitive(a: Key, b: Key, c: Key)
    requires KeyBelow(a, b) && KeyBelow(b, c)
    ensures KeyBelow(a, c)
    decreases |a|
  {
    if a != [] {
      if StrBelow(a[0], b[0]) && StrBelow(b[0], c[0]) {
        StrBelowTransitive(a[0], b[0], c[0]);
      } else if a[0] == b[0] && b[0] == c[0] {
        KeyBelowTransitive(a[1..], b[1..], c[1..]);
      }
    }
  }

  lemma {:induction false} KeyBelowAsymmetric(a: Key, b: Key)
    requires KeyBelow(a, b)
    ensures !KeyBelow(b, a)
    decreases |a|
  {
    if a != [] {
      if StrBelow(a[0], b[0]) {
        StrBelowAsymmetric(a[0], b[0]);
      } else {
        KeyBelowAsymmetric(a[1..], b[1..]);
      }
    }
  }

  predicate Ascending(ks: seq<Key>) {
    forall i, j :: 0 <= i < j < |ks| ==> KeyBelow(ks[i], ks[j])
  }

  /** Adds `k` at its place in an ascending key list, unless it is already there. */
  function InsertKey(ks: seq<Key>, k: Key): (r: seq<Key>)
    requires Ascending(ks)
    ensures Ascending(r)
    ensures forall x :: x in r <==> x in ks || x == k
    decreases |ks|
  {
    if ks == [] then [k]
    else if k == ks[0] then ks
    else if KeyBelow(k, ks[0]) then
      InsertKeyBefore(ks, k)
    else
      KeyBelowTotal(k, ks[0]);
      var rest := InsertKey(ks[1..], k);
      KeyBelowAfter(ks[0], ks[1..], k, rest);
      [ks[0]] + rest
  }

  function InsertKeyBefore(ks: seq<Key>, k: Key): (r: seq<Key>)
    requires Ascending(ks) && ks != [] && KeyBelow(k, ks[0])
    ensures r == [k] + ks && Ascending(r)
  {
    assert forall j :: 0 < j < |ks| ==> KeyBelow(k, ks[j]) by {
      forall j | 0 < j < |ks|
        ensures KeyBelow(k, ks[j])
      {
        KeyBelowTransitive(k, ks[0], ks[j]);
      }
    }
    [k] + ks
  }

  lemma KeyBelowAfter(x: Key, ks: seq<Key>, k: Key, rest: seq<Key>)
    requires forall y :: y in ks ==> KeyBelow(x, y)
    requires KeyBelow(x, k)
    requires Ascending(rest) && forall y :: y in rest <==> y in ks || y == k
    ensures Ascending([x] + rest)
  {
    var r := [x] + rest;
    forall i, j | 0 <= i < j < |r|
      ensures KeyBelow(r[i], r[j])
    {
      if i > 0 {
        assert r[i] == rest[i - 1] && r[j] == rest[j - 1];
      } else {
        assert r[j] in rest;
      }
    }
  }

  /** The distinct keys in ascending order: the group order of a pandas `groupby`. */
  function SortedDistinct(ks: seq<Key>): (r: seq<Key>)
    ensures Ascending(r)
    ensures forall x :: x in r <==> x in ks
    decreases |ks|
  {
    if ks == [] then []
    else InsertKey(SortedDistinct(ks[..|ks| - 1]), ks[|ks| - 1])
  }

  /** An ascending key list has no duplicates. */
  lemma AscendingNoDuplicates(ks: seq<Key>)
    requires Ascending(ks)
    ensures NoDuplicates(ks)
  {
    forall i, j | 0 <= i < j < |ks|
      ensures ks[i] != ks[j]
    {
      KeyBelowIrreflexive(ks[i]);
    }
  }

  // ------------------------------------------------------------------ filtering

  /** The elements a boolean mask keeps (`df[mask]`, a comprehension with an `if`), in order. */
  function Filter<T(==, !new)>(xs: seq<T>, keep: T -> bool): (r: seq<T>)
    ensures forall x :: x in r <==> x in xs && keep(x)
    ensures |r| <= |xs|
    decreases |xs|
  {
    if xs == [] then []
    else
      var init, last := xs[..|xs| - 1], xs[|xs| - 1];
      assert xs == init + [last];
      Filter(init, keep) + (if keep(last) then [last] else [])
  }

  lemma FilterSnoc<T(!new)>(xs: seq<T>, x: T, keep: T -> bool)
    ensures Filter(xs + [x], keep) == Filter(xs, keep) + if keep(x) then [x] else []
  {
    assert (xs + [x])[..|xs|] == xs;
  }

  /** The mask keeps elements one at a time: filtering a concatenation concatenates the filtered parts. */
  lemma {:induction false} FilterAppend<T(!new)>(a: seq<T>, b: seq<T>, keep: T -> bool)
    ensures Filter(a + b, keep) == Filter(a, keep) + Filter(b, keep)
    decreases |b|
  {
    if b == [] {
      assert a + b == a;
    } else {
      var init, last := b[..|b| - 1], b[|b| - 1];
      assert a + b == (a + init) + [last] && b == init + [last];
      FilterSnoc(a + init, last, keep);
      FilterSnoc(init, last, keep);
      FilterAppend(a, init, keep);
    }
  }

  /** A single element is kept exactly when the mask holds for it. */
  lemma FilterSingle<T(!new)>(x: T, keep: T -> bool)
    ensures Filter([x], keep) == if keep(x) then [x] else []
  {
    FilterSnoc([], x, keep);
    assert [] + [x] == [x];
  }
}
