/** Sequence operations that stand for the pandas primitives the scripts use
    on a table: a boolean-mask selection, `drop_duplicates` keeping the last
    or the first row of each key, `unique()` in first-occurrence order, a
    position dictionary built from a list, and `sort_values` on one column. */
module Seqs {

  /** `a` is obtained from `b` by deleting elements; the order is kept. */
  ghost predicate IsSubseq<T>(a: seq<T>, b: seq<T>)
    decreases |b|
  {
    if |a| == 0 then true
    else if |b| == 0 then false
    else (a[0] == b[0] && IsSubseq(a[1..], b[1..])) || IsSubseq(a, b[1..])
  }

  /** No two elements of `s` are equal. */
  ghost predicate Distinct<T>(s: seq<T>) {
    forall i, j :: 0 <= i < j < |s| ==> s[i] != s[j]
  }

  /** No two rows of `s` agree on `key`. */
  ghost predicate DistinctKeys<T, K>(s: seq<T>, key: T -> K) {
    forall i, j :: 0 <= i < j < |s| ==> key(s[i]) != key(s[j])
  }

  /** The values `key` takes on the rows of `s`. */
  function KeySet<T(==), K(==)>(s: seq<T>, key: T -> K): set<K> {
    set x | x in s :: key(x)
  }

  /** Row `i` is the last row of `s` with its key. */
  ghost predicate IsLastOfKey<T, K>(s: seq<T>, i: int, key: T -> K)
    requires 0 <= i < |s|
  {
    forall j :: i < j < |s| ==> key(s[j]) != key(s[i])
  }

  /** Row `i` is the first row of `s` with its key. */
  ghost predicate IsFirstOfKey<T, K>(s: seq<T>, i: int, key: T -> K)
    requires 0 <= i < |s|
  {
    forall j :: 0 <= j < i ==> key(s[j]) != key(s[i])
  }

  // ---------------------------------------------------------------------
  // Boolean-mask selection, `df[mask]`
  // ---------------------------------------------------------------------

  /** The rows of `s` for which `p` holds, in their original order. A
      subsequence that keeps every selected row as often as `s` holds it and
      nothing else: this pins the result down completely. */
  function Filter<T(!new)>(s: seq<T>, p: T -> bool): (r: seq<T>)
    ensures IsSubseq(r, s)
    ensures forall x {:trigger multiset(r)[x]} ::
              multiset(r)[x] == if p(x) then multiset(s)[x] else 0
    ensures forall x :: x in r <==> x in s && p(x)
  {
    if |s| == 0 then []
    else
      assert s == [s[0]] + s[1..];
      var rest := Filter(s[1..], p);
      if p(s[0]) then [s[0]] + rest else rest
  }

  /** Two masks that agree on the rows of `s` select the same rows. */
  lemma {:induction false} FilterSameMask<T(!new)>(s: seq<T>, p: T -> bool, q: T -> bool)
    requires forall x :: x in s ==> p(x) == q(x)
    ensures Filter(s, p) == Filter(s, q)
  {
    if |s| > 0 {
      assert forall x :: x in s[1..] ==> x in s;
      FilterSameMask(s[1..], p, q);
    }
  }

  lemma SubseqLength<T>(a: seq<T>, b: seq<T>)
    requires IsSubseq(a, b)
    ensures |a| <= |b|
    decreases |b|
  {
    if |a| > 0 {
      if a[0] == b[0] && IsSubseq(a[1..], b[1..]) {
        SubseqLength(a[1..], b[1..]);
      } else {
        SubseqLength(a, b[1..]);
      }
    }
  }

  lemma SubseqMember<T>(a: seq<T>, b: seq<T>, x: T)
    requires IsSubseq(a, b) && x in a
    ensures x in b
    decreases |b|
  {
    if a[0] == b[0] && IsSubseq(a[1..], b[1..]) {
      if x != a[0] {
        assert x in a[1..];
        SubseqMember(a[1..], b[1..], x);
      }
    } else {
      SubseqMember(a, b[1..], x);
    }
  }

  /** A subsequence as long as the sequence is the sequence itself. */
  lemma SubseqFull<T>(a: seq<T>, b: seq<T>)
    requires IsSubseq(a, b) && |a| == |b|
    ensures a == b
    decreases |b|
  {
    if |a| > 0 {
      if a[0] == b[0] && IsSubseq(a[1..], b[1..]) {
        SubseqFull(a[1..], b[1..]);
      } else {
        SubseqLength(a, b[1..]);
      }
    }
  }

  /** The predicate "`column` equals `key`", as one function value so that
      every selection on the same column and key uses the same mask. */
  function Matches<T, V(==)>(column: T -> V, key: V): T -> bool {
    x => column(x) == key
  }

  /** A mask that selects every row leaves the table as it is. */
  lemma {:induction false} FilterAll<T(!new)>(s: seq<T>, p: T -> bool)
    requires forall x :: x in s ==> p(x)
    ensures Filter(s, p) == s
  {
    if |s| > 0 {
      FilterAll(s[1..], p);
    }
  }

  lemma {:induction false} FilterAppend<T(!new)>(a: seq<T>, b: seq<T>, p: T -> bool)
    ensures Filter(a + b, p) == Filter(a, p) + Filter(b, p)
  {
    if |a| > 0 {
      assert (a + b)[1..] == a[1..] + b;
      FilterAppend(a[1..], b, p);
    } else {
      assert a + b == b;
    }
  }

  /** The row positions a mask selects. */
  function Positions<T>(s: seq<T>, p: T -> bool): set<int> {
    set i | 0 <= i < |s| && p(s[i])
  }

  /** The length of a selection is the number of row positions the mask
      selects. */
  lemma {:induction false} FilterCountsIndices<T(!new)>(s: seq<T>, p: T -> bool)
    ensures |Filter(s, p)| == |Positions(s, p)|
  {
    if |s| > 0 {
      var init, last := s[..|s| - 1], s[|s| - 1];
      assert s == init + [last];
      FilterAppend(init, [last], p);
      FilterCountsIndices(init, p);
      PositionsSnoc(init, last, p);
    }
  }

  /** Appending a row adds its position exactly when the mask selects it. */
  lemma PositionsSnoc<T>(init: seq<T>, last: T, p: T -> bool)
    ensures |Positions(init + [last], p)| == |Positions(init, p)| + (if p(last) then 1 else 0)
  {
    var s := init + [last];
    var a := Positions(init, p);
    var b := Positions(s, p);
    assert forall i :: 0 <= i < |init| ==> s[i] == init[i];
    assert |init| !in a;
    if p(last) {
      assert b == a + {|init|};
    } else {
      assert b == a;
    }
  }

  /** The first row of a non-empty selection is the first row of `s` the
      mask selects. */
  lemma {:induction false} FilterHead<T(!new)>(s: seq<T>, p: T -> bool)
    requires Filter(s, p) != []
    ensures exists k :: 0 <= k < |s| && s[k] == Filter(s, p)[0] && p(s[k]) && forall j :: 0 <= j < k ==> !p(s[j])
  {
    if !p(s[0]) {
      FilterHead(s[1..], p);
      var k :| 0 <= k < |s[1..]| && s[1..][k] == Filter(s[1..], p)[0] && p(s[1..][k])
               && forall j :: 0 <= j < k ==> !p(s[1..][j]);
      assert s[k + 1] == s[1..][k];
      forall j | 0 <= j < k + 1
        ensures !p(s[j])
      {
        if j > 0 {
          assert s[j] == s[1..][j - 1];
        }
      }
    }
  }

  /** Selecting with `p` then with `q` is selecting with their conjunction. */
  lemma {:induction false} FilterFilter<T(!new)>(s: seq<T>, p: T -> bool, q: T -> bool, pq: T -> bool)
    requires forall x :: pq(x) <==> p(x) && q(x)
    ensures Filter(Filter(s, p), q) == Filter(s, pq)
  {
    if |s| > 0 {
      FilterFilter(s[1..], p, q, pq);
    }
  }

  /** A weaker mask selects at least as many rows. */
  lemma {:induction false} FilterMonotone<T(!new)>(s: seq<T>, p: T -> bool, q: T -> bool)
    requires forall x :: p(x) ==> q(x)
    ensures |Filter(s, p)| <= |Filter(s, q)|
  {
    if |s| > 0 {
      FilterMonotone(s[1..], p, q);
    }
  }

  /** Selecting from a subsequence selects no more rows. */
  lemma {:induction false} SubseqFilterLength<T(!new)>(a: seq<T>, b: seq<T>, p: T -> bool)
    requires IsSubseq(a, b)
    ensures |Filter(a, p)| <= |Filter(b, p)|
    decreases |b|
  {
    if |a| > 0 {
      if a[0] == b[0] && IsSubseq(a[1..], b[1..]) {
        SubseqFilterLength(a[1..], b[1..], p);
      } else {
        SubseqFilterLength(a, b[1..], p);
      }
    }
  }

  /** A selection of a table with distinct keys still has distinct keys. */
  lemma {:induction false} FilterKeepsDistinctKeys<T(!new), K>(s: seq<T>, p: T -> bool, key: T -> K)
    requires DistinctKeys(s, key)
    ensures DistinctKeys(Filter(s, p), key)
  {
    if |s| > 0 {
      assert DistinctKeys(s[1..], key) by {
        forall i, j | 0 <= i < j < |s| - 1
          ensures key(s[1..][i]) != key(s[1..][j])
        {
          assert s[1..][i] == s[i + 1] && s[1..][j] == s[j + 1];
        }
      }
      FilterKeepsDistinctKeys(s[1..], p, key);
      var rest := Filter(s[1..], p);
      if p(s[0]) {
        forall j | 0 <= j < |rest|
          ensures key(s[0]) != key(rest[j])
        {
          assert rest[j] in s[1..];
          var k :| 0 <= k < |s[1..]| && s[1..][k] == rest[j];
          assert s[k + 1] == rest[j];
        }
      }
    }
  }

  /** A table whose rows have distinct keys has exactly as many rows as keys. */
  lemma {:induction false} DistinctKeysCard<T, K>(s: seq<T>, key: T -> K)
    requires DistinctKeys(s, key)
    ensures |KeySet(s, key)| == |s|
  {
    if |s| == 0 {
      assert KeySet(s, key) == {};
    } else {
      assert DistinctKeys(s[1..], key) by {
        forall i, j | 0 <= i < j < |s| - 1
          ensures key(s[1..][i]) != key(s[1..][j])
        {
          assert s[1..][i] == s[i + 1] && s[1..][j] == s[j + 1];
        }
      }
      DistinctKeysCard(s[1..], key);
      assert s == [s[0]] + s[1..];
      assert KeySet(s, key) == {key(s[0])} + KeySet(s[1..], key);
      forall x | x in s[1..]
        ensures key(x) != key(s[0])
      {
        var k :| 0 <= k < |s[1..]| && s[1..][k] == x;
        assert s[k + 1] == x;
      }
    }
  }

  // ---------------------------------------------------------------------
  // drop_duplicates
  // ---------------------------------------------------------------------

  /** `drop_duplicates(subset, keep='last')`: one row per key, order kept.
      Which row is kept is stated by `DropDuplicatesLastKeepsLast`. */
  function DropDuplicatesLast<T(==), K(==)>(s: seq<T>, key: T -> K): (r: seq<T>)
    ensures IsSubseq(r, s)
    ensures DistinctKeys(r, key)
    ensures KeySet(r, key) == KeySet(s, key)
  {
    if |s| == 0 then []
    else
      var rest := DropDuplicatesLast(s[1..], key);
      assert s == [s[0]] + s[1..];
      if key(s[0]) in KeySet(s[1..], key) then rest
      else
        ConsDistinctKeys(s[0], rest, key);
        assert KeySet([s[0]] + rest, key) == {key(s[0])} + KeySet(rest, key);
        [s[0]] + rest
  }

  lemma ConsDistinctKeys<T, K>(x: T, s: seq<T>, key: T -> K)
    requires DistinctKeys(s, key) && key(x) !in KeySet(s, key)
    ensures DistinctKeys([x] + s, key)
  {
    var r := [x] + s;
    forall i, j | 0 <= i < j < |r|
      ensures key(r[i]) != key(r[j])
    {
      assert r[j] == s[j - 1];
      if i > 0 {
        assert r[i] == s[i - 1];
      }
    }
  }

  lemma SnocDistinctKeys<T, K>(s: seq<T>, x: T, key: T -> K)
    requires DistinctKeys(s, key) && key(x) !in KeySet(s, key)
    ensures DistinctKeys(s + [x], key)
  {
    var r := s + [x];
    forall i, j | 0 <= i < j < |r|
      ensures key(r[i]) != key(r[j])
    {
      assert r[i] == s[i];
      if j < |s| {
        assert r[j] == s[j];
      }
    }
  }

  /** The rows `drop_duplicates(keep='last')` keeps are exactly the last row
      of each key. */
  lemma {:induction false} DropDuplicatesLastKeepsLast<T, K>(s: seq<T>, key: T -> K)
    ensures forall i :: 0 <= i < |s| && IsLastOfKey(s, i, key) ==> s[i] in DropDuplicatesLast(s, key)
    ensures forall x :: x in DropDuplicatesLast(s, key) ==>
              exists i :: 0 <= i < |s| && s[i] == x && IsLastOfKey(s, i, key)
  {
    if |s| > 0 {
      var tail := s[1..];
      var rest := DropDuplicatesLast(tail, key);
      var r := DropDuplicatesLast(s, key);
      DropDuplicatesLastKeepsLast(tail, key);
      forall i | 1 <= i < |s| && IsLastOfKey(s, i, key)
        ensures s[i] in r
      {
        assert s[i] == tail[i - 1];
        assert IsLastOfKey(tail, i - 1, key) by {
          forall j | i - 1 < j < |tail|
            ensures key(tail[j]) != key(tail[i - 1])
          {
            assert tail[j] == s[j + 1];
          }
        }
      }
      forall x | x in rest
        ensures exists i :: 0 <= i < |s| && s[i] == x && IsLastOfKey(s, i, key)
      {
        var i' :| 0 <= i' < |tail| && tail[i'] == x && IsLastOfKey(tail, i', key);
        assert s[i' + 1] == x;
        assert IsLastOfKey(s, i' + 1, key) by {
          forall j | i' + 1 < j < |s|
            ensures key(s[j]) != key(s[i' + 1])
          {
            assert s[j] == tail[j - 1];
          }
        }
      }
      if key(s[0]) !in KeySet(tail, key) {
        assert IsLastOfKey(s, 0, key) by {
          forall j | 0 < j < |s|
            ensures key(s[j]) != key(s[0])
          {
            assert s[j] in tail;
          }
        }
      }
    }
  }

  /** `drop_duplicates(subset)` with pandas' default `keep='first'`: one row
      per key. Which row is kept is stated by `DropDuplicatesFirstKeepsFirst`. */
  function DropDuplicatesFirst<T(==), K(==)>(s: seq<T>, key: T -> K): (r: seq<T>)
    ensures DistinctKeys(r, key)
    ensures KeySet(r, key) == KeySet(s, key)
    ensures forall x :: x in r ==> x in s
  {
    if |s| == 0 then []
    else
      var init, last := s[..|s| - 1], s[|s| - 1];
      var rest := DropDuplicatesFirst(init, key);
      assert s == init + [last];
      if key(last) in KeySet(init, key) then rest
      else
        SnocDistinctKeys(rest, last, key);
        assert KeySet(rest + [last], key) == KeySet(rest, key) + {key(last)};
        rest + [last]
  }

  /** The rows `drop_duplicates(keep='first')` keeps are exactly the first
      row of each key. */
  lemma {:induction false} DropDuplicatesFirstKeepsFirst<T, K>(s: seq<T>, key: T -> K)
    ensures forall i :: 0 <= i < |s| && IsFirstOfKey(s, i, key) ==> s[i] in DropDuplicatesFirst(s, key)
    ensures forall x :: x in DropDuplicatesFirst(s, key) ==>
              exists i :: 0 <= i < |s| && s[i] == x && IsFirstOfKey(s, i, key)
  {
    if |s| > 0 {
      var init, last := s[..|s| - 1], s[|s| - 1];
      var rest := DropDuplicatesFirst(init, key);
      var r := DropDuplicatesFirst(s, key);
      DropDuplicatesFirstKeepsFirst(init, key);
      assert s == init + [last];
      forall i | 0 <= i < |init| && IsFirstOfKey(s, i, key)
        ensures s[i] in r
      {
        assert s[i] == init[i];
        assert IsFirstOfKey(init, i, key) by {
          forall j | 0 <= j < i
            ensures key(init[j]) != key(init[i])
          {
            assert init[j] == s[j];
          }
        }
      }
      forall x | x in rest
        ensures exists i :: 0 <= i < |s| && s[i] == x && IsFirstOfKey(s, i, key)
      {
        var i :| 0 <= i < |init| && init[i] == x && IsFirstOfKey(init, i, key);
        assert s[i] == x;
        assert IsFirstOfKey(s, i, key) by {
          forall j | 0 <= j < i
            ensures key(s[j]) != key(s[i])
          {
            assert s[j] == init[j];
          }
        }
      }
      if key(last) in KeySet(init, key) {
        assert !IsFirstOfKey(s, |s| - 1, key) by {
          var x :| x in init && key(x) == key(last);
          var k :| 0 <= k < |init| && init[k] == x;
          assert s[k] == x;
        }
      } else {
        assert IsFirstOfKey(s, |s| - 1, key) by {
          forall j | 0 <= j < |s| - 1
            ensures key(s[j]) != key(last)
          {
            assert s[j] in init;
          }
        }
      }
    }
  }

  // ---------------------------------------------------------------------
  // unique() and position dictionaries
  // ---------------------------------------------------------------------

  /** The position of the first occurrence of `x` in `s`. */
  function FirstIndex<T(==)>(s: seq<T>, x: T): (k: nat)
    requires x in s
    ensures k < |s| && s[k] == x && x !in s[..k]
  {
    if s[0] == x then 0
    else
      var k := 1 + FirstIndex(s[1..], x);
      assert s[..k] == [s[0]] + s[1..][..k - 1];
      k
  }

  lemma FirstIndexUnique<T>(s: seq<T>, x: T, k: int)
    requires 0 <= k < |s| && s[k] == x && x !in s[..k]
    ensures FirstIndex(s, x) == k
  {
  }

  /** Appending to a sequence moves no first occurrence. */
  lemma FirstIndexExtend<T>(s: seq<T>, y: T)
    ensures forall x :: x in s ==> FirstIndex(s + [y], x) == FirstIndex(s, x)
    ensures y !in s ==> FirstIndex(s + [y], y) == |s|
  {
    forall x | x in s
      ensures FirstIndex(s + [y], x) == FirstIndex(s, x)
    {
      var k := FirstIndex(s, x);
      assert (s + [y])[..k] == s[..k];
      FirstIndexUnique(s + [y], x, k);
    }
    if y !in s {
      assert (s + [y])[..|s|] == s;
      FirstIndexUnique(s + [y], y, |s|);
    }
  }

  /** `Series.unique()`: every value once, in order of first occurrence. */
  function Unique<T(!new,==)>(s: seq<T>): (u: seq<T>)
    ensures Distinct(u)
    ensures forall x :: x in u <==> x in s
    ensures forall i, j :: 0 <= i < j < |u| ==> FirstIndex(s, u[i]) < FirstIndex(s, u[j])
  {
    if |s| == 0 then []
    else
      var init, last := s[..|s| - 1], s[|s| - 1];
      assert s == init + [last];
      var u := Unique(init);
      FirstIndexExtend(init, last);
      if last in u then u
      else
        assert forall i :: 0 <= i < |u| ==> FirstIndex(s, u[i]) < |init|;
        u + [last]
  }

  /** The dictionary `{u[i]: i for i in range(len(u))}`; a later position
      overwrites an earlier one, as in Python. */
  function PositionMap<T(==)>(u: seq<T>): (m: map<T, int>)
    ensures m.Keys == set x | x in u
    ensures forall x :: x in m ==> 0 <= m[x] < |u| && u[m[x]] == x
    ensures Distinct(u) ==> forall i :: 0 <= i < |u| ==> m[u[i]] == i
  {
    if |u| == 0 then map[]
    else
      var init := u[..|u| - 1];
      assert u == init + [u[|u| - 1]];
      PositionMap(init)[u[|u| - 1] := |u| - 1]
  }

  // ---------------------------------------------------------------------
  // sort_values on one numeric column
  // ---------------------------------------------------------------------

  ghost predicate SortedBy<T>(s: seq<T>, key: T -> real) {
    forall i, j :: 0 <= i < j < |s| ==> key(s[i]) <= key(s[j])
  }

  function InsertBy<T>(x: T, s: seq<T>, key: T -> real): (r: seq<T>)
    requires SortedBy(s, key)
    ensures SortedBy(r, key)
    ensures multiset(r) == multiset(s) + multiset{x}
  {
    if |s| == 0 then [x]
    else if key(x) <= key(s[0]) then
      SortedFromHead(s, key);
      ConsSorted(x, s, key);
      [x] + s
    else
      assert s == [s[0]] + s[1..];
      var rest := InsertBy(x, s[1..], key);
      SortedFromHead(s, key);
      LowerBoundKept(x, s[1..], rest, key, key(s[0]));
      ConsSorted(s[0], rest, key);
      [s[0]] + rest
  }

  /** The first key of a sorted sequence bounds all of them. */
  lemma SortedFromHead<T>(s: seq<T>, key: T -> real)
    requires SortedBy(s, key) && |s| > 0
    ensures forall i :: 0 <= i < |s| ==> key(s[0]) <= key(s[i])
    ensures forall i :: 0 <= i < |s[1..]| ==> key(s[0]) <= key(s[1..][i])
  {
    forall i | 0 <= i < |s[1..]|
      ensures key(s[0]) <= key(s[1..][i])
    {
      assert s[1..][i] == s[i + 1];
    }
  }

  /** A key no larger than every key of a sorted sequence can go in front. */
  lemma ConsSorted<T>(h: T, s: seq<T>, key: T -> real)
    requires SortedBy(s, key) && forall i :: 0 <= i < |s| ==> key(h) <= key(s[i])
    ensures SortedBy([h] + s, key)
  {
    var t := [h] + s;
    forall i, j | 0 <= i < j < |t|
      ensures key(t[i]) <= key(t[j])
    {
      assert t[j] == s[j - 1];
      if i > 0 {
        assert t[i] == s[i - 1];
      }
    }
  }

  /** A lower bound of `x` and of every element of `s` bounds every element
      of a sequence holding exactly those. */
  lemma LowerBoundKept<T>(x: T, s: seq<T>, rest: seq<T>, key: T -> real, lo: real)
    requires multiset(rest) == multiset(s) + multiset{x}
    requires lo <= key(x) && forall i :: 0 <= i < |s| ==> lo <= key(s[i])
    ensures forall i :: 0 <= i < |rest| ==> lo <= key(rest[i])
  {
    forall i | 0 <= i < |rest|
      ensures lo <= key(rest[i])
    {
      var y := rest[i];
      assert y in multiset(rest);
      if y != x {
        assert y in multiset(s);
        var k :| 0 <= k < |s| && s[k] == y;
      }
    }
  }

  /** An ascending sort on `key`: a permutation of `s` in non-decreasing key
      order. */
  function SortBy<T>(s: seq<T>, key: T -> real): (r: seq<T>)
    ensures SortedBy(r, key)
    ensures multiset(r) == multiset(s)
  {
    if |s| == 0 then []
    else
      assert s == [s[0]] + s[1..];
      InsertBy(s[0], SortBy(s[1..], key), key)
  }

  // ---------------------------------------------------------------------
  // Column-wise assignment, one value per row
  // ---------------------------------------------------------------------

  /** `f` applied to every row, in order. */
  function Map<A, B>(f: A -> B, s: seq<A>): (r: seq<B>)
    ensures |r| == |s| && forall i :: 0 <= i < |s| ==> r[i] == f(s[i])
  {
    seq(|s|, i requires 0 <= i < |s| => f(s[i]))
  }

  lemma MapAppend<A, B>(f: A -> B, a: seq<A>, b: seq<A>)
    ensures Map(f, a + b) == Map(f, a) + Map(f, b)
  {
  }

  /** Rows holding the same values in another order give the same values
      once mapped: a column assignment commutes with reordering. */
  lemma {:induction false} MapPermutation<A, B>(f: A -> B, a: seq<A>, b: seq<A>)
    requires multiset(a) == multiset(b)
    ensures multiset(Map(f, a)) == multiset(Map(f, b))
    decreases |a|
  {
    if |a| == 0 {
      assert |b| == |multiset(b)| == 0;
    } else {
      var x := a[0];
      assert x in multiset(b);
      var k :| 0 <= k < |b| && b[k] == x;
      var rest := b[..k] + b[k + 1..];
      RemoveMatched(a, b, k);
      MapPermutation(f, a[1..], rest);
      assert a == [x] + a[1..];
      MapAppend(f, [x], a[1..]);
      assert Map(f, [x]) == [f(x)];
      MapAround(f, b, k);
    }
  }

  /** Taking the first row of `a` out of `b`, where it sits at `k`, leaves
      the rest of `a`. */
  lemma RemoveMatched<A>(a: seq<A>, b: seq<A>, k: int)
    requires multiset(a) == multiset(b) && |a| > 0 && 0 <= k < |b| && b[k] == a[0]
    ensures multiset(b[..k] + b[k + 1..]) == multiset(a[1..])
  {
    assert b == b[..k] + [b[k]] + b[k + 1..];
    assert a == [a[0]] + a[1..];
    var rest := b[..k] + b[k + 1..];
    assert multiset(rest) == multiset(b[..k]) + multiset(b[k + 1..]);
    forall y
      ensures multiset(rest)[y] == multiset(a[1..])[y]
    {
      assert multiset(a)[y] == multiset(b)[y];
    }
  }

  /** Mapping `b` is mapping it around row `k`. */
  lemma MapAround<A, B>(f: A -> B, b: seq<A>, k: int)
    requires 0 <= k < |b|
    ensures multiset(Map(f, b)) == multiset(Map(f, b[..k] + b[k + 1..])) + multiset{f(b[k])}
  {
    assert b == b[..k] + [b[k]] + b[k + 1..];
    MapAppend(f, b[..k] + [b[k]], b[k + 1..]);
    MapAppend(f, b[..k], [b[k]]);
    MapAppend(f, b[..k], b[k + 1..]);
  }
}
