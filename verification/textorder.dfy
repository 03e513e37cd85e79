/** `sort_values` on a text column: Python's order on strings, with missing
    values placed last, and an ascending sort on it. */
module TextOrder {
  import opened Wrappers

  /** Python's `<=` on `str`: the first differing code point decides, and a
      proper prefix comes first. */
  predicate StrLe(a: string, b: string)
    decreases |a|
  {
    if a == [] then true
    else if b == [] then false
    else if a[0] != b[0] then a[0] < b[0]
    else StrLe(a[1..], b[1..])
  }

  /** Any two strings compare one way or the other. */
  lemma {:induction false} StrLeTotal(a: string, b: string)
    ensures StrLe(a, b) || StrLe(b, a)
    decreases |a|
  {
    if a != [] && b != [] && a[0] == b[0] {
      StrLeTotal(a[1..], b[1..]);
    }
  }

  lemma {:induction false} StrLeTransitive(a: string, b: string, c: string)
    requires StrLe(a, b) && StrLe(b, c)
    ensures StrLe(a, c)
    decreases |a|
  {
    if a != [] && b != [] && c != [] && a[0] == b[0] == c[0] {
      StrLeTransitive(a[1..], b[1..], c[1..]);
    }
  }

  /** Strings that compare both ways are equal, so `StrLe` is a total order. */
  lemma {:induction false} StrLeAntisymmetric(a: string, b: string)
    requires StrLe(a, b) && StrLe(b, a)
    ensures a == b
    decreases |a|
  {
    if a != [] {
      StrLeAntisymmetric(a[1..], b[1..]);
      assert a == [a[0]] + a[1..] && b == [b[0]] + b[1..];
    }
  }

  /** The order of `sort_values` on a column with missing values: present
      values by `StrLe`, missing ones after all of them (`na_position` is
      "last" by default). */
  predicate TextLe(a: Option<string>, b: Option<string>) {
    match b
    case None => true
    case Some(y) => a.Some? && StrLe(a.value, y)
  }

  lemma TextLeTotal(a: Option<string>, b: Option<string>)
    ensures TextLe(a, b) || TextLe(b, a)
  {
    if a.Some? && b.Some? {
      StrLeTotal(a.value, b.value);
    }
  }

  lemma TextLeTransitive(a: Option<string>, b: Option<string>, c: Option<string>)
    requires TextLe(a, b) && TextLe(b, c)
    ensures TextLe(a, c)
  {
    if c.Some? {
      StrLeTransitive(a.value, b.value, c.value);
    }
  }

  ghost predicate SortedByText<T>(s: seq<T>, key: T -> Option<string>) {
    forall i, j :: 0 <= i < j < |s| ==> TextLe(key(s[i]), key(s[j]))
  }

  function InsertByText<T>(x: T, s: seq<T>, key: T -> Option<string>): (r: seq<T>)
    requires SortedByText(s, key)
    ensures SortedByText(r, key)
    ensures multiset(r) == multiset(s) + multiset{x}
  {
    if |s| == 0 then [x]
    else if TextLe(key(x), key(s[0])) then
      TextSortedFromHead(s, key);
      forall i | 0 <= i < |s|
        ensures TextLe(key(x), key(s[i]))
      {
        if i > 0 {
          TextLeTransitive(key(x), key(s[0]), key(s[i]));
        }
      }
      TextConsSorted(x, s, key);
      [x] + s
    else
      assert s == [s[0]] + s[1..];
      TextLeTotal(key(x), key(s[0]));
      var rest := InsertByText(x, s[1..], key);
      TextSortedFromHead(s, key);
      TextLowerBoundKept(x, s[1..], rest, key, key(s[0]));
      TextConsSorted(s[0], rest, key);
      [s[0]] + rest
  }

  lemma TextSortedFromHead<T>(s: seq<T>, key: T -> Option<string>)
    requires SortedByText(s, key) && |s| > 0
    ensures forall i :: 0 <= i < |s[1..]| ==> TextLe(key(s[0]), key(s[1..][i]))
  {
    forall i | 0 <= i < |s[1..]|
      ensures TextLe(key(s[0]), key(s[1..][i]))
    {
      assert s[1..][i] == s[i + 1];
    }
  }

  lemma TextConsSorted<T>(h: T, s: seq<T>, key: T -> Option<string>)
    requires SortedByText(s, key) && forall i :: 0 <= i < |s| ==> TextLe(key(h), key(s[i]))
    ensures SortedByText([h] + s, key)
  {
    var t := [h] + s;
    forall i, j | 0 <= i < j < |t|
      ensures TextLe(key(t[i]), key(t[j]))
    {
      assert t[j] == s[j - 1];
      if i > 0 {
        assert t[i] == s[i - 1];
      }
    }
  }

  lemma TextLowerBoundKept<T>(x: T, s: seq<T>, rest: seq<T>, key: T -> Option<string>, lo: Option<string>)
    requires multiset(rest) == multiset(s) + multiset{x}
    requires TextLe(lo, key(x)) && forall i :: 0 <= i < |s| ==> TextLe(lo, key(s[i]))
    ensures forall i :: 0 <= i < |rest| ==> TextLe(lo, key(rest[i]))
  {
    forall i | 0 <= i < |rest|
      ensures TextLe(lo, key(rest[i]))
    {
      var y := rest[i];
      assert y in multiset(rest);
      if y != x {
        assert y in multiset(s);
        var k :| 0 <= k < |s| && s[k] == y;
      }
    }
  }

  /** An ascending sort on a text column: a permutation of `s` in
      non-decreasing `TextLe` order, every row with a value before every row
      without one. pandas' default sort is not stable, so the order of
      rows with equal values is not promised. */
  function SortByText<T>(s: seq<T>, key: T -> Option<string>): (r: seq<T>)
    ensures SortedByText(r, key)
    ensures multiset(r) == multiset(s)
    ensures forall i, j :: 0 <= i < j < |r| && key(r[i]).None? ==> key(r[j]).None?
  {
    if |s| == 0 then []
    else
      assert s == [s[0]] + s[1..];
      InsertByText(s[0], SortByText(s[1..], key), key)
  }
}
