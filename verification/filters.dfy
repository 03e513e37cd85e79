/** The row filters of `utilities_make_oncoprint.py`: `filter_df_ctDNA`
    (keep each patient's highest-ctDNA rows), `filter_df_type` (rows whose
    column equals a key) and `filter_df_by_col` (one such table per distinct
    value of a column). */
module Filters {
  import opened Wrappers
  import opened Seqs
  import opened Records

  // ---------------------------------------------------------------------
  // filter_df_ctDNA
  // ---------------------------------------------------------------------

  /** `groupby('Patient ID')['ctDNA fraction'].transform(max)` for one
      patient: the largest ctDNA among that patient's rows, if any. */
  function GroupMax(rows: seq<CnRow>, patient: string): (m: Option<real>)
    ensures m.None? <==> forall x :: x in rows ==> x.patient != patient
    ensures m.Some? ==> exists x :: x in rows && x.patient == patient && x.ctDNA == m.value
    ensures m.Some? ==> forall x :: x in rows && x.patient == patient ==> x.ctDNA <= m.value
  {
    if |rows| == 0 then None
    else
      assert rows == [rows[0]] + rows[1..];
      var rest := GroupMax(rows[1..], patient);
      if rows[0].patient != patient then rest
      else match rest
        case None => Some(rows[0].ctDNA)
        case Some(v) => Some(if rows[0].ctDNA > v then rows[0].ctDNA else v)
  }

  /** Row `x` has the highest ctDNA among the rows of its patient in `df`. */
  ghost predicate IsPatientMax(df: seq<CnRow>, x: CnRow) {
    forall y :: y in df && y.patient == x.patient ==> y.ctDNA <= x.ctDNA
  }

  /** The mask of `filter_df_ctDNA`: the row's ctDNA equals its patient's
      maximum. */
  function AtPatientMax(df: seq<CnRow>): CnRow -> bool {
    (x: CnRow) => GroupMax(df, x.patient) == Some(x.ctDNA)
  }

  /** `filter_df_ctDNA`: the rows whose ctDNA is the maximum of their
      patient, in their original order (a subsequence), each kept as often
      as it occurs; every other row dropped. Ties keep every tied row. */
  function FilterCtDNA(df: seq<CnRow>): (r: seq<CnRow>)
    ensures IsSubseq(r, df)
    ensures forall x {:trigger multiset(r)[x]} ::
              multiset(r)[x] == if IsPatientMax(df, x) then multiset(df)[x] else 0
  {
    var keep := AtPatientMax(df);
    assert forall x :: x in df ==> (keep(x) <==> IsPatientMax(df, x)) by {
      forall x | x in df
        ensures keep(x) <==> IsPatientMax(df, x)
      {
        var m := GroupMax(df, x.patient);
        assert m.Some?;
      }
    }
    Filter(df, keep)
  }

  /** No patient is lost: every patient of the input keeps at least one row. */
  lemma FilterCtDNAKeepsPatients(df: seq<CnRow>)
    ensures forall x :: x in df ==> exists y :: y in FilterCtDNA(df) && y.patient == x.patient
  {
    var r := FilterCtDNA(df);
    forall x | x in df
      ensures exists y :: y in r && y.patient == x.patient
    {
      var p := x.patient;
      var m := GroupMax(df, p);
      var y :| y in df && y.patient == p && y.ctDNA == m.value;
      assert IsPatientMax(df, y);
      assert multiset(r)[y] == multiset(df)[y];
      assert y in multiset(r);
    }
  }

  /** Every kept row carries its patient's maximum, so any two kept rows of
      one patient have the same ctDNA. */
  lemma FilterCtDNASharesMax(df: seq<CnRow>)
    ensures forall a, b :: a in FilterCtDNA(df) && b in FilterCtDNA(df) && a.patient == b.patient ==>
              a.ctDNA == b.ctDNA
  {
    var r := FilterCtDNA(df);
    forall a, b | a in r && b in r && a.patient == b.patient
      ensures a.ctDNA == b.ctDNA
    {
      assert a in multiset(r) && b in multiset(r);
      assert IsPatientMax(df, a) && a in df;
      assert IsPatientMax(df, b) && b in df;
    }
  }

  /** When a patient's samples have distinct ctDNA values, as the melted
      table has (ctDNA is a per-sample column), the rows kept for a patient
      all come from one sample. */
  lemma FilterCtDNAOneSamplePerPatient(df: seq<CnRow>)
    requires forall a, b :: a in df && b in df && a.patient == b.patient && a.ctDNA == b.ctDNA ==>
               a.sample == b.sample
    ensures forall a, b :: a in FilterCtDNA(df) && b in FilterCtDNA(df) && a.patient == b.patient ==>
              a.sample == b.sample
  {
    var r := FilterCtDNA(df);
    FilterCtDNASharesMax(df);
    forall a | a in r
      ensures a in df
    {
      SubseqMember(r, df, a);
    }
  }

  /** Filtering an already filtered table changes nothing. */
  lemma FilterCtDNAIdempotent(df: seq<CnRow>)
    ensures FilterCtDNA(FilterCtDNA(df)) == FilterCtDNA(df)
  {
    var r := FilterCtDNA(df);
    KeptRowsAreMax(df);
    var rr := FilterCtDNA(r);
    assert multiset(rr) == multiset(r) by {
      forall x
        ensures multiset(rr)[x] == multiset(r)[x]
      {
        if x !in r {
          assert multiset(r)[x] == 0;
        }
      }
    }
    assert |rr| == |multiset(rr)| == |multiset(r)| == |r|;
    SubseqFull(rr, r);
  }

  lemma KeptRowsAreMax(df: seq<CnRow>)
    ensures forall x :: x in FilterCtDNA(df) ==> IsPatientMax(FilterCtDNA(df), x)
  {
    var r := FilterCtDNA(df);
    forall x | x in r
      ensures IsPatientMax(r, x)
    {
      assert x in multiset(r);
      assert IsPatientMax(df, x);
      forall y | y in r && y.patient == x.patient
        ensures y.ctDNA <= x.ctDNA
      {
        SubseqMember(r, df, y);
      }
    }
  }

  // ---------------------------------------------------------------------
  // filter_df_type
  // ---------------------------------------------------------------------

  /** `filter_df_type(df, key, colname)`: the rows whose `column` equals
      `key`, order kept, each kept as often as it occurs. Its length is the
      number of positions that hold such a row. */
  function FilterType<T(!new), V(==)>(df: seq<T>, key: V, column: T -> V): (r: seq<T>)
    ensures IsSubseq(r, df)
    ensures forall x {:trigger multiset(r)[x]} ::
              multiset(r)[x] == if column(x) == key then multiset(df)[x] else 0
    ensures forall x :: x in r ==> column(x) == key
    ensures |r| == |set i | 0 <= i < |df| && column(df[i]) == key|
  {
    var p := Matches(column, key);
    FilterCountsIndices(df, p);
    assert Positions(df, p) == (set i | 0 <= i < |df| && column(df[i]) == key);
    Filter(df, p)
  }

  /** Unfolds one row of a `FilterType` selection. */
  lemma FilterTypeCons<T(!new), V>(df: seq<T>, key: V, column: T -> V)
    requires |df| > 0
    ensures |FilterType(df, key, column)| ==
              (if column(df[0]) == key then 1 else 0) + |FilterType(df[1..], key, column)|
  {
  }

  // ---------------------------------------------------------------------
  // filter_df_by_col
  // ---------------------------------------------------------------------

  /** The column as a list, `df[colname]`. */
  function ColumnValues<T, V>(df: seq<T>, column: T -> V): (c: seq<V>)
    ensures |c| == |df|
    ensures forall i :: 0 <= i < |df| ==> c[i] == column(df[i])
  {
    seq(|df|, i requires 0 <= i < |df| => column(df[i]))
  }

  function SumLengths<T>(ls: seq<seq<T>>): nat {
    if |ls| == 0 then 0 else |ls[0]| + SumLengths(ls[1..])
  }

  /** `filter_df_by_col(df, colname)`: one `filter_df_type` table per
      distinct value of the column, in first-occurrence order. The tables
      are non-empty, each is the selection of one value, every value has
      one, and they come in the order the values first appear. The partition
      facts are `FilterByColDisjoint`, `FilterByColCovers` and
      `FilterByColSizes`. */
  function FilterByCol<T(!new), V(!new, ==)>(df: seq<T>, column: T -> V): (r: seq<seq<T>>)
    ensures |r| == |KeySet(df, column)|
    ensures forall i :: 0 <= i < |r| ==> r[i] != [] && column(r[i][0]) in ColumnValues(df, column)
    ensures forall i :: 0 <= i < |r| ==> r[i] == FilterType(df, column(r[i][0]), column)
    ensures forall v :: v in KeySet(df, column) ==> exists i :: 0 <= i < |r| && column(r[i][0]) == v
    ensures forall i, j :: 0 <= i < j < |r| ==>
              FirstIndex(ColumnValues(df, column), column(r[i][0])) <
              FirstIndex(ColumnValues(df, column), column(r[j][0]))
  {
    var keys := Unique(ColumnValues(df, column));
    var r := seq(|keys|, i requires 0 <= i < |keys| => FilterType(df, keys[i], column));
    SelectionsOfDistinctValues(df, column, keys, r);
    r
  }

  lemma ColumnValuesMembers<T, V>(df: seq<T>, column: T -> V)
    ensures forall v :: v in ColumnValues(df, column) <==> v in KeySet(df, column)
  {
    var values := ColumnValues(df, column);
    forall v
      ensures v in values <==> v in KeySet(df, column)
    {
      if v in values {
        var i :| 0 <= i < |values| && values[i] == v;
        assert df[i] in df;
      }
      if v in KeySet(df, column) {
        var x :| x in df && column(x) == v;
        var i :| 0 <= i < |df| && df[i] == x;
        assert values[i] == v;
      }
    }
  }

  /** The selection of a value the column takes starts with a row of that
      value. */
  lemma SelectionHead<T(!new), V>(df: seq<T>, column: T -> V, v: V)
    requires v in KeySet(df, column)
    ensures FilterType(df, v, column) != [] && column(FilterType(df, v, column)[0]) == v
  {
    var r := FilterType(df, v, column);
    var x :| x in df && column(x) == v;
    assert multiset(r)[x] == multiset(df)[x];
    assert x in multiset(r);
    assert r[0] in r;
  }

  lemma SelectionsOfDistinctValues<T(!new), V(!new)>(df: seq<T>, column: T -> V, keys: seq<V>, r: seq<seq<T>>)
    requires keys == Unique(ColumnValues(df, column))
    requires |r| == |keys| && forall i :: 0 <= i < |keys| ==> r[i] == FilterType(df, keys[i], column)
    ensures |r| == |KeySet(df, column)|
    ensures forall i :: 0 <= i < |r| ==> r[i] != [] && column(r[i][0]) in ColumnValues(df, column)
    ensures forall i :: 0 <= i < |r| ==> r[i] == FilterType(df, column(r[i][0]), column)
    ensures forall v :: v in KeySet(df, column) ==> exists i :: 0 <= i < |r| && column(r[i][0]) == v
    ensures forall i, j :: 0 <= i < j < |r| ==>
              FirstIndex(ColumnValues(df, column), column(r[i][0])) <
              FirstIndex(ColumnValues(df, column), column(r[j][0]))
  {
    ColumnValuesMembers(df, column);
    SelectionHeads(df, column, keys, r);
    DistinctValuesCount(df, column, keys);
    SelectionsCover(df, column, keys, r);
  }

  /** Each selection of a value the column takes starts with that value. */
  lemma SelectionHeads<T(!new), V(!new)>(df: seq<T>, column: T -> V, keys: seq<V>, r: seq<seq<T>>)
    requires forall v :: v in keys ==> v in KeySet(df, column)
    requires |r| == |keys| && forall i :: 0 <= i < |keys| ==> r[i] == FilterType(df, keys[i], column)
    ensures forall i :: 0 <= i < |r| ==> r[i] != [] && column(r[i][0]) == keys[i]
  {
    forall i | 0 <= i < |r|
      ensures r[i] != [] && column(r[i][0]) == keys[i]
    {
      assert keys[i] in keys;
      SelectionHead(df, column, keys[i]);
    }
  }

  /** The distinct values of a column are as many as the column's values. */
  lemma DistinctValuesCount<T, V(!new)>(df: seq<T>, column: T -> V, keys: seq<V>)
    requires keys == Unique(ColumnValues(df, column))
    ensures |keys| == |KeySet(df, column)|
  {
    ColumnValuesMembers(df, column);
    assert KeySet(keys, (v: V) => v) == KeySet(df, column);
    DistinctKeysCard(keys, (v: V) => v);
  }

  /** Every value of the column heads one of the selections. */
  lemma SelectionsCover<T(!new), V(!new)>(df: seq<T>, column: T -> V, keys: seq<V>, r: seq<seq<T>>)
    requires forall v :: v in KeySet(df, column) ==> v in keys
    requires |r| == |keys| && forall i :: 0 <= i < |r| ==> r[i] != [] && column(r[i][0]) == keys[i]
    ensures forall v :: v in KeySet(df, column) ==> exists i :: 0 <= i < |r| && column(r[i][0]) == v
  {
    forall v | v in KeySet(df, column)
      ensures exists i :: 0 <= i < |r| && column(r[i][0]) == v
    {
      var i :| 0 <= i < |keys| && keys[i] == v;
      assert column(r[i][0]) == v;
    }
  }

  lemma OccurrencesOfDistinct<V>(keys: seq<V>, v: V)
    requires Distinct(keys) && v in keys
    ensures multiset(keys)[v] == 1
  {
    if keys[0] == v {
      assert keys == [keys[0]] + keys[1..];
      assert v !in keys[1..] by {
        forall j | 0 <= j < |keys[1..]|
          ensures keys[1..][j] != v
        {
          assert keys[1..][j] == keys[j + 1];
        }
      }
    } else {
      assert keys == [keys[0]] + keys[1..];
      assert Distinct(keys[1..]) by {
        forall i, j | 0 <= i < j < |keys| - 1
          ensures keys[1..][i] != keys[1..][j]
        {
          assert keys[1..][i] == keys[i + 1] && keys[1..][j] == keys[j + 1];
        }
      }
      OccurrencesOfDistinct(keys[1..], v);
    }
  }

  /** Removing the first row of `df` shortens exactly the selection of that
      row's value. */
  lemma {:induction false} SumLengthsCons<T(!new), V>(
    df: seq<T>, column: T -> V, keys: seq<V>, ls: seq<seq<T>>, ls': seq<seq<T>>)
    requires |df| > 0
    requires |ls| == |keys| && forall i :: 0 <= i < |ls| ==> ls[i] == FilterType(df, keys[i], column)
    requires |ls'| == |keys| && forall i :: 0 <= i < |ls'| ==> ls'[i] == FilterType(df[1..], keys[i], column)
    ensures SumLengths(ls) == multiset(keys)[column(df[0])] + SumLengths(ls')
  {
    if |keys| > 0 {
      assert keys == [keys[0]] + keys[1..];
      FilterTypeCons(df, keys[0], column);
      SumLengthsCons(df, column, keys[1..], ls[1..], ls'[1..]);
    }
  }

  /** Selections on distinct keys that cover every value of the column have
      lengths summing to the number of rows. */
  lemma {:induction false} SumLengthsCover<T(!new), V>(
    df: seq<T>, column: T -> V, keys: seq<V>, ls: seq<seq<T>>)
    requires Distinct(keys)
    requires forall x :: x in df ==> column(x) in keys
    requires |ls| == |keys| && forall i :: 0 <= i < |ls| ==> ls[i] == FilterType(df, keys[i], column)
    ensures SumLengths(ls) == |df|
  {
    if |df| == 0 {
      EmptySelections(column, keys, ls);
    } else {
      var ls' := seq(|keys|, i requires 0 <= i < |keys| => FilterType(df[1..], keys[i], column));
      SumLengthsCons(df, column, keys, ls, ls');
      OccurrencesOfDistinct(keys, column(df[0]));
      assert forall x :: x in df[1..] ==> x in df;
      SumLengthsCover(df[1..], column, keys, ls');
    }
  }

  lemma {:induction false} EmptySelections<T(!new), V>(column: T -> V, keys: seq<V>, ls: seq<seq<T>>)
    requires |ls| == |keys| && forall i :: 0 <= i < |ls| ==> ls[i] == FilterType([], keys[i], column)
    ensures SumLengths(ls) == 0
  {
    if |ls| > 0 {
      EmptySelections(column, keys[1..], ls[1..]);
    }
  }

  /** The tables of `filter_df_by_col` hold different values of the column. */
  lemma FilterByColValuesDistinct<T(!new), V(!new)>(df: seq<T>, column: T -> V)
    ensures forall i, j :: 0 <= i < j < |FilterByCol(df, column)| ==>
              column(FilterByCol(df, column)[i][0]) != column(FilterByCol(df, column)[j][0])
  {
    var r := FilterByCol(df, column);
    forall i, j | 0 <= i < j < |r|
      ensures column(r[i][0]) != column(r[j][0])
    {
      assert FirstIndex(ColumnValues(df, column), column(r[i][0])) <
             FirstIndex(ColumnValues(df, column), column(r[j][0]));
    }
  }

  /** No row is in two tables of `filter_df_by_col`. */
  lemma FilterByColDisjoint<T(!new), V(!new)>(df: seq<T>, column: T -> V)
    ensures forall i, j, x :: 0 <= i < j < |FilterByCol(df, column)| && x in FilterByCol(df, column)[i] ==>
              x !in FilterByCol(df, column)[j]
  {
    var r := FilterByCol(df, column);
    FilterByColValuesDistinct(df, column);
    forall i, j, x | 0 <= i < j < |r| && x in r[i]
      ensures x !in r[j]
    {
      assert column(x) == column(r[i][0]);
    }
  }

  /** Every input row is in the table of `filter_df_by_col` for its value. */
  lemma FilterByColCovers<T(!new), V(!new)>(df: seq<T>, column: T -> V)
    ensures forall x :: x in df ==>
              exists i :: 0 <= i < |FilterByCol(df, column)| && x in FilterByCol(df, column)[i]
  {
    var r := FilterByCol(df, column);
    forall x | x in df
      ensures exists i :: 0 <= i < |r| && x in r[i]
    {
      assert column(x) in KeySet(df, column);
      var i :| 0 <= i < |r| && column(r[i][0]) == column(x);
      assert multiset(r[i])[x] == multiset(df)[x];
      assert x in multiset(r[i]);
    }
  }

  /** The lengths of the tables of `filter_df_by_col` add up to the number of
      input rows. */
  lemma FilterByColSizes<T(!new), V(!new)>(df: seq<T>, column: T -> V)
    ensures SumLengths(FilterByCol(df, column)) == |df|
  {
    var r := FilterByCol(df, column);
    var keys := seq(|r|, i requires 0 <= i < |r| => column(r[i][0]));
    FilterByColValuesDistinct(df, column);
    assert Distinct(keys);
    forall x | x in df
      ensures column(x) in keys
    {
      assert column(x) in KeySet(df, column);
      var i :| 0 <= i < |r| && column(r[i][0]) == column(x);
      assert keys[i] == column(x);
    }
    SumLengthsCover(df, column, keys, r);
  }
}
