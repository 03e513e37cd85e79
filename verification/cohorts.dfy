/** The split of both tables into the two response cohorts
    (`make_oncoprint2.py`, lines 117-118): `filter_df_by_col` on
    Responder_status, unpacked into two tables each. */
module Cohorts {
  import opened Wrappers
  import opened Seqs
  import opened Records
  import opened Filters

  /** The copy-number and mutation tables drawn in one half of the figure. */
  datatype Cohort = Cohort(cn: seq<CnRow>, muts: seq<MutRow>)

  /** `first` and `second` are the two selections `filter_df_by_col` makes
      of `df` by `column`: non-empty, of two different values that between
      them cover the table, `first` of the value that appears first. */
  ghost predicate IsTwoWaySplit<T(!new), V(!new)>(df: seq<T>, column: T -> V, first: seq<T>, second: seq<T>) {
    && first != [] && second != []
    && column(first[0]) != column(second[0])
    && first == FilterType(df, column(first[0]), column)
    && second == FilterType(df, column(second[0]), column)
    && (forall x :: x in df ==> column(x) == column(first[0]) || column(x) == column(second[0]))
    && column(first[0]) in ColumnValues(df, column) && column(second[0]) in ColumnValues(df, column)
    && FirstIndex(ColumnValues(df, column), column(first[0])) < FirstIndex(ColumnValues(df, column), column(second[0]))
  }

  /** Unpacking `filter_df_by_col(df, column)` into two names: it succeeds
      exactly when the column takes two values, and then gives the two
      selections in first-occurrence order. */
  function SplitTwo<T(!new), V(!new, ==)>(df: seq<T>, column: T -> V): (r: Result<(seq<T>, seq<T>), Error>)
    ensures r.Ok? <==> |KeySet(df, column)| == 2
    ensures r.Err? ==> r.error == UnpackError(|KeySet(df, column)|)
    ensures r.Ok? ==> IsTwoWaySplit(df, column, r.value.0, r.value.1)
  {
    var parts := FilterByCol(df, column);
    if |parts| != 2 then Err(UnpackError(|parts|))
    else
      FilterByColValuesDistinct(df, column);
      forall x | x in df
        ensures column(x) == column(parts[0][0]) || column(x) == column(parts[1][0])
      {
        assert column(x) in KeySet(df, column);
      }
      Ok((parts[0], parts[1]))
  }

  /** `[df_cn1, df_cn2] = filter_df_by_col(df_cn, "Responder_status")` and
      `[df_muts1, df_muts2] = filter_df_by_col(df_muts, ...)`: cohort k
      pairs the k-th copy-number selection with the k-th mutation selection,
      each table ordering its statuses by its own first occurrences. */
  function SplitCohorts(cn: seq<CnRow>, muts: seq<MutRow>): (r: Result<(Cohort, Cohort), Error>)
    ensures r.Ok? <==> |KeySet(cn, CnResponder)| == 2 && |KeySet(muts, MutResponder)| == 2
    ensures r.Err? ==> r.error == UnpackError(if |KeySet(cn, CnResponder)| != 2 then |KeySet(cn, CnResponder)|
                                               else |KeySet(muts, MutResponder)|)
    ensures r.Ok? ==> IsTwoWaySplit(cn, CnResponder, r.value.0.cn, r.value.1.cn)
    ensures r.Ok? ==> IsTwoWaySplit(muts, MutResponder, r.value.0.muts, r.value.1.muts)
  {
    var cs :- SplitTwo(cn, CnResponder);
    var ms :- SplitTwo(muts, MutResponder);
    Ok((Cohort(cs.0, ms.0), Cohort(cs.1, ms.1)))
  }

  /** The first selection of a two-way split is that of the first row's
      value. */
  lemma FirstSelectionIsFirstRows<T(!new), V(!new)>(df: seq<T>, column: T -> V, first: seq<T>, second: seq<T>)
    requires IsTwoWaySplit(df, column, first, second)
    ensures |df| > 0 && column(first[0]) == column(df[0])
  {
    var values := ColumnValues(df, column);
    assert |df| > 0;
    assert df[0] in df;
    FirstIndexUnique(values, column(df[0]), 0);
  }

  /** As written, the first cohort holds the copy-number rows of the status
      of the first copy-number row and the mutation rows of the status of
      the first mutation row, whatever those are. */
  lemma CohortStatusesFollowFirstRows(cn: seq<CnRow>, muts: seq<MutRow>)
    requires SplitCohorts(cn, muts).Ok?
    ensures |cn| > 0 && |muts| > 0
    ensures forall x :: x in SplitCohorts(cn, muts).value.0.cn ==> x.responder == cn[0].responder
    ensures forall m :: m in SplitCohorts(cn, muts).value.0.muts ==> m.responder == muts[0].responder
  {
    var c := SplitCohorts(cn, muts).value.0;
    var d := SplitCohorts(cn, muts).value.1;
    FirstSelectionIsFirstRows(cn, CnResponder, c.cn, d.cn);
    FirstSelectionIsFirstRows(muts, MutResponder, c.muts, d.muts);
  }

  // ---------------------------------------------------------------------
  // The mispaired cohorts
  // ---------------------------------------------------------------------

  /** Two patients as the final sort leaves them: the non-responder has the
      lower ctDNA and comes first. */
  const ExampleCn: seq<CnRow> := [
    CnRow("P2_Baseline", "P2", Some("Baseline"), "AR", 1, 10.0, 3, "Non-responder", Some("#f59496")),
    CnRow("P1_Baseline", "P1", Some("Baseline"), "AR", 2, 30.0, 5, "Responder", Some("#ee2d24"))]

  /** Their mutations in file order, the responder first. */
  const ExampleMuts: seq<MutRow> := [
    MutRow("P1_Baseline", "P1", Some("Baseline"), "AR", "Missense mutation", "Responder", Some("#79B443"), Some("s")),
    MutRow("P2_Baseline", "P2", Some("Baseline"), "AR", "Missense mutation", "Non-responder", Some("#79B443"), Some("s"))]

  lemma ExampleStatuses()
    ensures KeySet(ExampleCn, CnResponder) == {"Non-responder", "Responder"}
    ensures KeySet(ExampleMuts, MutResponder) == {"Non-responder", "Responder"}
  {
    assert ExampleCn[0] in ExampleCn && ExampleCn[1] in ExampleCn;
    assert ExampleMuts[0] in ExampleMuts && ExampleMuts[1] in ExampleMuts;
  }

  /** The split as written pairs the non-responders' copy numbers with the
      responders' mutations: the first cohort's two tables belong to
      different patients. */
  lemma CohortsMispaired()
    ensures SplitCohorts(ExampleCn, ExampleMuts).Ok?
    ensures var c := SplitCohorts(ExampleCn, ExampleMuts).value.0;
            && (forall x :: x in c.cn ==> x.responder == "Non-responder")
            && (forall m :: m in c.muts ==> m.responder == "Responder")
  {
    ExampleStatuses();
    assert |{"Non-responder", "Responder"}| == 2;
    CohortStatusesFollowFirstRows(ExampleCn, ExampleMuts);
  }

  /** The split as intended: the mutation rows of each cohort are selected
      by the status of the cohort's copy-number rows. The unpacking errors
      are those of the script. */
  function SplitCohortsByStatus(cn: seq<CnRow>, muts: seq<MutRow>): (r: Result<(Cohort, Cohort), Error>)
    ensures r.Ok? <==> |KeySet(cn, CnResponder)| == 2 && |KeySet(muts, MutResponder)| == 2
    ensures r.Err? ==> r.error == UnpackError(if |KeySet(cn, CnResponder)| != 2 then |KeySet(cn, CnResponder)|
                                               else |KeySet(muts, MutResponder)|)
    ensures r.Ok? ==> IsTwoWaySplit(cn, CnResponder, r.value.0.cn, r.value.1.cn)
    ensures r.Ok? ==> r.value.0.muts == FilterType(muts, r.value.0.cn[0].responder, MutResponder)
    ensures r.Ok? ==> r.value.1.muts == FilterType(muts, r.value.1.cn[0].responder, MutResponder)
  {
    var cs :- SplitTwo(cn, CnResponder);
    var ms :- SplitTwo(muts, MutResponder);
    var first, second := cs.0[0].responder, cs.1[0].responder;
    Ok((Cohort(cs.0, FilterType(muts, first, MutResponder)), Cohort(cs.1, FilterType(muts, second, MutResponder))))
  }

  /** In the intended split each cohort's two tables hold one status: its
      mutation rows are exactly those of its copy-number rows' status. */
  lemma CohortsByStatusShareStatus(cn: seq<CnRow>, muts: seq<MutRow>)
    requires SplitCohortsByStatus(cn, muts).Ok?
    ensures var r := SplitCohortsByStatus(cn, muts).value;
            && (forall x :: x in r.0.cn ==> x.responder == r.0.cn[0].responder)
            && (forall m :: m in r.0.muts ==> m.responder == r.0.cn[0].responder)
            && (forall x :: x in r.1.cn ==> x.responder == r.1.cn[0].responder)
            && (forall m :: m in r.1.muts ==> m.responder == r.1.cn[0].responder)
            && (forall m :: m in muts && m.responder == r.0.cn[0].responder ==> m in r.0.muts)
            && (forall m :: m in muts && m.responder == r.1.cn[0].responder ==> m in r.1.muts)
  {
    var r := SplitCohortsByStatus(cn, muts).value;
    forall m | m in muts && m.responder == r.0.cn[0].responder
      ensures m in r.0.muts
    {
      assert multiset(r.0.muts)[m] == multiset(muts)[m];
    }
    forall m | m in muts && m.responder == r.1.cn[0].responder
      ensures m in r.1.muts
    {
      assert multiset(r.1.muts)[m] == multiset(muts)[m];
    }
  }

  /** The intended split agrees with the script's when both tables hold
      the same two statuses and start with the same one. */
  lemma SplitsAgreeOnSameOrder(cn: seq<CnRow>, muts: seq<MutRow>)
    requires SplitCohorts(cn, muts).Ok?
    requires KeySet(cn, CnResponder) == KeySet(muts, MutResponder)
    requires cn[0].responder == muts[0].responder
    ensures SplitCohortsByStatus(cn, muts) == SplitCohorts(cn, muts)
  {
    var r := SplitCohorts(cn, muts).value;
    var c, d := r.0, r.1;
    FirstSelectionIsFirstRows(cn, CnResponder, c.cn, d.cn);
    FirstSelectionIsFirstRows(muts, MutResponder, c.muts, d.muts);
    assert d.cn[0] in cn by { assert multiset(d.cn)[d.cn[0]] == multiset(cn)[d.cn[0]]; }
    assert d.muts[0] in muts by { assert multiset(d.muts)[d.muts[0]] == multiset(muts)[d.muts[0]]; }
    assert d.cn[0].responder in KeySet(muts, MutResponder);
    assert d.muts[0].responder == d.cn[0].responder;
  }

  /** And only then: when the two splits agree, both tables hold the same
      two statuses and start with the same one. */
  lemma SplitsAgreeOnlyOnSameOrder(cn: seq<CnRow>, muts: seq<MutRow>)
    requires SplitCohorts(cn, muts).Ok?
    requires SplitCohortsByStatus(cn, muts) == SplitCohorts(cn, muts)
    ensures KeySet(cn, CnResponder) == KeySet(muts, MutResponder)
    ensures cn[0].responder == muts[0].responder
  {
    var r := SplitCohorts(cn, muts).value;
    assert SplitCohortsByStatus(cn, muts).value == r;
    MatchedCohorts(cn, muts, r.0, r.1);
  }

  /** Cohorts whose mutation rows are selected by their copy-number
      status, and that are also the script's split of the mutation table. */
  lemma MatchedCohorts(cn: seq<CnRow>, muts: seq<MutRow>, c: Cohort, d: Cohort)
    requires IsTwoWaySplit(cn, CnResponder, c.cn, d.cn)
    requires IsTwoWaySplit(muts, MutResponder, c.muts, d.muts)
    requires c.muts == FilterType(muts, c.cn[0].responder, MutResponder)
    requires d.muts == FilterType(muts, d.cn[0].responder, MutResponder)
    ensures |cn| > 0 && |muts| > 0
    ensures KeySet(cn, CnResponder) == KeySet(muts, MutResponder)
    ensures cn[0].responder == muts[0].responder
  {
    FirstSelectionIsFirstRows(cn, CnResponder, c.cn, d.cn);
    FirstSelectionIsFirstRows(muts, MutResponder, c.muts, d.muts);
    assert c.muts[0] in c.muts && d.muts[0] in d.muts;
    var a, b := c.cn[0].responder, d.cn[0].responder;
    SelectionHeadIn(cn, a, CnResponder, c.cn);
    SelectionHeadIn(cn, b, CnResponder, d.cn);
    SelectionHeadIn(muts, a, MutResponder, c.muts);
    SelectionHeadIn(muts, b, MutResponder, d.muts);
    TwoStatusSets(cn, muts, a, b);
  }

  /** The first row of a non-empty selection is a row of the table. */
  lemma SelectionHeadIn<T(!new), V>(df: seq<T>, key: V, column: T -> V, sel: seq<T>)
    requires sel == FilterType(df, key, column) && sel != []
    ensures sel[0] in df
  {
    assert multiset(sel)[sel[0]] == multiset(df)[sel[0]];
  }

  /** Two tables whose statuses are `a` and `b` and that both hold each of
      them have the same statuses. */
  lemma TwoStatusSets(cn: seq<CnRow>, muts: seq<MutRow>, a: string, b: string)
    requires forall x :: x in cn ==> x.responder == a || x.responder == b
    requires forall m :: m in muts ==> m.responder == a || m.responder == b
    requires (exists x :: x in cn && x.responder == a) && (exists x :: x in cn && x.responder == b)
    requires (exists m :: m in muts && m.responder == a) && (exists m :: m in muts && m.responder == b)
    ensures KeySet(cn, CnResponder) == KeySet(muts, MutResponder)
  {
    assert KeySet(cn, CnResponder) == {a, b};
    assert KeySet(muts, MutResponder) == {a, b};
  }
}
