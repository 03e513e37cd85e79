/** Per-gene event counts and their conversion to percentages:
    `plot_mut_and_cn_counts` and `convert_counts_to_percentage` of
    `utilities_make_oncoprint.py`. A count table is a map from gene to its
    counts; the row order of the pandas frame is not modelled (the script
    reorders it by gene position before it is drawn). */
module Counts {
  import opened Wrappers
  import opened Seqs
  import opened Records
  import opened Filters

  /** One row of the table `plot_mut_and_cn_counts` returns. */
  datatype GeneCounts = GeneCounts(cnChanges: nat, mutationEvents: nat)

  // ---------------------------------------------------------------------
  // plot_mut_and_cn_counts
  // ---------------------------------------------------------------------

  function NonZero(x: CnRow): bool { x.copyNumber != 0 }

  /** The mask "gene `g` with a copy-number change". */
  function ChangedIn(g: string): CnRow -> bool {
    (x: CnRow) => x.gene == g && x.copyNumber != 0
  }

  /** The mutation rows that are counted: with `drop`, one per
      (Sample, Gene) cell, the last one. */
  function CountedMutations(muts: seq<MutRow>, drop: bool): seq<MutRow> {
    if drop then DropDuplicatesLast(muts, MutCell) else muts
  }

  /** `plot_mut_and_cn_counts(df_cn, df_muts, drop)`: per gene, the number
      of rows with a non-zero copy number and the number of mutation rows
      (with `drop`, the number of distinct samples mutated in it). A gene
      appears exactly when it has one of the two; the count it lacks is 0
      (`fillna(0)`). */
  function MutAndCnCounts(cn: seq<CnRow>, muts: seq<MutRow>, drop: bool): (r: map<string, GeneCounts>)
    ensures forall g :: g in r <==>
              (exists x :: x in cn && x.gene == g && x.copyNumber != 0) || (exists m :: m in muts && m.gene == g)
    ensures forall g :: g in r ==>
              r[g].cnChanges == |set i | 0 <= i < |cn| && cn[i].gene == g && cn[i].copyNumber != 0|
    ensures !drop ==> forall g :: g in r ==>
              r[g].mutationEvents == |set i | 0 <= i < |muts| && muts[i].gene == g|
    ensures drop ==> forall g :: g in r ==>
              r[g].mutationEvents == |set m | m in muts && m.gene == g :: m.sample|
  {
    var changed := Filter(cn, NonZero);
    var counted := CountedMutations(muts, drop);
    var genes := KeySet(changed, CnGene) + KeySet(counted, MutGene);
    CountedGenes(cn, muts, drop);
    CountedSizes(cn, muts, drop);
    map g | g in genes :: GeneCounts(|FilterType(changed, g, CnGene)|, |FilterType(counted, g, MutGene)|)
  }

  /** The genes of the count table: those with a copy-number change or a
      mutation row (dropping duplicate cells loses no gene). */
  lemma CountedGenes(cn: seq<CnRow>, muts: seq<MutRow>, drop: bool)
    ensures forall g :: g in KeySet(Filter(cn, NonZero), CnGene) + KeySet(CountedMutations(muts, drop), MutGene) <==>
              (exists x :: x in cn && x.gene == g && x.copyNumber != 0) || (exists m :: m in muts && m.gene == g)
  {
    var changed := Filter(cn, NonZero);
    var d := CountedMutations(muts, drop);
    forall m | m in d
      ensures m in muts
    {
      if drop {
        SubseqMember(d, muts, m);
      }
    }
    forall m | m in muts
      ensures MutGene(m) in KeySet(d, MutGene)
    {
      if drop {
        assert MutCell(m) in KeySet(muts, MutCell);
        var e :| e in d && MutCell(e) == MutCell(m);
        assert MutGene(e) == MutGene(m);
      }
    }
    forall x | x in cn && x.copyNumber != 0
      ensures CnGene(x) in KeySet(changed, CnGene)
    {
      assert NonZero(x);
    }
  }

  /** The two counts of each gene, as positions of the input tables. */
  lemma CountedSizes(cn: seq<CnRow>, muts: seq<MutRow>, drop: bool)
    ensures forall g ::
              |FilterType(Filter(cn, NonZero), g, CnGene)| ==
              |set i | 0 <= i < |cn| && cn[i].gene == g && cn[i].copyNumber != 0|
    ensures !drop ==> forall g ::
              |FilterType(CountedMutations(muts, drop), g, MutGene)| == |set i | 0 <= i < |muts| && muts[i].gene == g|
    ensures drop ==> forall g ::
              |FilterType(CountedMutations(muts, drop), g, MutGene)| == |set m | m in muts && m.gene == g :: m.sample|
  {
    forall g | true
      ensures |FilterType(Filter(cn, NonZero), g, CnGene)| ==
              |set i | 0 <= i < |cn| && cn[i].gene == g && cn[i].copyNumber != 0|
    {
      CnChangesCount(cn, g);
    }
    forall g | true
      ensures !drop ==> |FilterType(CountedMutations(muts, drop), g, MutGene)| == |set i | 0 <= i < |muts| && muts[i].gene == g|
      ensures drop ==> |FilterType(CountedMutations(muts, drop), g, MutGene)| == |set m | m in muts && m.gene == g :: m.sample|
    {
      if drop {
        DistinctSamplesCount(muts, g);
      } else {
        assert CountedMutations(muts, drop) == muts;
        assert FilterType(muts, g, MutGene) == Filter(muts, Matches(MutGene, g));
        FilterCountsIndices(muts, Matches(MutGene, g));
        forall i | 0 <= i < |muts|
          ensures Matches(MutGene, g)(muts[i]) == (muts[i].gene == g)
        {
          assert MutGene(muts[i]) == muts[i].gene;
        }
        assert Positions(muts, Matches(MutGene, g)) == set i | 0 <= i < |muts| && muts[i].gene == g;
      }
    }
  }

  /** The number of gene-`g` rows left after dropping zero copy numbers is
      the number of positions of `cn` holding a changed gene-`g` row. */
  lemma CnChangesCount(cn: seq<CnRow>, g: string)
    ensures |FilterType(Filter(cn, NonZero), g, CnGene)| ==
            |set i | 0 <= i < |cn| && cn[i].gene == g && cn[i].copyNumber != 0|
  {
    var changed := Filter(cn, NonZero);
    assert FilterType(changed, g, CnGene) == Filter(changed, Matches(CnGene, g));
    ChangedInIsConjunction(g);
    FilterFilter(cn, NonZero, Matches(CnGene, g), ChangedIn(g));
    FilterCountsIndices(cn, ChangedIn(g));
    ChangedPositions(cn, g);
  }

  lemma ChangedInIsConjunction(g: string)
    ensures forall x :: ChangedIn(g)(x) <==> NonZero(x) && Matches(CnGene, g)(x)
  {
    forall x
      ensures ChangedIn(g)(x) <==> NonZero(x) && Matches(CnGene, g)(x)
    {
      assert Matches(CnGene, g)(x) == (CnGene(x) == g);
      assert CnGene(x) == x.gene;
    }
  }

  lemma ChangedPositions(cn: seq<CnRow>, g: string)
    ensures Positions(cn, ChangedIn(g)) == set i | 0 <= i < |cn| && cn[i].gene == g && cn[i].copyNumber != 0
  {
  }

  /** After `drop_duplicates(['Sample', 'Gene'], keep='last')` the gene-`g`
      rows are one per mutated sample. */
  lemma DistinctSamplesCount(muts: seq<MutRow>, g: string)
    ensures |FilterType(DropDuplicatesLast(muts, MutCell), g, MutGene)| ==
            |set m | m in muts && m.gene == g :: m.sample|
  {
    var d := DropDuplicatesLast(muts, MutCell);
    var f := FilterType(d, g, MutGene);
    assert f == Filter(d, Matches(MutGene, g));
    FilterKeepsDistinctKeys(d, Matches(MutGene, g), MutCell);
    assert DistinctKeys(f, MutSample) by {
      forall i, j | 0 <= i < j < |f|
        ensures MutSample(f[i]) != MutSample(f[j])
      {
        assert f[i] in f && f[j] in f;
        assert MutCell(f[i]) != MutCell(f[j]);
      }
    }
    DistinctKeysCard(f, MutSample);
    var target := set m | m in muts && m.gene == g :: m.sample;
    forall s | s in KeySet(f, MutSample)
      ensures s in target
    {
      var m :| m in f && m.sample == s;
      SubseqMember(f, d, m);
      SubseqMember(d, muts, m);
    }
    forall s | s in target
      ensures s in KeySet(f, MutSample)
    {
      var m :| m in muts && m.gene == g && m.sample == s;
      assert MutCell(m) in KeySet(muts, MutCell);
      var e :| e in d && MutCell(e) == MutCell(m);
      assert multiset(f)[e] == multiset(d)[e];
      assert e in multiset(f);
    }
    assert KeySet(f, MutSample) == target;
  }

  /** A gene's mutation count is the size of its group among the counted
      mutation rows. */
  lemma MutationEventsIsGroupSize(cn: seq<CnRow>, muts: seq<MutRow>, drop: bool, g: string)
    requires g in MutAndCnCounts(cn, muts, drop)
    ensures MutAndCnCounts(cn, muts, drop)[g].mutationEvents == |FilterType(CountedMutations(muts, drop), g, MutGene)|
  {
  }

  /** Deduplication never raises a gene's mutation count, and loses no
      gene. */
  lemma DropNeverIncreasesMutationEvents(cn: seq<CnRow>, muts: seq<MutRow>)
    ensures MutAndCnCounts(cn, muts, true).Keys == MutAndCnCounts(cn, muts, false).Keys
    ensures forall g :: g in MutAndCnCounts(cn, muts, true) ==>
              MutAndCnCounts(cn, muts, true)[g].mutationEvents <= MutAndCnCounts(cn, muts, false)[g].mutationEvents
  {
    var dropped := MutAndCnCounts(cn, muts, true);
    var kept := MutAndCnCounts(cn, muts, false);
    assert dropped.Keys == kept.Keys;
    forall g | g in dropped
      ensures dropped[g].mutationEvents <= kept[g].mutationEvents
    {
      MutationEventsIsGroupSize(cn, muts, true, g);
      MutationEventsIsGroupSize(cn, muts, false, g);
      SubseqFilterLength(DropDuplicatesLast(muts, MutCell), muts, Matches(MutGene, g));
    }
  }

  // ---------------------------------------------------------------------
  // Python's round() on an exact quotient
  // ---------------------------------------------------------------------

  /** `r` is `num / den` rounded to the nearest integer, halves to even. */
  ghost predicate IsRounded(r: int, num: int, den: int) {
    && den > 0
    && -den <= 2 * (r * den - num) <= den
    && ((2 * (r * den - num) == den || 2 * (r * den - num) == -den) ==> r % 2 == 0)
  }

  function RoundHalfEven(num: int, den: int): (r: int)
    requires den > 0
    ensures IsRounded(r, num, den)
  {
    var q := num / den;
    var rem := num % den;
    assert num == q * den + rem && 0 <= rem < den;
    if 2 * rem < den then q
    else if 2 * rem > den then
      assert (q + 1) * den - num == den - rem;
      q + 1
    else if q % 2 == 0 then q
    else
      assert (q + 1) * den - num == den - rem;
      q + 1
  }

  /** Multiplying by a non-negative number keeps order. */
  lemma MulMonotone(a: int, b: int, d: int)
    requires a <= b && d >= 0
    ensures a * d <= b * d
  {
    assert b * d - a * d == (b - a) * d;
  }

  /** Where `k * d` lies for a positive `d`, by the size of `k`. */
  lemma MulSign(k: int, d: int)
    requires d > 0
    ensures k >= 2 ==> k * d >= 2 * d
    ensures k == 1 ==> k * d == d
    ensures k == 0 ==> k * d == 0
    ensures k == -1 ==> k * d == -d
    ensures k <= -2 ==> k * d <= -2 * d
  {
    if k >= 2 {
      MulMonotone(2, k, d);
    } else if k <= -2 {
      MulMonotone(k, -2, d);
    }
  }

  /** The rounding is determined: there is one nearest-even integer. Two
      candidates more than a unit apart cannot both be within half a unit;
      two a unit apart are both within half only on a tie, where only one
      is even. */
  lemma RoundedUnique(a: int, b: int, num: int, den: int)
    requires IsRounded(a, num, den) && IsRounded(b, num, den)
    ensures a == b
  {
    MulSign(a - b, den);
    assert (a - b) * den == (a * den - num) - (b * den - num);
  }

  /** Rounding the same non-negative numerator over a larger denominator
      never gives a larger integer. */
  lemma RoundedMonotone(a: int, b: int, n: int, d1: int, d2: int)
    requires IsRounded(a, n, d1) && IsRounded(b, n, d2)
    requires n >= 0 && 0 < d1 <= d2
    ensures b <= a
  {
    // a is not negative, as n / d1 is not
    MulSign(a, d1);
    MulMonotone(d1, d2, a);
    // 2*b*d2 - d2 <= 2*n <= 2*a*d1 + d1 <= 2*a*d2 + d2, so (b - a) * d2 <= d2,
    // with equality only on two ties, whose even roundings cannot be a unit apart
    MulSign(b - a, d2);
    assert (b - a) * d2 == b * d2 - a * d2;
  }

  /** Rounding a larger numerator over the same denominator never gives a
      smaller integer. */
  lemma RoundedMonotoneInCount(a: int, b: int, n1: int, n2: int, d: int)
    requires IsRounded(a, n1, d) && IsRounded(b, n2, d) && n1 <= n2
    ensures a <= b
  {
    // (a - b) * d is (a*d - n1) - (b*d - n2) + (n1 - n2), at most d, and
    // reaches d only on two ties of the same numerator
    MulSign(a - b, d);
    assert (a - b) * d == (a * d - n1) - (b * d - n2) + (n1 - n2);
  }

  /** Holding the count fixed, a larger denominator never gives a larger
      percentage. */
  lemma PercentageNeverIncreases(count: nat, d1: int, d2: int)
    requires 0 < d1 <= d2
    ensures RoundHalfEven(100 * count, d2) <= RoundHalfEven(100 * count, d1)
  {
    RoundedMonotone(RoundHalfEven(100 * count, d1), RoundHalfEven(100 * count, d2), 100 * count, d1, d2);
  }

  // ---------------------------------------------------------------------
  // convert_counts_to_percentage
  // ---------------------------------------------------------------------

  const ArGene: string := "AR"

  /** A percentage row: the counts and their two percentages. */
  datatype GenePercent = GenePercent(cnChanges: nat, mutationEvents: nat, cnChangesPerc: int, mutationEventsPerc: int)

  function Above(threshold: real): CnRow -> bool {
    (x: CnRow) => x.ctDNA > threshold
  }

  /** `len(dups.loc[dups['ctDNA fraction'] > threshold])` with `dups` the
      first row of each sample: the samples passing a threshold. Never more
      than the number of distinct samples. */
  function SamplesAbove(cn: seq<CnRow>, threshold: real): (n: nat)
    ensures n <= |KeySet(cn, CnSample)|
  {
    var dups := DropDuplicatesFirst(cn, CnSample);
    var passing := Filter(dups, Above(threshold));
    SubseqLength(passing, dups);
    DistinctKeysCard(dups, CnSample);
    |passing|
  }

  /** The denominator is exactly the number of samples whose first row
      lies above the threshold. */
  lemma SamplesAboveIsFirstRows(cn: seq<CnRow>, t: real)
    ensures SamplesAbove(cn, t) ==
            |set i | 0 <= i < |cn| && IsFirstOfKey(cn, i, CnSample) && cn[i].ctDNA > t :: cn[i].sample|
  {
    var dups := DropDuplicatesFirst(cn, CnSample);
    var passing := Filter(dups, Above(t));
    FilterKeepsDistinctKeys(dups, Above(t), CnSample);
    DistinctKeysCard(passing, CnSample);
    DropDuplicatesFirstKeepsFirst(cn, CnSample);
    var target := set i | 0 <= i < |cn| && IsFirstOfKey(cn, i, CnSample) && cn[i].ctDNA > t :: cn[i].sample;
    forall s | s in KeySet(passing, CnSample)
      ensures s in target
    {
      var x :| x in passing && x.sample == s;
      assert x in dups && x.ctDNA > t;
      var i :| 0 <= i < |cn| && cn[i] == x && IsFirstOfKey(cn, i, CnSample);
    }
    forall s | s in target
      ensures s in KeySet(passing, CnSample)
    {
      var i :| 0 <= i < |cn| && IsFirstOfKey(cn, i, CnSample) && cn[i].ctDNA > t && cn[i].sample == s;
      assert cn[i] in dups;
      assert cn[i] in passing;
    }
    assert KeySet(passing, CnSample) == target;
  }

  /** A higher threshold never gives a larger denominator. */
  lemma SamplesAboveMonotone(cn: seq<CnRow>, t1: real, t2: real)
    requires t1 <= t2
    ensures SamplesAbove(cn, t2) <= SamplesAbove(cn, t1)
  {
    FilterMonotone(DropDuplicatesFirst(cn, CnSample), Above(t2), Above(t1));
  }

  /** When every row of a sample carries the same ctDNA, as in the melted
      table, the denominator is the number of distinct samples above the
      threshold. */
  lemma SamplesAboveCountsSamples(cn: seq<CnRow>, t: real)
    requires forall a, b :: a in cn && b in cn && a.sample == b.sample ==> a.ctDNA == b.ctDNA
    ensures SamplesAbove(cn, t) == |set x | x in cn && x.ctDNA > t :: x.sample|
  {
    var dups := DropDuplicatesFirst(cn, CnSample);
    var passing := Filter(dups, Above(t));
    FilterKeepsDistinctKeys(dups, Above(t), CnSample);
    DistinctKeysCard(passing, CnSample);
    var target := set x | x in cn && x.ctDNA > t :: x.sample;
    forall s | s in KeySet(passing, CnSample)
      ensures s in target
    {
      var x :| x in passing && x.sample == s;
      assert x in dups;
    }
    forall s | s in target
      ensures s in KeySet(passing, CnSample)
    {
      var x :| x in cn && x.ctDNA > t && x.sample == s;
      assert s in KeySet(cn, CnSample);
      var d :| d in dups && d.sample == s;
      assert d in cn;
      assert multiset(passing)[d] == multiset(dups)[d];
      assert d in multiset(passing);
    }
    assert KeySet(passing, CnSample) == target;
  }

  /** `convert_counts_to_percentage(CN_filter, mut_filter, AR_filter, df_cn,
      df_counts)` as written: every gene's copy-number percentage over the
      samples above `cnFilter`, its mutation percentage from the SAME
      copy-number count over the samples above `mutFilter`; then the AR row
      is overwritten with both of its own counts over the samples above
      `arFilter`. Without an AR row the read of `df_counts.loc['AR', ...]`
      raises. */
  function ConvertCountsToPercentage(
    cnFilter: real, mutFilter: real, arFilter: real, cn: seq<CnRow>, counts: map<string, GeneCounts>)
    : (r: Result<map<string, GenePercent>, Error>)
    requires SamplesAbove(cn, cnFilter) > 0 && SamplesAbove(cn, mutFilter) > 0 && SamplesAbove(cn, arFilter) > 0
    ensures r.Ok? <==> ArGene in counts
    ensures r.Err? ==> r.error == KeyError(ArGene)
    ensures r.Ok? ==> r.value.Keys == counts.Keys
    ensures r.Ok? ==> forall g :: g in counts ==>
              r.value[g].cnChanges == counts[g].cnChanges && r.value[g].mutationEvents == counts[g].mutationEvents
    ensures r.Ok? ==> forall g :: g in counts && g != ArGene ==>
              && IsRounded(r.value[g].cnChangesPerc, 100 * counts[g].cnChanges, SamplesAbove(cn, cnFilter))
              && IsRounded(r.value[g].mutationEventsPerc, 100 * counts[g].cnChanges, SamplesAbove(cn, mutFilter))
    ensures r.Ok? ==>
              && IsRounded(r.value[ArGene].cnChangesPerc, 100 * counts[ArGene].cnChanges, SamplesAbove(cn, arFilter))
              && IsRounded(r.value[ArGene].mutationEventsPerc, 100 * counts[ArGene].mutationEvents, SamplesAbove(cn, arFilter))
  {
    var cnFilt := SamplesAbove(cn, cnFilter);
    var mutFilt := SamplesAbove(cn, mutFilter);
    var withPerc := map g | g in counts ::
      GenePercent(counts[g].cnChanges, counts[g].mutationEvents,
                  RoundHalfEven(100 * counts[g].cnChanges, cnFilt),
                  RoundHalfEven(100 * counts[g].cnChanges, mutFilt));
    if ArGene !in counts then Err(KeyError(ArGene))
    else
      var arFilt := SamplesAbove(cn, arFilter);
      var ar := counts[ArGene];
      Ok(withPerc[ArGene := GenePercent(ar.cnChanges, ar.mutationEvents,
                                        RoundHalfEven(100 * ar.cnChanges, arFilt),
                                        RoundHalfEven(100 * ar.mutationEvents, arFilt))])
  }

  /** The conversion with the mutation percentage taken from the mutation
      count, as the column name and the AR branch intend. */
  function ConvertCountsToPercentageFixed(
    cnFilter: real, mutFilter: real, arFilter: real, cn: seq<CnRow>, counts: map<string, GeneCounts>)
    : (r: Result<map<string, GenePercent>, Error>)
    requires SamplesAbove(cn, cnFilter) > 0 && SamplesAbove(cn, mutFilter) > 0 && SamplesAbove(cn, arFilter) > 0
    ensures r.Ok? <==> ArGene in counts
    ensures r.Err? ==> r.error == KeyError(ArGene)
    ensures r.Ok? ==> r.value.Keys == counts.Keys
    ensures r.Ok? ==> forall g :: g in counts ==>
              r.value[g].cnChanges == counts[g].cnChanges && r.value[g].mutationEvents == counts[g].mutationEvents
    ensures r.Ok? ==> forall g :: g in counts && g != ArGene ==>
              && IsRounded(r.value[g].cnChangesPerc, 100 * counts[g].cnChanges, SamplesAbove(cn, cnFilter))
              && IsRounded(r.value[g].mutationEventsPerc, 100 * counts[g].mutationEvents, SamplesAbove(cn, mutFilter))
    ensures r.Ok? ==>
              && IsRounded(r.value[ArGene].cnChangesPerc, 100 * counts[ArGene].cnChanges, SamplesAbove(cn, arFilter))
              && IsRounded(r.value[ArGene].mutationEventsPerc, 100 * counts[ArGene].mutationEvents, SamplesAbove(cn, arFilter))
  {
    var cnFilt := SamplesAbove(cn, cnFilter);
    var mutFilt := SamplesAbove(cn, mutFilter);
    var withPerc := map g | g in counts ::
      GenePercent(counts[g].cnChanges, counts[g].mutationEvents,
                  RoundHalfEven(100 * counts[g].cnChanges, cnFilt),
                  RoundHalfEven(100 * counts[g].mutationEvents, mutFilt));
    if ArGene !in counts then Err(KeyError(ArGene))
    else
      var arFilt := SamplesAbove(cn, arFilter);
      var ar := counts[ArGene];
      Ok(withPerc[ArGene := GenePercent(ar.cnChanges, ar.mutationEvents,
                                        RoundHalfEven(100 * ar.cnChanges, arFilt),
                                        RoundHalfEven(100 * ar.mutationEvents, arFilt))])
  }

  /** The as-written mutation percentage of a gene with copy-number changes
      but no mutation is positive whenever fewer than 200 samples per
      copy-number change pass the mutation threshold; the intended one is 0. */
  lemma MutationPercentageUsesCnCount(
    cnFilter: real, mutFilter: real, arFilter: real, cn: seq<CnRow>, counts: map<string, GeneCounts>, g: string)
    requires SamplesAbove(cn, cnFilter) > 0 && SamplesAbove(cn, mutFilter) > 0 && SamplesAbove(cn, arFilter) > 0
    requires ArGene in counts && g in counts && g != ArGene
    requires counts[g].mutationEvents == 0 && 200 * counts[g].cnChanges > SamplesAbove(cn, mutFilter)
    ensures ConvertCountsToPercentage(cnFilter, mutFilter, arFilter, cn, counts).value[g].mutationEventsPerc > 0
    ensures ConvertCountsToPercentageFixed(cnFilter, mutFilter, arFilter, cn, counts).value[g].mutationEventsPerc == 0
  {
    var d := SamplesAbove(cn, mutFilter);
    var c := counts[g].cnChanges;
    var r := ConvertCountsToPercentage(cnFilter, mutFilter, arFilter, cn, counts);
    var p := r.value[g].mutationEventsPerc;
    assert IsRounded(p, 100 * c, d);
    MulSign(p, d);
    var f := ConvertCountsToPercentageFixed(cnFilter, mutFilter, arFilter, cn, counts);
    var q := f.value[g].mutationEventsPerc;
    assert IsRounded(q, 0, d);
    RoundedUnique(q, 0, 0, d);
  }
}
