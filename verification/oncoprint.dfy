/** The driver of `make_oncoprint2.py` from the prepared tables to what
    the figure draws: the gene counts of the two cohorts and the zero fill
    between them, the sample and gene orders with their position
    dictionaries, the patient labels, the percentages, and the geometry the
    heatmap bars and the mutation markers share. */
module Oncoprint {
  import opened Wrappers
  import opened Seqs
  import opened Records
  import opened Filters
  import opened Counts
  import opened Layout
  import opened Prepare
  import opened Cohorts
  import opened TextOrder

  // ---------------------------------------------------------------------
  // Preparing the two tables
  // ---------------------------------------------------------------------

  /** The long copy-number table and the mutation table as the plots
      receive them. */
  datatype Tables = Tables(cn: seq<CnRow>, muts: seq<MutRow>)

  /** A patient passes the optional patient filter. */
  predicate Selected(patient: string, patientId: string) {
    patientId == "" || patient == patientId
  }

  /** A copy-number row as it leaves the preparation: ctDNA in percent and
      coloured by copy number. */
  function Finished(x: CnRow): CnRow { PaintCn(Percent(x)) }

  /** The mask of the patient filter on each table. */
  function ChosenCn(patientId: string): CnRow -> bool {
    (x: CnRow) => Selected(x.patient, patientId)
  }

  function ChosenMut(patientId: string): MutRow -> bool {
    (m: MutRow) => Selected(m.patient, patientId)
  }

  /** The input copy-number rows that reach the plots: those of the
      selected patient; under the ctDNA filter, of those the rows at their
      patient's highest ctDNA; under the sample-type sort, of those the rows
      with a sample type. */
  function SurvivingCn(cn: seq<CnRow>, patientId: string, filterCtDNA: bool, sortSampleType: bool): seq<CnRow> {
    var chosen := Filter(cn, ChosenCn(patientId));
    var kept := if filterCtDNA then FilterCtDNA(chosen) else chosen;
    if sortSampleType then Filter(kept, CnTyped) else kept
  }

  /** The input mutations that reach the plots: those of the selected
      patient; under the ctDNA filter, of those the mutations of samples
      that kept copy-number rows through the ctDNA filter. */
  function SurvivingMuts(cn: seq<CnRow>, muts: seq<MutRow>, patientId: string, filterCtDNA: bool): seq<MutRow> {
    var chosen := Filter(muts, ChosenMut(patientId));
    if filterCtDNA then KeepSamplesOf(chosen, SurvivingCn(cn, patientId, true, false)) else chosen
  }

  /** The script's steps after the identifiers exist: the patient filter,
      ctDNA to percent, the optional ctDNA filter with its propagation to
      the mutations, the optional sample-type sort, the ascending ctDNA
      sort, and the palettes. The result is sorted by ctDNA; every row comes
      from a row of the input that passes the patient filter; the
      sample-type sort leaves out the copy-number rows without a sample type
      and orders the mutations by sample type; with the ctDNA filter every
      mutation belongs to a sample that kept copy-number rows, unless the
      sample-type sort dropped them; and the rows are exactly the finished
      `SurvivingCn` and the styled `SurvivingMuts`, so with neither filter
      no row is lost except those the sample-type sort drops. */
  function Wrangle(cn: seq<CnRow>, muts: seq<MutRow>, patientId: string, filterCtDNA: bool, sortSampleType: bool)
    : (r: Tables)
    ensures forall i, j :: 0 <= i < j < |r.cn| ==> r.cn[i].ctDNA <= r.cn[j].ctDNA
    ensures forall y :: y in r.cn ==> exists x :: x in cn && y == Finished(x) && Selected(x.patient, patientId)
    ensures forall y :: y in r.muts ==> exists m :: m in muts && y == StyleMut(m) && Selected(m.patient, patientId)
    ensures sortSampleType ==> forall y :: y in r.cn ==> y.sampleType.Some?
    ensures sortSampleType ==> SortedByText(r.muts, MutSampleType)
    ensures filterCtDNA ==> forall m :: m in r.muts ==>
              || m.sample in KeySet(r.cn, CnSample)
              || (sortSampleType && exists x :: x in cn && x.sample == m.sample && x.sampleType.None?)
    ensures multiset(r.cn) == multiset(Map(Finished, SurvivingCn(cn, patientId, filterCtDNA, sortSampleType)))
    ensures multiset(r.muts) == multiset(Map(StyleMut, SurvivingMuts(cn, muts, patientId, filterCtDNA)))
    ensures !sortSampleType ==> r.muts == Map(StyleMut, SurvivingMuts(cn, muts, patientId, filterCtDNA))
    ensures !filterCtDNA && patientId == "" ==>
              && multiset(r.cn) == multiset(Map(Finished, if sortSampleType then Filter(cn, CnTyped) else cn))
              && multiset(r.muts) == multiset(Map(StyleMut, muts))
    ensures !filterCtDNA && patientId == "" && !sortSampleType ==> r.muts == Map(StyleMut, muts)
  {
    var chosen := FilterPatient(cn, muts, patientId);
    var scaled := ScaleCtDNA(chosen.0);
    var kept := if filterCtDNA then FilterCtDNA(scaled) else scaled;
    var keptMuts := if filterCtDNA then KeepSamplesOf(chosen.1, kept) else chosen.1;
    var grouped := if sortSampleType then GroupByType(kept) else kept;
    var orderedMuts := if sortSampleType then SortMutsByType(keptMuts) else keptMuts;
    var sorted := SortByCtDNA(grouped);
    var r := Tables(ColorCn(sorted), StyleMuts(orderedMuts));
    PatientRows(cn, muts, patientId);
    CnOrigins(cn, chosen.0, scaled, kept, grouped, sorted, patientId, filterCtDNA, sortSampleType);
    MutOrigins(muts, chosen.1, keptMuts, orderedMuts, patientId, filterCtDNA, kept);
    TypedRows(kept, grouped, sorted, sortSampleType);
    OrderedMuts(keptMuts, orderedMuts, sortSampleType);
    Survivors(cn, muts, patientId, filterCtDNA, sortSampleType, chosen, scaled, kept, keptMuts, grouped, sorted, orderedMuts);
    SurvivorsWithoutFilters(cn, muts, sortSampleType);
    if filterCtDNA then
      PropagatedSamples(keptMuts, orderedMuts, chosen.1, cn, chosen.0, scaled, kept, grouped, sorted, sortSampleType);
      r
    else r
  }

  /** Tracing a finished row back through the palette, the sort, the
      optional sample-type grouping and ctDNA filter, and the scaling. */
  lemma CnOrigins(cn: seq<CnRow>, chosen: seq<CnRow>, scaled: seq<CnRow>, kept: seq<CnRow>, grouped: seq<CnRow>,
                  sorted: seq<CnRow>, patientId: string, filterCtDNA: bool, sortSampleType: bool)
    requires forall x :: x in chosen ==> x in cn && Selected(x.patient, patientId)
    requires scaled == ScaleCtDNA(chosen)
    requires kept == if filterCtDNA then FilterCtDNA(scaled) else scaled
    requires grouped == if sortSampleType then GroupByType(kept) else kept
    requires multiset(sorted) == multiset(grouped)
    ensures forall y :: y in ColorCn(sorted) ==> exists x :: x in cn && y == Finished(x) && Selected(x.patient, patientId)
  {
    forall y | y in ColorCn(sorted)
      ensures exists x :: x in cn && y == Finished(x) && Selected(x.patient, patientId)
    {
      var z := PaintedFrom(sorted, y);
      assert z in multiset(sorted);
      assert z in grouped;
      if sortSampleType {
        assert multiset(grouped)[z] > 0;
      }
      assert z in kept;
      if filterCtDNA {
        SubseqMember(kept, scaled, z);
      }
      var x := ScaledFrom(chosen, z);
    }
  }

  /** After the sample-type grouping, every copy-number row has a sample
      type. */
  lemma TypedRows(kept: seq<CnRow>, grouped: seq<CnRow>, sorted: seq<CnRow>, sortSampleType: bool)
    requires grouped == if sortSampleType then GroupByType(kept) else kept
    requires multiset(sorted) == multiset(grouped)
    ensures sortSampleType ==> forall y :: y in ColorCn(sorted) ==> y.sampleType.Some?
  {
    if sortSampleType {
      forall y | y in ColorCn(sorted)
        ensures y.sampleType.Some?
      {
        var z := PaintedFrom(sorted, y);
        assert z in multiset(sorted);
        assert multiset(grouped)[z] > 0;
      }
    }
  }

  /** The sample-type order survives the palettes, which leave the sample
      type alone. */
  lemma OrderedMuts(keptMuts: seq<MutRow>, orderedMuts: seq<MutRow>, sortSampleType: bool)
    requires orderedMuts == if sortSampleType then SortMutsByType(keptMuts) else keptMuts
    ensures sortSampleType ==> SortedByText(StyleMuts(orderedMuts), MutSampleType)
  {
    if sortSampleType {
      var r := StyleMuts(orderedMuts);
      forall i, j | 0 <= i < j < |r|
        ensures TextLe(MutSampleType(r[i]), MutSampleType(r[j]))
      {
        assert TextLe(MutSampleType(orderedMuts[i]), MutSampleType(orderedMuts[j]));
      }
    }
  }

  /** Every row the script keeps is finished or styled exactly once: the
      copy-number rows are those `SurvivingCn` names, in some order, and the
      mutations those `SurvivingMuts` names, reordered only by the
      sample-type sort. */
  lemma Survivors(cn: seq<CnRow>, muts: seq<MutRow>, patientId: string, filterCtDNA: bool, sortSampleType: bool,
                  chosen: (seq<CnRow>, seq<MutRow>), scaled: seq<CnRow>, kept: seq<CnRow>, keptMuts: seq<MutRow>,
                  grouped: seq<CnRow>, sorted: seq<CnRow>, orderedMuts: seq<MutRow>)
    requires chosen == FilterPatient(cn, muts, patientId)
    requires scaled == ScaleCtDNA(chosen.0)
    requires kept == if filterCtDNA then FilterCtDNA(scaled) else scaled
    requires keptMuts == if filterCtDNA then KeepSamplesOf(chosen.1, kept) else chosen.1
    requires grouped == if sortSampleType then GroupByType(kept) else kept
    requires multiset(sorted) == multiset(grouped)
    requires orderedMuts == if sortSampleType then SortMutsByType(keptMuts) else keptMuts
    ensures multiset(ColorCn(sorted)) == multiset(Map(Finished, SurvivingCn(cn, patientId, filterCtDNA, sortSampleType)))
    ensures keptMuts == SurvivingMuts(cn, muts, patientId, filterCtDNA)
    ensures multiset(StyleMuts(orderedMuts)) == multiset(Map(StyleMut, keptMuts))
    ensures !sortSampleType ==> StyleMuts(orderedMuts) == Map(StyleMut, keptMuts)
  {
    PatientChoice(cn, muts, patientId);
    var k0 := if filterCtDNA then FilterCtDNA(chosen.0) else chosen.0;
    if filterCtDNA {
      FilterCtDNAAfterScale(chosen.0);
      KeepSamplesOfScaled(chosen.1, k0);
    }
    SurvivingCnRows(cn, patientId, filterCtDNA, sortSampleType, k0, kept, grouped, sorted);
    assert StyleMuts(orderedMuts) == Map(StyleMut, orderedMuts);
    MapPermutation(StyleMut, orderedMuts, keptMuts);
  }

  /** The copy-number half of `Survivors`, from the scaled survivors on. */
  lemma SurvivingCnRows(cn: seq<CnRow>, patientId: string, filterCtDNA: bool, sortSampleType: bool,
                        k0: seq<CnRow>, kept: seq<CnRow>, grouped: seq<CnRow>, sorted: seq<CnRow>)
    requires k0 == var chosen := Filter(cn, ChosenCn(patientId)); if filterCtDNA then FilterCtDNA(chosen) else chosen
    requires kept == ScaleCtDNA(k0)
    requires grouped == if sortSampleType then GroupByType(kept) else kept
    requires multiset(sorted) == multiset(grouped)
    ensures multiset(ColorCn(sorted)) == multiset(Map(Finished, SurvivingCn(cn, patientId, filterCtDNA, sortSampleType)))
  {
    var s0 := SurvivingCn(cn, patientId, filterCtDNA, sortSampleType);
    if sortSampleType {
      FilterMapped(kept, k0, CnTyped, CnTyped);
    }
    assert grouped == ScaleCtDNA(s0);
    assert ColorCn(sorted) == Map(PaintCn, sorted);
    MapPermutation(PaintCn, sorted, grouped);
    assert Map(PaintCn, grouped) == Map(Finished, s0);
  }

  /** The patient filter keeps exactly the rows `Selected` admits. */
  lemma PatientChoice(cn: seq<CnRow>, muts: seq<MutRow>, patientId: string)
    ensures FilterPatient(cn, muts, patientId).0 == Filter(cn, ChosenCn(patientId))
    ensures FilterPatient(cn, muts, patientId).1 == Filter(muts, ChosenMut(patientId))
  {
    if patientId == "" {
      FilterAll(cn, ChosenCn(patientId));
      FilterAll(muts, ChosenMut(patientId));
    } else {
      FilterSameMask(cn, Matches(CnPatient, patientId), ChosenCn(patientId));
      FilterSameMask(muts, Matches(MutPatient, patientId), ChosenMut(patientId));
      assert FilterType(cn, patientId, CnPatient) == Filter(cn, Matches(CnPatient, patientId));
      assert FilterType(muts, patientId, MutPatient) == Filter(muts, Matches(MutPatient, patientId));
    }
  }

  /** With no patient id and no ctDNA filter, every mutation survives, and
      every copy-number row does unless the sample-type sort drops it for
      want of a sample type. */
  lemma SurvivorsWithoutFilters(cn: seq<CnRow>, muts: seq<MutRow>, sortSampleType: bool)
    ensures SurvivingCn(cn, "", false, sortSampleType) == if sortSampleType then Filter(cn, CnTyped) else cn
    ensures SurvivingMuts(cn, muts, "", false) == muts
  {
    FilterAll(cn, ChosenCn(""));
    FilterAll(muts, ChosenMut(""));
  }

  /** Tracing a styled mutation back through the optional sort and
      propagation. */
  lemma MutOrigins(muts: seq<MutRow>, chosen: seq<MutRow>, keptMuts: seq<MutRow>, orderedMuts: seq<MutRow>,
                   patientId: string, filterCtDNA: bool, kept: seq<CnRow>)
    requires forall m :: m in chosen ==> m in muts && Selected(m.patient, patientId)
    requires keptMuts == if filterCtDNA then KeepSamplesOf(chosen, kept) else chosen
    requires multiset(orderedMuts) == multiset(keptMuts)
    ensures forall y :: y in StyleMuts(orderedMuts) ==> exists m :: m in muts && y == StyleMut(m) && Selected(m.patient, patientId)
  {
    forall y | y in StyleMuts(orderedMuts)
      ensures exists m :: m in muts && y == StyleMut(m) && Selected(m.patient, patientId)
    {
      var m := StyledFrom(orderedMuts, y);
      assert m in multiset(orderedMuts);
      assert m in keptMuts;
      if filterCtDNA {
        SubseqMember(keptMuts, chosen, m);
      }
    }
  }

  /** The rows the patient filter keeps come from the input and pass it. */
  lemma PatientRows(cn: seq<CnRow>, muts: seq<MutRow>, patientId: string)
    ensures forall x :: x in FilterPatient(cn, muts, patientId).0 ==> x in cn && Selected(x.patient, patientId)
    ensures forall m :: m in FilterPatient(cn, muts, patientId).1 ==> m in muts && Selected(m.patient, patientId)
  {
    var r := FilterPatient(cn, muts, patientId);
    forall x | x in r.0
      ensures x in cn
    {
      assert multiset(r.0)[x] > 0;
    }
    forall m | m in r.1
      ensures m in muts
    {
      assert multiset(r.1)[m] > 0;
    }
  }

  lemma PaintedFrom(s: seq<CnRow>, y: CnRow) returns (z: CnRow)
    requires y in ColorCn(s)
    ensures z in s && y == PaintCn(z)
  {
    var i :| 0 <= i < |s| && ColorCn(s)[i] == y;
    z := s[i];
  }

  lemma ScaledFrom(s: seq<CnRow>, z: CnRow) returns (x: CnRow)
    requires z in ScaleCtDNA(s)
    ensures x in s && z == Percent(x)
  {
    var i :| 0 <= i < |s| && ScaleCtDNA(s)[i] == z;
    x := s[i];
  }

  lemma StyledFrom(s: seq<MutRow>, y: MutRow) returns (m: MutRow)
    requires y in StyleMuts(s)
    ensures m in s && y == StyleMut(m)
  {
    var i :| 0 <= i < |s| && StyleMuts(s)[i] == y;
    m := s[i];
  }

  /** The propagated mutations keep a copy-number row of their sample
      through the sorts and the palettes, unless that row had no sample
      type and the sample-type grouping dropped it. */
  lemma PropagatedSamples(keptMuts: seq<MutRow>, orderedMuts: seq<MutRow>, muts: seq<MutRow>, cn: seq<CnRow>,
                          chosen: seq<CnRow>, scaled: seq<CnRow>, kept: seq<CnRow>, grouped: seq<CnRow>,
                          sorted: seq<CnRow>, sortSampleType: bool)
    requires keptMuts == KeepSamplesOf(muts, kept) && multiset(orderedMuts) == multiset(keptMuts)
    requires scaled == ScaleCtDNA(chosen) && forall x :: x in chosen ==> x in cn
    requires kept == FilterCtDNA(scaled)
    requires grouped == if sortSampleType then GroupByType(kept) else kept
    requires multiset(sorted) == multiset(grouped)
    ensures forall m :: m in StyleMuts(orderedMuts) ==>
              || m.sample in KeySet(ColorCn(sorted), CnSample)
              || (sortSampleType && exists x :: x in cn && x.sample == m.sample && x.sampleType.None?)
  {
    forall y | y in StyleMuts(orderedMuts)
      ensures || y.sample in KeySet(ColorCn(sorted), CnSample)
              || (sortSampleType && exists x :: x in cn && x.sample == y.sample && x.sampleType.None?)
    {
      var m := StyledFrom(orderedMuts, y);
      assert m in multiset(orderedMuts);
      assert multiset(keptMuts)[m] > 0;
      var x :| x in kept && x.sample == m.sample;
      if !sortSampleType || x.sampleType.Some? {
        assert multiset(grouped)[x] > 0;
        assert x in multiset(sorted);
        var i :| 0 <= i < |sorted| && sorted[i] == x;
        assert ColorCn(sorted)[i] in ColorCn(sorted);
      } else {
        SubseqMember(kept, scaled, x);
        var x0 := ScaledFrom(chosen, x);
      }
    }
  }

  /** `make_oncoprint2.py` up to the cohort split: melt the wide table,
      derive the identifiers of both tables (the copy-number table's error
      first), then the steps of `Wrangle`. Every row then carries the
      identifiers its sample name yields and passes the patient filter,
      every copy-number row is a cell of the wide table, with the ctDNA
      filter every mutation whose sample has a sample type keeps that
      sample's copy-number rows, and the rows are exactly the surviving
      melted cells and mutations, finished and styled. */
  function PrepareTables(wide: seq<WideRow>, genes: seq<string>, muts: seq<MutRow>,
                         patientId: string, filterCtDNA: bool, sortSampleType: bool): (r: Result<Tables, Error>)
    requires WellShaped(wide, genes)
    ensures r.Ok? <==> AnnotateCn(Melt(wide, genes)).Ok? && AnnotateMuts(muts).Ok?
    ensures r.Err? ==> r.error == if AnnotateCn(Melt(wide, genes)).Err? then AnnotateCn(Melt(wide, genes)).error
                                  else AnnotateMuts(muts).error
    ensures r.Ok? ==> forall y :: y in r.value.cn ==>
              && y.patient == PatientOf(y.sample) && y.sampleType == SampleTypeOf(y.sample)
              && Selected(y.patient, patientId)
    ensures r.Ok? ==> forall m :: m in r.value.muts ==>
              && m.patient == PatientOf(m.sample) && m.sampleType == SampleTypeOf(m.sample)
              && Selected(m.patient, patientId)
    ensures r.Ok? ==> forall y :: y in r.value.cn ==> FromCell(wide, genes, y)
    ensures r.Ok? && filterCtDNA ==> forall m :: m in r.value.muts && (m.sampleType.Some? || !sortSampleType) ==>
              m.sample in KeySet(r.value.cn, CnSample)
    ensures r.Ok? ==> multiset(r.value.cn) ==
              multiset(Map(Finished, SurvivingCn(AnnotateCn(Melt(wide, genes)).value, patientId, filterCtDNA, sortSampleType)))
    ensures r.Ok? ==> multiset(r.value.muts) ==
              multiset(Map(StyleMut, SurvivingMuts(AnnotateCn(Melt(wide, genes)).value, AnnotateMuts(muts).value,
                                                   patientId, filterCtDNA)))
  {
    var cn :- AnnotateCn(Melt(wide, genes));
    var ms :- AnnotateMuts(muts);
    var r := Wrangle(cn, ms, patientId, filterCtDNA, sortSampleType);
    AnnotatedIsIdentified(Melt(wide, genes));
    WideCells(wide, genes, cn);
    MutsIdentified(muts);
    if filterCtDNA then
      TypedSamplesKept(cn, r, sortSampleType);
      Ok(r)
    else Ok(r)
  }

  /** With no patient id and neither option, the prepared copy-number table
      has one row per cell of the wide table and every mutation is kept. */
  lemma PreparedKeepsEveryCell(wide: seq<WideRow>, genes: seq<string>, muts: seq<MutRow>)
    requires WellShaped(wide, genes)
    ensures var r := PrepareTables(wide, genes, muts, "", false, false);
            r.Ok? ==> |r.value.cn| == |genes| * |wide| && |r.value.muts| == |muts|
  {
    var r := PrepareTables(wide, genes, muts, "", false, false);
    if r.Ok? {
      var cn := AnnotateCn(Melt(wide, genes)).value;
      var ms := AnnotateMuts(muts).value;
      SurvivorsWithoutFilters(cn, ms, false);
      assert |multiset(r.value.cn)| == |Map(Finished, cn)|;
      assert |multiset(r.value.muts)| == |Map(StyleMut, ms)|;
    }
  }

  /** Once every row carries its own name's sample type, a mutation with a
      sample type shares it with its sample's copy-number rows, so the
      sample-type grouping cannot have dropped them. */
  lemma TypedSamplesKept(cn: seq<CnRow>, r: Tables, sortSampleType: bool)
    requires Identified(cn)
    requires forall m :: m in r.muts ==> m.sampleType == SampleTypeOf(m.sample)
    requires forall m :: m in r.muts ==>
               || m.sample in KeySet(r.cn, CnSample)
               || (sortSampleType && exists x :: x in cn && x.sample == m.sample && x.sampleType.None?)
    ensures forall m :: m in r.muts && (m.sampleType.Some? || !sortSampleType) ==> m.sample in KeySet(r.cn, CnSample)
  {
  }

  lemma MutsIdentified(muts: seq<MutRow>)
    requires AnnotateMuts(muts).Ok?
    ensures forall m :: m in AnnotateMuts(muts).value ==> m.patient == PatientOf(m.sample) && m.sampleType == SampleTypeOf(m.sample)
  {
    IdentifiedMutRows(AnnotateMuts(muts).value, muts);
  }

  lemma IdentifiedMutRows(r: seq<MutRow>, muts: seq<MutRow>)
    requires |r| == |muts| && forall i :: 0 <= i < |muts| ==> r[i] == IdentifyMut(muts[i])
    ensures forall m :: m in r ==> m.patient == PatientOf(m.sample) && m.sampleType == SampleTypeOf(m.sample)
  {
    forall m | m in r
      ensures m.patient == PatientOf(m.sample) && m.sampleType == SampleTypeOf(m.sample)
    {
      var i :| 0 <= i < |r| && r[i] == m;
      assert m == IdentifyMut(muts[i]);
    }
  }

  /** A prepared copy-number row is one cell of the wide table: its sample,
      ctDNA fraction (in percent) and copy number are those of some wide
      row under some gene column. */
  ghost predicate FromCell(wide: seq<WideRow>, genes: seq<string>, y: CnRow) {
    exists i, j :: 0 <= i < |wide| && 0 <= j < |genes| && j < |wide[i].copyNumbers| &&
      y.sample == wide[i].sample && y.gene == genes[j] &&
      y.copyNumber == wide[i].copyNumbers[j] && y.ctDNA == wide[i].ctDNA * 100.0
  }

  /** Row `k` of the melt, once identified and finished, is a wide cell. */
  lemma CellAt(wide: seq<WideRow>, genes: seq<string>, k: int)
    requires WellShaped(wide, genes) && 0 <= k < |genes| * |wide|
    ensures FromCell(wide, genes, Finished(IdentifyCn(Melt(wide, genes)[k])))
  {
    var j, i := MeltPosition(wide, genes, k);
  }

  /** Every identified row of the melt is a wide cell once finished. */
  lemma WideCells(wide: seq<WideRow>, genes: seq<string>, cn: seq<CnRow>)
    requires WellShaped(wide, genes)
    requires |cn| == |Melt(wide, genes)|
    requires forall k :: 0 <= k < |cn| ==> cn[k] == IdentifyCn(Melt(wide, genes)[k])
    ensures forall x :: x in cn ==> FromCell(wide, genes, Finished(x))
  {
    forall x | x in cn
      ensures FromCell(wide, genes, Finished(x))
    {
      var k :| 0 <= k < |cn| && cn[k] == x;
      CellAt(wide, genes, k);
    }
  }

  // ---------------------------------------------------------------------
  // Zero fill of the second cohort's counts
  // ---------------------------------------------------------------------

  const NoEvents: GeneCounts := GeneCounts(0, 0)

  /** `genes_to_add = df_counts1[~df_counts1.index.isin(df_counts2.index)]
      ...` and `df_counts2 = pd.concat([df_counts2, df_zero])`: the genes
      counted only in the first cohort join the second with zero counts; the
      second cohort's own rows stay as they are. Only the second table is
      filled. */
  function ZeroFill(counts1: map<string, GeneCounts>, counts2: map<string, GeneCounts>): (r: map<string, GeneCounts>)
    ensures r.Keys == counts1.Keys + counts2.Keys
    ensures forall g :: g in counts2 ==> r[g] == counts2[g]
    ensures forall g :: g in r && g !in counts2 ==> r[g] == NoEvents
  {
    counts2 + map g | g in counts1.Keys - counts2.Keys :: NoEvents
  }

  /** Filling twice adds nothing. */
  lemma ZeroFillIdempotent(counts1: map<string, GeneCounts>, counts2: map<string, GeneCounts>)
    ensures ZeroFill(counts1, ZeroFill(counts1, counts2)) == ZeroFill(counts1, counts2)
  {
  }

  /** After the fill the second table has every gene of the first; it has
      exactly the first's genes when it had no gene of its own beyond them. */
  lemma ZeroFillSharesGenes(counts1: map<string, GeneCounts>, counts2: map<string, GeneCounts>)
    ensures counts1.Keys <= ZeroFill(counts1, counts2).Keys
    ensures ZeroFill(counts1, counts2).Keys == counts1.Keys <==> counts2.Keys <= counts1.Keys
  {
  }

  /** The number of rows of gene `g` with a copy-number change. */
  ghost function CnChanges(cn: seq<CnRow>, g: string): nat {
    |set i | 0 <= i < |cn| && cn[i].gene == g && cn[i].copyNumber != 0|
  }

  /** The number of distinct samples with a mutation in gene `g`. */
  ghost function MutatedSamples(muts: seq<MutRow>, g: string): nat {
    |set m | m in muts && m.gene == g :: m.sample|
  }

  lemma NoChangesCountZero(cn: seq<CnRow>, g: string)
    requires forall x :: x in cn ==> !(x.gene == g && x.copyNumber != 0)
    ensures CnChanges(cn, g) == 0
  {
    forall i | 0 <= i < |cn|
      ensures !(cn[i].gene == g && cn[i].copyNumber != 0)
    {
      assert cn[i] in cn;
    }
    assert (set i | 0 <= i < |cn| && cn[i].gene == g && cn[i].copyNumber != 0) == {};
  }

  lemma NoMutationsCountZero(muts: seq<MutRow>, g: string)
    requires forall m :: m in muts ==> m.gene != g
    ensures MutatedSamples(muts, g) == 0
  {
    assert (set m | m in muts && m.gene == g :: m.sample) == {};
  }

  /** The zeros the fill writes are the true counts: every gene of the
      filled table has, in the second cohort, exactly the copy-number
      changes and mutated samples the table says (counts deduplicated per
      cell, as the script asks with `drop = True`). */
  lemma ZeroFillIsCount(counts1: map<string, GeneCounts>, cn2: seq<CnRow>, muts2: seq<MutRow>)
    ensures var r := ZeroFill(counts1, MutAndCnCounts(cn2, muts2, true));
            forall g :: g in r ==> r[g] == GeneCounts(CnChanges(cn2, g), MutatedSamples(muts2, g))
  {
    var counts2 := MutAndCnCounts(cn2, muts2, true);
    var r := ZeroFill(counts1, counts2);
    forall g | g in r
      ensures r[g] == GeneCounts(CnChanges(cn2, g), MutatedSamples(muts2, g))
    {
      if g !in counts2 {
        NoChangesCountZero(cn2, g);
        NoMutationsCountZero(muts2, g);
      }
    }
  }

  /** Gene `g` has a copy-number change or a mutation in a cohort, so
      `plot_mut_and_cn_counts` gives it a row. */
  ghost predicate Altered(cn: seq<CnRow>, muts: seq<MutRow>, g: string) {
    (exists x :: x in cn && x.gene == g && x.copyNumber != 0) || (exists m :: m in muts && m.gene == g)
  }

  /** `counts` is the true count table of a cohort: a row for exactly the
      altered genes, holding the copy-number changes and the mutated
      samples of each. */
  ghost predicate TrueCounts(counts: map<string, GeneCounts>, cn: seq<CnRow>, muts: seq<MutRow>) {
    && (forall g :: g in counts <==> Altered(cn, muts, g))
    && (forall g :: g in counts ==> counts[g] == GeneCounts(CnChanges(cn, g), MutatedSamples(muts, g)))
  }

  /** Counting a cohort with duplicates dropped gives its true counts. */
  lemma DroppedCountsAreTrue(cn: seq<CnRow>, muts: seq<MutRow>)
    ensures TrueCounts(MutAndCnCounts(cn, muts, true), cn, muts)
  {
    var counts := MutAndCnCounts(cn, muts, true);
    forall g | g in counts
      ensures counts[g] == GeneCounts(CnChanges(cn, g), MutatedSamples(muts, g))
    {
    }
  }

  /** The gene counts of the two cohorts as the figure uses them: the
      tables split by responder status, each cohort counted with mutations
      deduplicated per sample, and the second cohort zero-filled with the
      genes only the first has. The first table is the first cohort's true
      count table; the second lists the genes altered in either cohort and
      holds the second cohort's true counts. */
  function CountCohorts(t: Tables): (r: Result<(map<string, GeneCounts>, map<string, GeneCounts>), Error>)
    ensures r.Ok? <==> SplitCohortsByStatus(t.cn, t.muts).Ok?
    ensures r.Err? ==> r.error == SplitCohortsByStatus(t.cn, t.muts).error
    ensures r.Ok? ==> r.value.0.Keys <= r.value.1.Keys
    ensures r.Ok? ==> var first := SplitCohortsByStatus(t.cn, t.muts).value.0;
              TrueCounts(r.value.0, first.cn, first.muts)
    ensures r.Ok? ==> var cohorts := SplitCohortsByStatus(t.cn, t.muts).value;
              forall g :: g in r.value.1 <==>
                Altered(cohorts.0.cn, cohorts.0.muts, g) || Altered(cohorts.1.cn, cohorts.1.muts, g)
    ensures r.Ok? ==> var second := SplitCohortsByStatus(t.cn, t.muts).value.1;
              forall g :: g in r.value.1 ==>
                r.value.1[g] == GeneCounts(CnChanges(second.cn, g), MutatedSamples(second.muts, g))
  {
    var cohorts :- SplitCohortsByStatus(t.cn, t.muts);
    var counts1 := MutAndCnCounts(cohorts.0.cn, cohorts.0.muts, true);
    var counts2 := MutAndCnCounts(cohorts.1.cn, cohorts.1.muts, true);
    DroppedCountsAreTrue(cohorts.0.cn, cohorts.0.muts);
    DroppedCountsAreTrue(cohorts.1.cn, cohorts.1.muts);
    ZeroFillIsCount(counts1, cohorts.1.cn, cohorts.1.muts);
    Ok((counts1, ZeroFill(counts1, counts2)))
  }

  // ---------------------------------------------------------------------
  // Sample and gene orders, position dictionaries, patient labels
  // ---------------------------------------------------------------------

  /** `df[colname].unique().tolist()`: the values of a column, each once,
      in the order they first appear. */
  function Order<T, V(!new, ==)>(df: seq<T>, column: T -> V): (u: seq<V>)
    ensures Distinct(u)
    ensures forall v :: v in u <==> v in ColumnValues(df, column)
    ensures forall v :: v in u <==> v in KeySet(df, column)
    ensures forall i, j :: 0 <= i < j < |u| ==>
              FirstIndex(ColumnValues(df, column), u[i]) < FirstIndex(ColumnValues(df, column), u[j])
  {
    ColumnValuesMembers(df, column);
    Unique(ColumnValues(df, column))
  }

  /** The dictionary `{u[i]: i ...}` of distinct values is a bijection
      between the values and the positions `0 .. |u| - 1`. */
  lemma PositionsAreBijection<T>(u: seq<T>)
    requires Distinct(u)
    ensures PositionMap(u).Keys == set x | x in u
    ensures forall x :: x in PositionMap(u) ==> 0 <= PositionMap(u)[x] < |u|
    ensures forall i :: 0 <= i < |u| ==> u[i] in PositionMap(u) && PositionMap(u)[u[i]] == i
    ensures forall x, y :: x in PositionMap(u) && y in PositionMap(u) && PositionMap(u)[x] == PositionMap(u)[y] ==> x == y
  {
    var m := PositionMap(u);
    forall x, y | x in m && y in m && m[x] == m[y]
      ensures x == y
    {
      assert u[m[x]] == x && u[m[y]] == y;
    }
  }

  /** `sample_pos` of a cohort: each sample of its copy-number table to the
      column it is drawn in. */
  function SamplePositions(cn: seq<CnRow>): (m: map<string, int>)
    ensures m.Keys == KeySet(cn, CnSample)
    ensures forall s :: s in m ==> 0 <= m[s] < |KeySet(cn, CnSample)|
  {
    var samples := Order(cn, CnSample);
    DistinctValuesCount(cn, CnSample, samples);
    PositionMap(samples)
  }

  /** `gene_pos`: each gene of the whole copy-number table to its row. */
  function GenePositions(cn: seq<CnRow>): (m: map<string, int>)
    ensures m.Keys == KeySet(cn, CnGene)
    ensures forall g :: g in m ==> 0 <= m[g] < |KeySet(cn, CnGene)|
  {
    var genes := Order(cn, CnGene);
    DistinctValuesCount(cn, CnGene, genes);
    PositionMap(genes)
  }

  /** `[sample.split(sep = "_")[0] for sample in samples]`: each label is
      the part of its sample name before the first underscore. */
  function PatientLabels(samples: seq<string>): (labels: seq<string>)
    ensures |labels| == |samples|
    ensures forall i :: 0 <= i < |samples| ==>
              && Underscore !in labels[i]
              && (labels[i] == samples[i] || labels[i] + [Underscore] <= samples[i])
  {
    seq(|samples|, i requires 0 <= i < |samples| => PatientOf(samples[i]))
  }

  /** Every row carries the identifiers its sample name yields, as the
      annotation leaves the table. */
  ghost predicate Identified(cn: seq<CnRow>) {
    forall x :: x in cn ==> x.patient == PatientOf(x.sample) && x.sampleType == SampleTypeOf(x.sample)
  }

  lemma AnnotatedIsIdentified(cn: seq<CnRow>)
    requires AnnotateCn(cn).Ok?
    ensures Identified(AnnotateCn(cn).value)
  {
    IdentifiedRows(AnnotateCn(cn).value, cn);
  }

  lemma IdentifiedRows(r: seq<CnRow>, cn: seq<CnRow>)
    requires |r| == |cn| && forall i :: 0 <= i < |cn| ==> r[i] == IdentifyCn(cn[i])
    ensures Identified(r)
  {
    forall x | x in r
      ensures x.patient == PatientOf(x.sample) && x.sampleType == SampleTypeOf(x.sample)
    {
      var i :| 0 <= i < |r| && r[i] == x;
      assert x == IdentifyCn(cn[i]);
    }
  }

  /** The patient labels under the heatmap are the Patient ID column: the
      label of a sample's column is the patient of each of its rows. */
  lemma LabelsArePatients(cn: seq<CnRow>)
    requires Identified(cn)
    ensures var samples := Order(cn, CnSample);
            forall i, x :: 0 <= i < |samples| && x in cn && x.sample == samples[i] ==>
              PatientLabels(samples)[i] == x.patient
  {
  }

  // ---------------------------------------------------------------------
  // The percentages of the two cohorts
  // ---------------------------------------------------------------------

  /** `convert_counts_to_percentage(25, 2, 2, ...)`: the ctDNA thresholds, in
      percent, of the copy-number, mutation and AR denominators. */
  const CnThreshold: real := 25.0
  const MutThreshold: real := 2.0
  const ArThreshold: real := 2.0

  /** With the script's thresholds a positive copy-number denominator makes
      the other two positive. */
  lemma ThresholdsOrdered(cn: seq<CnRow>)
    requires SamplesAbove(cn, CnThreshold) > 0
    ensures SamplesAbove(cn, CnThreshold) <= SamplesAbove(cn, MutThreshold)
    ensures SamplesAbove(cn, MutThreshold) > 0 && SamplesAbove(cn, ArThreshold) > 0
  {
    SamplesAboveMonotone(cn, MutThreshold, CnThreshold);
  }

  /** As the script calls it, the mutation percentage of a gene other than
      AR never exceeds its copy-number percentage: both divide the same
      copy-number count, the mutation one by the larger number of samples
      above 2% ctDNA. */
  lemma MutationPercentAtMostCnPercent(cn: seq<CnRow>, counts: map<string, GeneCounts>, g: string)
    requires SamplesAbove(cn, CnThreshold) > 0
    requires ArGene in counts && g in counts && g != ArGene
    ensures SamplesAbove(cn, MutThreshold) > 0 && SamplesAbove(cn, ArThreshold) > 0
    ensures var r := ConvertCountsToPercentage(CnThreshold, MutThreshold, ArThreshold, cn, counts).value;
            r[g].mutationEventsPerc <= r[g].cnChangesPerc
  {
    ThresholdsOrdered(cn);
    var r := ConvertCountsToPercentage(CnThreshold, MutThreshold, ArThreshold, cn, counts).value;
    var n := 100 * counts[g].cnChanges;
    RoundedMonotone(r[g].cnChangesPerc, r[g].mutationEventsPerc, n,
                    SamplesAbove(cn, CnThreshold), SamplesAbove(cn, MutThreshold));
  }

  /** `convert_counts_to_percentage(25, 2, 2, df_cn, df_counts)` of one
      cohort, with the mutation percentage taken from the mutation count.
      It needs the "AR" row and keeps every gene and its counts. Each
      percentage is 100 times the count over the number of samples above
      the threshold, rounded half to even: 25% for copy-number changes and
      2% for mutations, and 2% for both of AR's. */
  function CohortPercentages(cn: seq<CnRow>, counts: map<string, GeneCounts>): (r: Result<map<string, GenePercent>, Error>)
    requires SamplesAbove(cn, CnThreshold) > 0
    ensures r.Ok? <==> ArGene in counts
    ensures r.Err? ==> r.error == KeyError(ArGene)
    ensures r.Ok? ==> r.value.Keys == counts.Keys
    ensures r.Ok? ==> forall g :: g in counts ==>
              r.value[g].cnChanges == counts[g].cnChanges && r.value[g].mutationEvents == counts[g].mutationEvents
    ensures r.Ok? ==> forall g :: g in counts && g != ArGene ==>
              && IsRounded(r.value[g].cnChangesPerc, 100 * counts[g].cnChanges, SamplesAbove(cn, CnThreshold))
              && IsRounded(r.value[g].mutationEventsPerc, 100 * counts[g].mutationEvents, SamplesAbove(cn, MutThreshold))
    ensures r.Ok? ==>
              && IsRounded(r.value[ArGene].cnChangesPerc, 100 * counts[ArGene].cnChanges, SamplesAbove(cn, ArThreshold))
              && IsRounded(r.value[ArGene].mutationEventsPerc, 100 * counts[ArGene].mutationEvents, SamplesAbove(cn, ArThreshold))
  {
    ThresholdsOrdered(cn);
    ConvertCountsToPercentageFixed(CnThreshold, MutThreshold, ArThreshold, cn, counts)
  }

  /** The percentages order the genes as their counts do: among genes other
      than AR, more copy-number changes never give a smaller copy-number
      percentage, more mutation events never a smaller mutation percentage,
      and a gene with no mutation event shows 0%. */
  lemma PercentagesFollowCounts(cn: seq<CnRow>, counts: map<string, GeneCounts>, g: string, h: string)
    requires SamplesAbove(cn, CnThreshold) > 0
    requires ArGene in counts && g in counts && h in counts && g != ArGene && h != ArGene
    ensures var r := CohortPercentages(cn, counts).value;
            && (counts[g].cnChanges <= counts[h].cnChanges ==> r[g].cnChangesPerc <= r[h].cnChangesPerc)
            && (counts[g].mutationEvents <= counts[h].mutationEvents ==> r[g].mutationEventsPerc <= r[h].mutationEventsPerc)
            && (counts[g].mutationEvents == 0 ==> r[g].mutationEventsPerc == 0)
  {
    ThresholdsOrdered(cn);
    var r := CohortPercentages(cn, counts).value;
    var dc, dm := SamplesAbove(cn, CnThreshold), SamplesAbove(cn, MutThreshold);
    if counts[g].cnChanges <= counts[h].cnChanges {
      RoundedMonotoneInCount(r[g].cnChangesPerc, r[h].cnChangesPerc,
                             100 * counts[g].cnChanges, 100 * counts[h].cnChanges, dc);
    }
    if counts[g].mutationEvents <= counts[h].mutationEvents {
      RoundedMonotoneInCount(r[g].mutationEventsPerc, r[h].mutationEventsPerc,
                             100 * counts[g].mutationEvents, 100 * counts[h].mutationEvents, dm);
    }
    if counts[g].mutationEvents == 0 {
      RoundedUnique(r[g].mutationEventsPerc, 0, 0, dm);
    }
  }

  // ---------------------------------------------------------------------
  // Geometry of the heatmap
  // ---------------------------------------------------------------------

  /** `offset`, `bar_height` and `bar_width` of the script; `plot_cn` draws
      each bar `bar_width * 1.2` wide. */
  const Offset: real := -0.4
  const BarHeight: real := 0.7
  const BarWidth: real := 0.7
  const DrawnBarWidth: real := BarWidth * 1.2

  /** The bar `plot_cn` draws for gene row `j` spans `Offset + j` to
      `Offset + j + BarHeight`; every marker `plot_muts` draws for a cell
      lies strictly inside that span and inside the drawn width of its
      sample's column, so markers never leave their cell. */
  lemma MarkersLieOnBars(row: MutRow, group: seq<MutRow>, samplePos: map<string, int>, genePos: map<string, int>)
    requires CellMarkers(row, group, samplePos, genePos).Ok?
    ensures forall m :: m in CellMarkers(row, group, samplePos, genePos).value ==>
              && row.sample in samplePos && row.gene in genePos
              && samplePos[row.sample] as real - DrawnBarWidth / 2.0 < m.x < samplePos[row.sample] as real + DrawnBarWidth / 2.0
              && genePos[row.gene] as real + Offset < m.y < genePos[row.gene] as real + Offset + BarHeight
  {
  }

  /** The bars of one column, drawn with the script's offset, stack one
      unit apart without overlapping: bar `j` ends below where bar `j + 1`
      starts. */
  lemma BarsDoNotOverlap(df: seq<CnRow>, sample: string, genes: seq<string>, column: seq<Bar>)
    requires IsColumn(df, sample, genes, Offset, column)
    ensures forall j :: 0 <= j < |column| - 1 ==> column[j].bottom + BarHeight < column[j + 1].bottom
    ensures forall j :: 0 <= j < |column| ==> column[j].bottom < j as real < column[j].bottom + BarHeight
  {
  }
}
