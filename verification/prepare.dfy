/** The table preparation of `make_oncoprint2.py` before the cohorts are
    split: melting the copy-number table to one row per (sample, gene),
    deriving patient and sample type from the sample name, the optional
    patient filter, ctDNA as a percentage, the optional ctDNA filter and its
    propagation to the mutations, the optional sample-type sort, the ctDNA
    sort and the palettes. */
module Prepare {
  import opened Wrappers
  import opened Seqs
  import opened Records
  import opened Filters
  import opened Counts
  import opened Layout
  import opened TextOrder

  // ---------------------------------------------------------------------
  // pd.melt, one row per (sample, gene)
  // ---------------------------------------------------------------------

  /** A row of the wide copy-number table: the identifier columns kept by
      the melt and one copy number per gene column. */
  datatype WideRow = WideRow(sample: string, ctDNA: real, mutationCount: int, responder: string, copyNumbers: seq<int>)

  ghost predicate WellShaped(wide: seq<WideRow>, genes: seq<string>) {
    forall w :: w in wide ==> |w.copyNumbers| == |genes|
  }

  /** The long row of one wide row and one gene column; the fields the
      script derives later start empty. */
  function MeltedCell(w: WideRow, gene: string, copyNumber: int): CnRow {
    CnRow(w.sample, "", None, gene, copyNumber, w.ctDNA, w.mutationCount, w.responder, None)
  }

  /** Euclidean division recovers the two parts of `j * n + i`. */
  lemma DivModParts(p: int, j: int, i: int, n: int)
    requires n > 0 && 0 <= i < n && p == j * n + i
    ensures p / n == j && p % n == i
  {
    var q, m := p / n, p % n;
    assert p == q * n + m && 0 <= m < n;
    MulSign(q - j, n);
    assert (q - j) * n == q * n - j * n;
  }

  /** A position before `k * n` has a quotient by `n` below `k`. */
  lemma QuotientBound(p: int, n: int, k: int)
    requires n > 0 && 0 <= p < k * n
    ensures 0 <= p / n < k
  {
    var q := p / n;
    assert p == q * n + p % n;
    MulSign(q - k, n);
    assert (q - k) * n == q * n - k * n;
    MulSign(q, n);
  }

  /** The position of gene column `j` of wide row `i` in a melt over `n`
      wide rows. */
  function MeltIndex(j: int, i: int, n: int): int { j * n + i }

  /** The long row at position `p` of the melt over `wide`. */
  function MeltAt(wide: seq<WideRow>, genes: seq<string>, p: int): CnRow
    requires WellShaped(wide, genes) && 0 <= p < |genes| * |wide|
  {
    var n := |wide|;
    QuotientBound(p, n, |genes|);
    MeltedCell(wide[p % n], genes[p / n], wide[p % n].copyNumbers[p / n])
  }

  /** Position `j * n + i` of the melt is gene `j` of wide row `i`. */
  lemma MeltAtIndex(wide: seq<WideRow>, genes: seq<string>, j: int, i: int)
    requires WellShaped(wide, genes) && 0 <= j < |genes| && 0 <= i < |wide|
    ensures 0 <= MeltIndex(j, i, |wide|) < |genes| * |wide|
    ensures MeltAt(wide, genes, MeltIndex(j, i, |wide|)) == MeltedCell(wide[i], genes[j], wide[i].copyNumbers[j])
  {
    ColumnMajorIndex(j, i, |wide|, |genes|);
    DivModParts(j * |wide| + i, j, i, |wide|);
  }

  /** `pd.melt(df_cn, id_vars=[...], var_name='Gene', value_name='Copy
      number')`: gene column by gene column, every wide row once per gene.
      Position `j * n + i` of the result holds gene `j` of wide row `i`. */
  function Melt(wide: seq<WideRow>, genes: seq<string>): (r: seq<CnRow>)
    requires WellShaped(wide, genes)
    ensures |r| == |genes| * |wide|
    ensures forall j, i :: 0 <= j < |genes| && 0 <= i < |wide| ==>
              0 <= MeltIndex(j, i, |wide|) < |r|
              && r[MeltIndex(j, i, |wide|)] == MeltedCell(wide[i], genes[j], wide[i].copyNumbers[j])
  {
    var r := seq(|genes| * |wide|, p requires 0 <= p < |genes| * |wide| => MeltAt(wide, genes, p));
    forall j, i | 0 <= j < |genes| && 0 <= i < |wide|
      ensures 0 <= MeltIndex(j, i, |wide|) < |r|
              && r[MeltIndex(j, i, |wide|)] == MeltedCell(wide[i], genes[j], wide[i].copyNumbers[j])
    {
      MeltAtIndex(wide, genes, j, i);
    }
    r
  }

  /** Row `j * n + i` of a melt over `n` wide rows lies before the first
      `k` gene columns end when `j < k`. */
  lemma ColumnMajorIndex(j: int, i: int, n: int, k: int)
    requires 0 <= j < k && 0 <= i < n
    ensures 0 <= j * n + i < k * n
  {
    MulMonotone(j + 1, k, n);
    assert (j + 1) * n == j * n + n;
    MulMonotone(0, j, n);
  }

  /** Every position of the melt is some gene `j` of some wide row `i`. */
  lemma MeltPosition(wide: seq<WideRow>, genes: seq<string>, p: int) returns (j: int, i: int)
    requires WellShaped(wide, genes) && 0 <= p < |genes| * |wide|
    ensures 0 <= j < |genes| && 0 <= i < |wide| && p == MeltIndex(j, i, |wide|)
    ensures Melt(wide, genes)[p] == MeltedCell(wide[i], genes[j], wide[i].copyNumbers[j])
  {
    var n := |wide|;
    QuotientBound(p, n, |genes|);
    j, i := p / n, p % n;
    MeltAtIndex(wide, genes, j, i);
  }

  /** The (Sample, Gene) key of a long copy-number row. */
  function CnCell(x: CnRow): (string, string) { (x.sample, x.gene) }

  /** With distinct sample names and distinct gene columns, the melted
      table has each (sample, gene) cell exactly once, so every lookup of
      `plot_cn` finds one row. */
  lemma MeltCellsDistinct(wide: seq<WideRow>, genes: seq<string>)
    requires WellShaped(wide, genes)
    requires forall a, b :: 0 <= a < b < |wide| ==> wide[a].sample != wide[b].sample
    requires Distinct(genes)
    ensures DistinctKeys(Melt(wide, genes), CnCell)
  {
    var r := Melt(wide, genes);
    forall p, q | 0 <= p < q < |r|
      ensures CnCell(r[p]) != CnCell(r[q])
    {
      var j, i := MeltPosition(wide, genes, p);
      var j', i' := MeltPosition(wide, genes, q);
      SameCellSamePosition(wide, genes, j, i, j', i');
    }
  }

  /** Distinct samples and genes make the cell of `(j, i)` determine it. */
  lemma SameCellSamePosition(wide: seq<WideRow>, genes: seq<string>, j: int, i: int, j': int, i': int)
    requires forall a, b :: 0 <= a < b < |wide| ==> wide[a].sample != wide[b].sample
    requires Distinct(genes)
    requires 0 <= j < |genes| && 0 <= i < |wide| && 0 <= j' < |genes| && 0 <= i' < |wide|
    ensures (wide[i].sample, genes[j]) == (wide[i'].sample, genes[j']) ==> j == j' && i == i'
  {
  }

  // ---------------------------------------------------------------------
  // str.split('_', expand=True) into Patient ID and Sample type
  // ---------------------------------------------------------------------

  const Underscore: char := '_'

  /** `s.split(sep)`: the pieces between separators, empty ones included. */
  function SplitOn(s: string, sep: char): (parts: seq<string>)
    ensures |parts| == multiset(s)[sep] + 1
    ensures forall p :: p in parts ==> sep !in p
  {
    if |s| == 0 then [""]
    else
      assert s == [s[0]] + s[1..];
      var rest := SplitOn(s[1..], sep);
      if s[0] == sep then [""] + rest
      else
        assert forall p :: p in rest[1..] ==> p in rest;
        [[s[0]] + rest[0]] + rest[1..]
  }

  /** `sep.join(parts)`. */
  function Join(parts: seq<string>, sep: char): string
    requires |parts| >= 1
  {
    if |parts| == 1 then parts[0] else parts[0] + [sep] + Join(parts[1..], sep)
  }

  /** Joining the pieces of a split gives the string back. */
  lemma {:induction false} JoinSplit(s: string, sep: char)
    ensures Join(SplitOn(s, sep), sep) == s
  {
    if |s| > 0 {
      var c, t := s[0], s[1..];
      assert s == [c] + t;
      JoinSplit(t, sep);
      SplitOnCons(c, t, sep);
      if c == sep {
        JoinAfterSeparator(SplitOn(t, sep), sep);
      } else {
        JoinAfterChar(c, SplitOn(t, sep), sep);
      }
    }
  }

  /** An empty first piece puts a separator in front of the rest's join. */
  lemma JoinAfterSeparator(parts: seq<string>, sep: char)
    requires |parts| >= 1
    ensures Join([""] + parts, sep) == [sep] + Join(parts, sep)
  {
    assert ([""] + parts)[1..] == parts;
  }

  /** A character prefixed to the first piece is prefixed to the join. */
  lemma JoinAfterChar(c: char, parts: seq<string>, sep: char)
    requires |parts| >= 1
    ensures Join([[c] + parts[0]] + parts[1..], sep) == [c] + Join(parts, sep)
  {
    var joined := [[c] + parts[0]] + parts[1..];
    if |parts| > 1 {
      assert joined[1..] == parts[1..];
    }
  }

  /** One step of the split: a leading separator starts a new empty
      piece, any other character joins the first piece. */
  lemma SplitOnCons(c: char, t: string, sep: char)
    ensures SplitOn([c] + t, sep) ==
              if c == sep then [""] + SplitOn(t, sep)
              else [[c] + SplitOn(t, sep)[0]] + SplitOn(t, sep)[1..]
  {
    assert ([c] + t)[1..] == t;
  }

  /** A piece free of the separator followed by one separator splits off
      as the first piece. */
  lemma {:induction false} SplitCons(p: string, sep: char, t: string)
    requires sep !in p
    ensures SplitOn(p + [sep] + t, sep) == [p] + SplitOn(t, sep)
  {
    if |p| > 0 {
      var rest := p[1..] + [sep] + t;
      assert p + [sep] + t == [p[0]] + rest;
      SplitCons(p[1..], sep, t);
      SplitOnCons(p[0], rest, sep);
      assert ([p[1..]] + SplitOn(t, sep))[1..] == SplitOn(t, sep);
      assert [p[0]] + p[1..] == p;
    } else {
      assert p + [sep] + t == [sep] + t;
      SplitOnCons(sep, t, sep);
    }
  }

  /** A string free of the separator is one piece. */
  lemma {:induction false} SplitNone(p: string, sep: char)
    requires sep !in p
    ensures SplitOn(p, sep) == [p]
  {
    if |p| > 0 {
      SplitNone(p[1..], sep);
      assert [p[0]] + p[1..] == p;
    }
  }

  /** Splitting a join of separator-free pieces gives the pieces back. */
  lemma {:induction false} SplitJoin(parts: seq<string>, sep: char)
    requires |parts| >= 1 && forall p :: p in parts ==> sep !in p
    ensures SplitOn(Join(parts, sep), sep) == parts
  {
    if |parts| == 1 {
      SplitNone(parts[0], sep);
    } else {
      assert parts[0] in parts;
      assert forall p :: p in parts[1..] ==> p in parts;
      SplitJoin(parts[1..], sep);
      SplitCons(parts[0], sep, Join(parts[1..], sep));
      assert [parts[0]] + parts[1..] == parts;
    }
  }

  /** The two columns a sample name yields. */
  datatype SampleId = SampleId(patient: string, sampleType: Option<string>)

  /** What follows the patient in a name: nothing, or an underscore and
      the sample type. */
  function TypeSuffix(sampleType: Option<string>): string {
    match sampleType
    case None => ""
    case Some(t) => [Underscore] + t
  }

  /** The largest number of pieces among the names: the number of columns
      `str.split(expand=True)` produces (none for no names). */
  function MaxParts(samples: seq<string>): (k: nat)
    ensures forall s :: s in samples ==> |SplitOn(s, Underscore)| <= k
    ensures |samples| > 0 ==> exists s :: s in samples && |SplitOn(s, Underscore)| == k
    ensures |samples| == 0 ==> k == 0
  {
    if |samples| == 0 then 0
    else
      var rest := MaxParts(samples[1..]);
      var here := |SplitOn(samples[0], Underscore)|;
      assert forall s :: s in samples ==> s == samples[0] || s in samples[1..];
      if here >= rest then here else rest
  }

  /** `df[["Patient ID", "Sample type"]] = df["Sample"].str.split(pat="_",
      expand=True)`: the assignment needs exactly two columns, so it
      succeeds exactly when no name has two underscores and some name has
      one. A name without an underscore gets no sample type. The two parts
      reassemble the name. */
  function SplitSamples(samples: seq<string>): (r: Result<seq<SampleId>, Error>)
    ensures r.Ok? <==> ((forall s :: s in samples ==> multiset(s)[Underscore] <= 1)
                       && (exists s :: s in samples && multiset(s)[Underscore] == 1))
    ensures r.Err? ==> r.error == ColumnCountMismatch(MaxParts(samples))
    ensures r.Ok? ==> |r.value| == |samples|
    ensures r.Ok? ==> forall i :: 0 <= i < |samples| ==>
              && Underscore !in r.value[i].patient
              && samples[i] == r.value[i].patient + TypeSuffix(r.value[i].sampleType)
  {
    var k := MaxParts(samples);
    if k != 2 then Err(ColumnCountMismatch(k))
    else
      Ok(seq(|samples|, i requires 0 <= i < |samples| => IdOf(samples[i])))
  }

  /** The identifier columns of one name with at most one underscore. */
  function IdOf(s: string): (id: SampleId)
    ensures multiset(s)[Underscore] <= 1 ==>
              && Underscore !in id.patient
              && s == id.patient + TypeSuffix(id.sampleType)
  {
    var parts := SplitOn(s, Underscore);
    JoinSplit(s, Underscore);
    assert parts[0] in parts;
    if |parts| >= 2 then
      assert |parts| == 2 ==> Join(parts, Underscore) == parts[0] + [Underscore] + parts[1];
      SampleId(parts[0], Some(parts[1]))
    else SampleId(parts[0], None)
  }

  /** The name of a patient as the labels show it: `sample.split("_")[0]`. */
  function PatientOf(sample: string): (p: string)
    ensures Underscore !in p
    ensures Underscore in sample ==> exists rest :: sample == p + [Underscore] + rest
    ensures Underscore !in sample ==> p == sample
  {
    var parts := SplitOn(sample, Underscore);
    assert parts[0] in parts;
    JoinSplit(sample, Underscore);
    if |parts| == 1 then
      parts[0]
    else
      assert sample == parts[0] + [Underscore] + Join(parts[1..], Underscore);
      parts[0]
  }

  /** The sample type the split assigns to a name. */
  function SampleTypeOf(sample: string): Option<string> {
    IdOf(sample).sampleType
  }

  /** The patient and sample type of one name are the two parts of its
      split. */
  lemma IdOfParts(s: string)
    ensures IdOf(s) == SampleId(PatientOf(s), SampleTypeOf(s))
  {
  }

  /** The identifiers of a successful split are those of each name. */
  lemma SplitIds(samples: seq<string>)
    requires SplitSamples(samples).Ok?
    ensures forall i :: 0 <= i < |samples| ==>
              SplitSamples(samples).value[i] == SampleId(PatientOf(samples[i]), SampleTypeOf(samples[i]))
  {
    forall i | 0 <= i < |samples|
      ensures SplitSamples(samples).value[i] == SampleId(PatientOf(samples[i]), SampleTypeOf(samples[i]))
    {
      IdOfParts(samples[i]);
    }
  }

  /** A copy-number row with the identifier columns of its name. */
  function IdentifyCn(x: CnRow): CnRow {
    x.(patient := PatientOf(x.sample), sampleType := SampleTypeOf(x.sample))
  }

  /** A mutation row with the identifier columns of its name. */
  function IdentifyMut(m: MutRow): MutRow {
    m.(patient := PatientOf(m.sample), sampleType := SampleTypeOf(m.sample))
  }

  function IdentifyAllCn(cn: seq<CnRow>): (r: seq<CnRow>)
    ensures |r| == |cn| && forall i :: 0 <= i < |cn| ==> r[i] == IdentifyCn(cn[i])
  {
    seq(|cn|, i requires 0 <= i < |cn| => IdentifyCn(cn[i]))
  }

  function IdentifyAllMuts(muts: seq<MutRow>): (r: seq<MutRow>)
    ensures |r| == |muts| && forall i :: 0 <= i < |muts| ==> r[i] == IdentifyMut(muts[i])
  {
    seq(|muts|, i requires 0 <= i < |muts| => IdentifyMut(muts[i]))
  }

  /** The copy-number table with its derived identifier columns: each row
      keeps everything but gains the patient and sample type of its name,
      provided the split of the whole Sample column yields two columns. */
  function AnnotateCn(cn: seq<CnRow>): (r: Result<seq<CnRow>, Error>)
    ensures r.Ok? <==> SplitSamples(ColumnValues(cn, CnSample)).Ok?
    ensures r.Err? ==> r.error == SplitSamples(ColumnValues(cn, CnSample)).error
    ensures r.Ok? ==> |r.value| == |cn| && forall i :: 0 <= i < |cn| ==> r.value[i] == IdentifyCn(cn[i])
  {
    var split := SplitSamples(ColumnValues(cn, CnSample));
    if split.Err? then Err(split.error)
    else Ok(IdentifyAllCn(cn))
  }

  /** The mutation table with its derived identifier columns. */
  function AnnotateMuts(muts: seq<MutRow>): (r: Result<seq<MutRow>, Error>)
    ensures r.Ok? <==> SplitSamples(ColumnValues(muts, MutSample)).Ok?
    ensures r.Err? ==> r.error == SplitSamples(ColumnValues(muts, MutSample)).error
    ensures r.Ok? ==> |r.value| == |muts| && forall i :: 0 <= i < |muts| ==> r.value[i] == IdentifyMut(muts[i])
  {
    var split := SplitSamples(ColumnValues(muts, MutSample));
    if split.Err? then Err(split.error)
    else Ok(IdentifyAllMuts(muts))
  }

  /** The row's patient and sample type reassemble its name, and the
      patient has no underscore. */
  ghost predicate Reassembles(sample: string, patient: string, sampleType: Option<string>) {
    Underscore !in patient && sample == patient + TypeSuffix(sampleType)
  }

  /** A name with at most one underscore is its patient and sample type
      put back together. */
  lemma NameReassembles(s: string)
    requires multiset(s)[Underscore] <= 1
    ensures Reassembles(s, PatientOf(s), SampleTypeOf(s))
  {
    IdOfParts(s);
  }

  /** After a successful annotation every row's patient and sample type
      reassemble its sample name. */
  lemma AnnotatedIdsReassemble(cn: seq<CnRow>)
    requires AnnotateCn(cn).Ok?
    ensures forall i :: 0 <= i < |cn| ==>
              Reassembles(cn[i].sample, AnnotateCn(cn).value[i].patient, AnnotateCn(cn).value[i].sampleType)
  {
    var samples := ColumnValues(cn, CnSample);
    forall i | 0 <= i < |cn|
      ensures Reassembles(cn[i].sample, AnnotateCn(cn).value[i].patient, AnnotateCn(cn).value[i].sampleType)
    {
      assert samples[i] == cn[i].sample && samples[i] in samples;
      NameReassembles(cn[i].sample);
    }
  }

  // ---------------------------------------------------------------------
  // The patient filter
  // ---------------------------------------------------------------------

  /** `if patient_id: df = df.loc[df['Patient ID'] == patient_id]` on both
      tables; an empty id is false and filters nothing. */
  function FilterPatient(cn: seq<CnRow>, muts: seq<MutRow>, patientId: string): (r: (seq<CnRow>, seq<MutRow>))
    ensures patientId == "" ==> r == (cn, muts)
    ensures patientId != "" ==> ((forall x :: x in r.0 ==> x.patient == patientId)
                                && (forall m :: m in r.1 ==> m.patient == patientId))
    ensures patientId != "" ==> forall x {:trigger multiset(r.0)[x]} ::
              multiset(r.0)[x] == if x.patient == patientId then multiset(cn)[x] else 0
    ensures patientId != "" ==> forall m {:trigger multiset(r.1)[m]} ::
              multiset(r.1)[m] == if m.patient == patientId then multiset(muts)[m] else 0
  {
    if patientId == "" then (cn, muts)
    else (FilterType(cn, patientId, CnPatient), FilterType(muts, patientId, MutPatient))
  }

  // ---------------------------------------------------------------------
  // ctDNA as a percentage, the ctDNA filter and its propagation
  // ---------------------------------------------------------------------

  function Percent(x: CnRow): CnRow { x.(ctDNA := x.ctDNA * 100.0) }

  /** `df_cn["ctDNA fraction"] = df_cn["ctDNA fraction"] * 100`. */
  function ScaleCtDNA(cn: seq<CnRow>): (r: seq<CnRow>)
    ensures |r| == |cn| && forall i :: 0 <= i < |cn| ==> r[i] == Percent(cn[i])
  {
    if |cn| == 0 then [] else [Percent(cn[0])] + ScaleCtDNA(cn[1..])
  }

  function ScaleOption(m: Option<real>): Option<real> {
    match m
    case None => None
    case Some(v) => Some(v * 100.0)
  }

  /** One step of `GroupMax`: the maximum after row `x` given the maximum
      of the rows that follow it. */
  function MaxStep(x: CnRow, patient: string, rest: Option<real>): Option<real> {
    if x.patient != patient then rest
    else match rest
      case None => Some(x.ctDNA)
      case Some(v) => Some(if x.ctDNA > v then x.ctDNA else v)
  }

  lemma GroupMaxCons(x: CnRow, rest: seq<CnRow>, patient: string)
    ensures GroupMax([x] + rest, patient) == MaxStep(x, patient, GroupMax(rest, patient))
  {
    assert ([x] + rest)[1..] == rest;
  }

  lemma MaxStepScales(x: CnRow, patient: string, m: Option<real>)
    ensures MaxStep(Percent(x), patient, ScaleOption(m)) == ScaleOption(MaxStep(x, patient, m))
  {
  }

  /** A patient's maximum scales with its rows. */
  lemma {:induction false} GroupMaxScales(df: seq<CnRow>, patient: string)
    ensures GroupMax(ScaleCtDNA(df), patient) == ScaleOption(GroupMax(df, patient))
  {
    if |df| > 0 {
      GroupMaxScales(df[1..], patient);
      GroupMaxCons(df[0], df[1..], patient);
      GroupMaxCons(Percent(df[0]), ScaleCtDNA(df[1..]), patient);
      MaxStepScales(df[0], patient, GroupMax(df[1..], patient));
      assert [df[0]] + df[1..] == df;
    }
  }

  /** A row is at its patient's maximum exactly when its scaled copy is
      at the maximum of the scaled table. */
  lemma AtPatientMaxScales(df: seq<CnRow>, x: CnRow)
    ensures AtPatientMax(ScaleCtDNA(df))(Percent(x)) == AtPatientMax(df)(x)
  {
    var m := GroupMax(df, x.patient);
    var ms := GroupMax(ScaleCtDNA(df), x.patient);
    GroupMaxScales(df, x.patient);
    AtPatientMaxIs(df, x, m);
    AtPatientMaxIs(ScaleCtDNA(df), Percent(x), ms);
    ScaledMaxIs(m, ms, x);
  }

  lemma ScaledMaxIs(m: Option<real>, ms: Option<real>, x: CnRow)
    requires ms == ScaleOption(m)
    ensures (ms == Some(Percent(x).ctDNA)) == (m == Some(x.ctDNA))
  {
  }

  lemma AtPatientMaxIs(df: seq<CnRow>, x: CnRow, m: Option<real>)
    requires GroupMax(df, x.patient) == m
    ensures AtPatientMax(df)(x) == (m == Some(x.ctDNA))
  {
  }

  /** Scaling to percentages before `filter_df_ctDNA`, as the script does,
      keeps the same rows as scaling after it. */
  lemma {:induction false} FilterCtDNAAfterScale(df: seq<CnRow>)
    ensures FilterCtDNA(ScaleCtDNA(df)) == ScaleCtDNA(FilterCtDNA(df))
  {
    forall x | true
      ensures AtPatientMax(ScaleCtDNA(df))(Percent(x)) == AtPatientMax(df)(x)
    {
      AtPatientMaxScales(df, x);
    }
    FilterMapped(ScaleCtDNA(df), df, AtPatientMax(ScaleCtDNA(df)), AtPatientMax(df));
    assert FilterCtDNA(ScaleCtDNA(df)) == Filter(ScaleCtDNA(df), AtPatientMax(ScaleCtDNA(df)));
    assert FilterCtDNA(df) == Filter(df, AtPatientMax(df));
  }

  /** Selecting scaled rows by a mask that reads them as their unscaled
      originals selects the scaled originals. */
  lemma {:induction false} FilterMapped(s: seq<CnRow>, t: seq<CnRow>, p: CnRow -> bool, q: CnRow -> bool)
    requires s == ScaleCtDNA(t)
    requires forall x :: p(Percent(x)) == q(x)
    ensures Filter(s, p) == ScaleCtDNA(Filter(t, q))
  {
    if |t| > 0 {
      assert s[1..] == ScaleCtDNA(t[1..]);
      FilterMapped(s[1..], t[1..], p, q);
      assert s[0] == Percent(t[0]);
      if q(t[0]) {
        assert Filter(t, q) == [t[0]] + Filter(t[1..], q);
        assert ScaleCtDNA(Filter(t, q)) == [Percent(t[0])] + ScaleCtDNA(Filter(t[1..], q));
      }
    }
  }

  /** The mask `df_muts["Sample"].isin(df_cn["Sample"])`. */
  function InSamples(cn: seq<CnRow>): MutRow -> bool {
    (m: MutRow) => m.sample in KeySet(cn, CnSample)
  }

  /** `df_muts[df_muts["Sample"].isin(df_cn["Sample"])]`: the mutations of
      samples that have copy-number rows, all of them, in order. */
  function KeepSamplesOf(muts: seq<MutRow>, cn: seq<CnRow>): (r: seq<MutRow>)
    ensures IsSubseq(r, muts)
    ensures forall m {:trigger multiset(r)[m]} ::
              multiset(r)[m] == if exists x :: x in cn && x.sample == m.sample then multiset(muts)[m] else 0
  {
    var r := Filter(muts, InSamples(cn));
    forall m
      ensures InSamples(cn)(m) <==> exists x :: x in cn && x.sample == m.sample
    {
      if InSamples(cn)(m) {
        var x :| x in cn && CnSample(x) == m.sample;
      }
    }
    r
  }

  /** Scaling ctDNA leaves the samples alone, so propagating to the scaled
      rows keeps exactly the mutations that propagating to the unscaled
      rows keeps, in the same order. */
  lemma KeepSamplesOfScaled(muts: seq<MutRow>, cn: seq<CnRow>)
    ensures KeepSamplesOf(muts, ScaleCtDNA(cn)) == KeepSamplesOf(muts, cn)
  {
    var s := ScaleCtDNA(cn);
    assert KeySet(s, CnSample) == KeySet(cn, CnSample) by {
      forall k | k in KeySet(s, CnSample)
        ensures k in KeySet(cn, CnSample)
      {
        var y :| y in s && CnSample(y) == k;
        var i :| 0 <= i < |s| && s[i] == y;
        assert CnSample(cn[i]) == k;
      }
      forall k | k in KeySet(cn, CnSample)
        ensures k in KeySet(s, CnSample)
      {
        var x :| x in cn && CnSample(x) == k;
        var i :| 0 <= i < |cn| && cn[i] == x;
        assert CnSample(s[i]) == k;
      }
    }
    FilterSameMask(muts, InSamples(s), InSamples(cn));
    assert KeepSamplesOf(muts, s) == Filter(muts, InSamples(s));
    assert KeepSamplesOf(muts, cn) == Filter(muts, InSamples(cn));
  }

  /** After the ctDNA filter and its propagation, every mutation kept
      belongs to a sample whose copy-number rows are its patient's
      highest-ctDNA rows. */
  lemma PropagatedMutationsAtMax(cn: seq<CnRow>, muts: seq<MutRow>)
    ensures forall m :: m in KeepSamplesOf(muts, FilterCtDNA(cn)) ==>
              exists x :: x in cn && x.sample == m.sample && IsPatientMax(cn, x)
  {
    var f := FilterCtDNA(cn);
    forall m | m in KeepSamplesOf(muts, f)
      ensures exists x :: x in cn && x.sample == m.sample && IsPatientMax(cn, x)
    {
      var k := KeepSamplesOf(muts, f);
      assert multiset(k)[m] > 0;
      var x :| x in f && x.sample == m.sample;
      assert multiset(f)[x] > 0;
    }
  }

  // ---------------------------------------------------------------------
  // The optional sample-type sort
  // ---------------------------------------------------------------------

  /** The rows that have a sample type, that is whose sample name had an
      underscore. */
  function CnTyped(x: CnRow): bool { x.sampleType.Some? }

  /** `df_cn.groupby("Sample type").apply(pd.DataFrame.sort_values,
      'ctDNA fraction')` with its `reset_index(drop=True)`: the groupby
      leaves out every row whose key is missing, and keeps every other row
      as often as the table holds it. The order it produces is undone by
      the final ctDNA sort, so only which rows survive is stated. */
  function GroupByType(cn: seq<CnRow>): (r: seq<CnRow>)
    ensures forall x {:trigger multiset(r)[x]} ::
              multiset(r)[x] == if x.sampleType.Some? then multiset(cn)[x] else 0
  {
    Filter(cn, CnTyped)
  }

  /** `df_muts.sort_values(by="Sample type")` with its
      `reset_index(drop=True)`: the same mutations, in Python's string
      order of their sample types, those without one last. The sort is not
      stable, so the order within one sample type is not promised. */
  function SortMutsByType(muts: seq<MutRow>): (r: seq<MutRow>)
    ensures multiset(r) == multiset(muts)
    ensures SortedByText(r, MutSampleType)
    ensures forall i, j :: 0 <= i < j < |r| && r[i].sampleType.None? ==> r[j].sampleType.None?
  {
    SortByText(muts, MutSampleType)
  }

  // ---------------------------------------------------------------------
  // The final sort
  // ---------------------------------------------------------------------

  /** `df_cn.sort_values(by=["ctDNA fraction"])`: the same rows in
      ascending ctDNA. pandas' default sort is not stable, so the order of
      equal-ctDNA rows is not promised. */
  function SortByCtDNA(cn: seq<CnRow>): (r: seq<CnRow>)
    ensures multiset(r) == multiset(cn)
    ensures forall i, j :: 0 <= i < j < |r| ==> r[i].ctDNA <= r[j].ctDNA
  {
    var r := SortBy(cn, CnCtDNA);
    assert SortedBy(r, CnCtDNA);
    r
  }

  // ---------------------------------------------------------------------
  // Palettes
  // ---------------------------------------------------------------------

  /** `cn_dict`: a colour for each copy number from -2 to 2. */
  const CnPalette: map<int, string> :=
    map[-2 := "#3f60ac", -1 := "#9cc5e9", 0 := "#e6e7e8", 1 := "#f59496", 2 := "#ee2d24"]

  /** `mut_dict`, including the key with a trailing space. */
  const MutPalette: map<string, string> :=
    map["Missense mutation" := "#79B443", "Splice site mutation" := "#FFC907",
        "Splice site mutation " := "#FFC907", "Stopgain mutation" := "#FFC907",
        "Frameshift mutation" := "#FFC907", "Frameshift indel" := "#5c32a8",
        "Non-frameshift indel" := "#BD4398", "Germline frameshift mutation" := "#FFC907",
        "Germline stopgain mutation" := "#FFC907", "Germline missense mutation" := "#79B443",
        "Intragenic arrangement" := "#a3dcf7", "Multiple somatic mutations" := "black"]

  /** `shape_dict`. */
  const ShapePalette: map<string, string> :=
    map["Missense mutation" := "s", "Splice site mutation" := "s",
        "Splice site mutation " := "s", "Stopgain mutation" := "s",
        "Frameshift mutation" := "s", "Frameshift indel" := "s",
        "Non-frameshift indel" := "s", "Germline frameshift mutation" := "*",
        "Germline stopgain mutation" := "*", "Germline missense mutation" := "*",
        "Intragenic arrangement" := "s", "Multiple somatic mutations" := "^"]

  const GermlineEffects: set<string> :=
    {"Germline frameshift mutation", "Germline stopgain mutation", "Germline missense mutation"}

  /** `Series.map(d)` for one value: missing keys give NaN. */
  function Lookup<K, V>(d: map<K, V>, k: K): (r: Option<V>)
    ensures r.Some? <==> k in d
    ensures r.Some? ==> r.value == d[k]
  {
    if k in d then Some(d[k]) else None
  }

  /** A copy-number row with the colour of its copy number. */
  function PaintCn(x: CnRow): CnRow {
    x.(color := Lookup(CnPalette, x.copyNumber))
  }

  /** A mutation row with the colour and shape of its effect. */
  function StyleMut(m: MutRow): MutRow {
    m.(color := Lookup(MutPalette, m.effect), shape := Lookup(ShapePalette, m.effect))
  }

  /** `df_cn['Color'] = df_cn['Copy number'].map(cn_dict)`. */
  function ColorCn(cn: seq<CnRow>): (r: seq<CnRow>)
    ensures |r| == |cn|
    ensures forall i :: 0 <= i < |cn| ==> r[i] == PaintCn(cn[i])
    ensures forall i :: 0 <= i < |cn| ==> r[i].(color := cn[i].color) == cn[i]
    ensures forall i :: 0 <= i < |cn| ==> (r[i].color.Some? <==> -2 <= cn[i].copyNumber <= 2)
  {
    forall i | 0 <= i < |cn| {
      CnColorRange(cn[i].copyNumber);
    }
    seq(|cn|, i requires 0 <= i < |cn| => PaintCn(cn[i]))
  }

  /** `df_muts['Color']` and `df_muts["shapes"]` from the effect. */
  function StyleMuts(muts: seq<MutRow>): (r: seq<MutRow>)
    ensures |r| == |muts|
    ensures forall i :: 0 <= i < |muts| ==> r[i] == StyleMut(muts[i])
    ensures forall i :: 0 <= i < |muts| ==> r[i].(color := muts[i].color, shape := muts[i].shape) == muts[i]
    ensures forall i :: 0 <= i < |muts| ==> (r[i].color.Some? <==> r[i].shape.Some?)
    ensures forall i :: 0 <= i < |muts| ==> (r[i].shape == Some("*") <==> muts[i].effect in GermlineEffects)
  {
    PalettesAgree();
    seq(|muts|, i requires 0 <= i < |muts| => StyleMut(muts[i]))
  }

  /** Only copy numbers from -2 to 2 get a colour. */
  lemma CnColorRange(c: int)
    ensures Lookup(CnPalette, c).Some? <==> -2 <= c <= 2
  {
    if -2 <= c <= 2 {
      assert c == -2 || c == -1 || c == 0 || c == 1 || c == 2;
    }
  }

  /** An effect has a colour exactly when it has a shape, germline effects
      are stars, the "multiple" effect is a black triangle and every other
      effect a square. */
  lemma PalettesAgree()
    ensures MutPalette.Keys == ShapePalette.Keys
    ensures forall e :: e in ShapePalette ==> (ShapePalette[e] == "*" <==> e in GermlineEffects)
    ensures ShapePalette[MultipleEffect] == "^" && MutPalette[MultipleEffect] == "black"
    ensures forall e :: e in ShapePalette && e != MultipleEffect && e !in GermlineEffects ==> ShapePalette[e] == "s"
  {
  }
}
