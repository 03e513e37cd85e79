/** The heatmap layer of the oncoprint: `plot_cn` stacks one coloured bar
    per (sample, gene) cell, `plot_muts` puts mutation markers on the cells.
    Drawing is modelled as the list of primitives the axis receives. */
module Layout {
  import opened Wrappers
  import opened Seqs
  import opened Records

  // ---------------------------------------------------------------------
  // plot_cn
  // ---------------------------------------------------------------------

  /** One `ax.bar` call: the bar of a cell in the column of `sample`. */
  datatype Bar = Bar(sample: string, bottom: real, color: Option<string>)

  /** The mask `(df_cn['Gene'] == gene) & (df_cn['Sample'] == sample)`. */
  function AtCell(sample: string, gene: string): CnRow -> bool {
    (x: CnRow) => x.gene == gene && x.sample == sample
  }

  ghost predicate HasCell(df: seq<CnRow>, sample: string, gene: string) {
    exists x :: x in df && x.gene == gene && x.sample == sample
  }

  /** `c` is the colour of the first row of `df` for the cell. */
  ghost predicate IsFirstCellColor(df: seq<CnRow>, sample: string, gene: string, c: Option<string>) {
    exists k :: 0 <= k < |df| && df[k].gene == gene && df[k].sample == sample && df[k].color == c
      && forall j :: 0 <= j < k ==> !(df[j].gene == gene && df[j].sample == sample)
  }

  /** `row['Color'].values[0]` of the cell's selection: the colour of its
      first row, or the error of indexing an empty selection. */
  function CellColor(df: seq<CnRow>, sample: string, gene: string): (r: Result<Option<string>, Error>)
    ensures r.Err? <==> !HasCell(df, sample, gene)
    ensures r.Err? ==> r.error == MissingCell(sample, gene)
    ensures r.Ok? ==> IsFirstCellColor(df, sample, gene, r.value)
  {
    var sel := Filter(df, AtCell(sample, gene));
    if sel == [] then
      assert forall x :: x in df ==> !AtCell(sample, gene)(x);
      Err(MissingCell(sample, gene))
    else
      FilterHead(df, AtCell(sample, gene));
      assert sel[0] in sel;
      Ok(sel[0].color)
  }

  /** `(i', j')` comes before `(i, j)` in the drawing order: samples
      outside, genes inside. */
  predicate DrawnBefore(i': int, j': int, i: int, j: int) {
    i' < i || (i' == i && j' < j)
  }

  /** `column` is the drawn column of `sample`: one bar per gene, bottoms
      `offset`, `offset + 1`, ..., each in the colour of the first row of
      its cell. */
  ghost predicate IsColumn(df: seq<CnRow>, sample: string, genes: seq<string>, offset: real, column: seq<Bar>) {
    && |column| == |genes|
    && forall j :: 0 <= j < |genes| ==>
         && HasCell(df, sample, genes[j])
         && column[j].sample == sample
         && column[j].bottom == offset + j as real
         && IsFirstCellColor(df, sample, genes[j], column[j].color)
  }

  /** `plot_cn(samples, genes, df_cn, ax, offset, ...)`: for each sample a
      column of bars, one per gene, bottoms `offset`, `offset + 1`, ...;
      each bar has the colour of the first row of its cell. A cell without a
      row stops the drawing with an error; it is the first such cell in
      drawing order. */
  method PlotCn(samples: seq<string>, genes: seq<string>, df: seq<CnRow>, offset: real)
    returns (res: Result<seq<seq<Bar>>, Error>)
    ensures res.Ok? <==> forall i, j :: 0 <= i < |samples| && 0 <= j < |genes| ==> HasCell(df, samples[i], genes[j])
    ensures res.Err? ==> exists i, j :: (
              && 0 <= i < |samples| && 0 <= j < |genes|
              && !HasCell(df, samples[i], genes[j]) && res.error == MissingCell(samples[i], genes[j])
              && forall i', j' :: 0 <= i' < |samples| && 0 <= j' < |genes| && DrawnBefore(i', j', i, j) ==>
                   HasCell(df, samples[i'], genes[j']))
    ensures res.Ok? ==> |res.value| == |samples|
    ensures res.Ok? ==> forall i :: 0 <= i < |samples| ==> IsColumn(df, samples[i], genes, offset, res.value[i])
  {
    var columns: seq<seq<Bar>> := [];
    var i := 0;
    while i < |samples|
      invariant 0 <= i <= |samples| && |columns| == i
      invariant forall i' :: 0 <= i' < i ==> IsColumn(df, samples[i'], genes, offset, columns[i'])
    {
      var sample := samples[i];
      var bottom := offset;
      var column: seq<Bar> := [];
      var j := 0;
      while j < |genes|
        invariant 0 <= j <= |genes| && |column| == j
        invariant bottom == offset + j as real
        invariant forall j' :: 0 <= j' < j ==>
                    && HasCell(df, sample, genes[j'])
                    && column[j'].sample == sample
                    && column[j'].bottom == offset + j' as real
                    && IsFirstCellColor(df, sample, genes[j'], column[j'].color)
      {
        var color := CellColor(df, sample, genes[j]);
        if color.Err? {
          res := Err(color.error);
          return;
        }
        column := column + [Bar(sample, bottom, color.value)];
        bottom := bottom + 1.0;
        j := j + 1;
      }
      columns := columns + [column];
      i := i + 1;
    }
    res := Ok(columns);
  }

  // ---------------------------------------------------------------------
  // plot_muts
  // ---------------------------------------------------------------------

  /** One `ax.scatter` call. */
  datatype Marker = Marker(x: real, y: real, color: Option<string>, size: nat, shape: Option<string>)

  const MarkerSize: nat := 9
  /** `marker_size + 3`, for the black triangle. */
  const TriangleSize: nat := MarkerSize + 3
  const MultipleEffect: string := "Multiple somatic mutations"
  /** How far below the cell centre a lone marker sits. */
  const LoneDrop: real := 0.06
  /** How far left and right of the cell centre the two markers of a pair sit. */
  const PairDx: real := 0.07
  /** The vertical offsets of a pair's first (lower) and second (upper) marker. */
  const PairLowDy: real := -0.08
  const PairHighDy: real := 0.02

  /** The marker a cell gets when it has several mutations: a black
      triangle on the cell centre. */
  function BlackTriangle(x: real, y: real): Marker {
    Marker(x, y, Some("black"), TriangleSize, Some("^"))
  }

  ghost predicate OccursAt(s: string, pat: string, i: int) {
    0 <= i && i + |pat| <= |s| && s[i..i + |pat|] == pat
  }

  /** `pat in s`, as `str.contains` with a pattern free of regular
      expression syntax. */
  function Contains(s: string, pat: string): (b: bool)
    ensures b <==> exists i :: OccursAt(s, pat, i)
    decreases |s|
  {
    if |s| < |pat| then false
    else if s[..|pat|] == pat then
      assert OccursAt(s, pat, 0);
      true
    else
      var rest := Contains(s[1..], pat);
      ContainsShift(s, pat);
      rest
  }

  lemma ContainsShift(s: string, pat: string)
    requires |s| >= |pat| && s[..|pat|] != pat
    ensures (exists i :: OccursAt(s, pat, i)) <==> (exists i :: OccursAt(s[1..], pat, i))
  {
    forall i | OccursAt(s, pat, i)
      ensures OccursAt(s[1..], pat, i - 1)
    {
      assert i != 0;
      assert s[1..][i - 1..i - 1 + |pat|] == s[i..i + |pat|];
    }
    forall i | OccursAt(s[1..], pat, i)
      ensures OccursAt(s, pat, i + 1)
    {
      assert s[1..][i..i + |pat|] == s[i + 1..i + 1 + |pat|];
    }
  }

  /** `df["Effect"].str.contains("Multiple somatic mutations").any()`. */
  predicate HasMultiple(group: seq<MutRow>) {
    exists m :: m in group && Contains(m.effect, MultipleEffect)
  }

  /** Whether the cell of a group gets any marker: a lone "multiple" row,
      or one to three ordinary rows. */
  predicate Draws(group: seq<MutRow>) {
    if HasMultiple(group) then |group| == 1 else 1 <= |group| <= 3
  }

  /** The mutation rows of one (Sample, Gene) cell, in table order. */
  function CellGroup(df: seq<MutRow>, row: MutRow): seq<MutRow> {
    Filter(df, Matches(MutCell, MutCell(row)))
  }

  /** The markers one iteration of `plot_muts` draws for `row`, whose cell
      has the rows `group`: a lone "multiple" row or three ordinary rows
      give a black triangle on the cell centre; one ordinary row a marker
      just below the centre in its own colour and shape; two ordinary rows
      a pair, the first to the lower left and the second to the upper
      right. The positions are read only when something is drawn, and an
      absent sample or gene raises there. */
  function CellMarkers(row: MutRow, group: seq<MutRow>, samplePos: map<string, int>, genePos: map<string, int>)
    : (r: Result<seq<Marker>, Error>)
    ensures r.Err? <==> Draws(group) && (row.sample !in samplePos || row.gene !in genePos)
    ensures r.Err? ==> r.error == KeyError(if row.sample !in samplePos then row.sample else row.gene)
    ensures r.Ok? ==> (r.value != [] <==> Draws(group)) && |r.value| <= 2
    ensures r.Ok? && Draws(group) ==>
              var x, y := samplePos[row.sample] as real, genePos[row.gene] as real;
              && (r.value == [BlackTriangle(x, y)] <==> |group| == (if HasMultiple(group) then 1 else 3))
              && (!HasMultiple(group) && |group| == 1 ==>
                    r.value == [Marker(x, y - LoneDrop, row.color, MarkerSize, group[0].shape)])
              && (!HasMultiple(group) && |group| == 2 ==>
                    r.value == [Marker(x - PairDx, y + PairLowDy, group[0].color, MarkerSize, group[0].shape),
                                Marker(x + PairDx, y + PairHighDy, group[1].color, MarkerSize, group[1].shape)])
              && forall m :: m in r.value ==> x - PairDx <= m.x <= x + PairDx && y + PairLowDy <= m.y <= y + PairHighDy
  {
    if !Draws(group) then Ok([])
    else if row.sample !in samplePos then Err(KeyError(row.sample))
    else if row.gene !in genePos then Err(KeyError(row.gene))
    else
      var x, y := samplePos[row.sample] as real, genePos[row.gene] as real;
      if HasMultiple(group) || |group| == 3 then Ok([BlackTriangle(x, y)])
      else if |group| == 1 then Ok([Marker(x, y - LoneDrop, row.color, MarkerSize, group[0].shape)])
      else Ok([Marker(x - PairDx, y + PairLowDy, group[0].color, MarkerSize, group[0].shape),
               Marker(x + PairDx, y + PairHighDy, group[1].color, MarkerSize, group[1].shape)])
  }

  /** The row `plot_muts` reaches at `i` draws without error. */
  ghost predicate RowDrawable(df: seq<MutRow>, i: int, samplePos: map<string, int>, genePos: map<string, int>)
    requires 0 <= i < |df|
  {
    Draws(CellGroup(df, df[i])) ==> df[i].sample in samplePos && df[i].gene in genePos
  }

  /** `plot_muts(sample_pos, gene_pos, df_muts, ax)`: one iteration per row
      of the table, in order, each drawing the markers of the row's cell.
      It fails exactly when a row whose cell is drawn has a sample or gene
      without a position, with the error of the first such row. */
  method PlotMuts(samplePos: map<string, int>, genePos: map<string, int>, df: seq<MutRow>)
    returns (res: Result<seq<seq<Marker>>, Error>)
    ensures res.Ok? <==> forall i :: 0 <= i < |df| ==> RowDrawable(df, i, samplePos, genePos)
    ensures res.Err? ==> exists i :: (
              && 0 <= i < |df| && !RowDrawable(df, i, samplePos, genePos)
              && (forall j :: 0 <= j < i ==> RowDrawable(df, j, samplePos, genePos))
              && res.error == KeyError(if df[i].sample !in samplePos then df[i].sample else df[i].gene))
    ensures res.Ok? ==> |res.value| == |df|
    ensures res.Ok? ==> forall i :: 0 <= i < |df| ==> DrawnAs(df, i, samplePos, genePos, res.value[i])
  {
    var drawn: seq<seq<Marker>> := [];
    var i := 0;
    while i < |df|
      invariant 0 <= i <= |df| && |drawn| == i
      invariant forall j :: 0 <= j < i ==> RowDrawable(df, j, samplePos, genePos)
      invariant forall j :: 0 <= j < i ==> DrawnAs(df, j, samplePos, genePos, drawn[j])
    {
      var markers := RowMarkers(df, i, samplePos, genePos);
      if markers.Err? {
        res := Err(markers.error);
        return;
      }
      drawn := drawn + [markers.value];
      i := i + 1;
    }
    res := Ok(drawn);
  }

  /** Row `i` of the table draws the markers `m`: those of its cell. */
  ghost predicate DrawnAs(df: seq<MutRow>, i: int, samplePos: map<string, int>, genePos: map<string, int>, m: seq<Marker>)
    requires 0 <= i < |df|
  {
    CellMarkers(df[i], CellGroup(df, df[i]), samplePos, genePos) == Ok(m)
  }

  /** One iteration of `plot_muts`: the markers of row `i`'s cell, failing
      exactly when the row is not drawable. */
  function RowMarkers(df: seq<MutRow>, i: int, samplePos: map<string, int>, genePos: map<string, int>)
    : (r: Result<seq<Marker>, Error>)
    requires 0 <= i < |df|
    ensures r.Err? <==> !RowDrawable(df, i, samplePos, genePos)
    ensures r.Err? ==> r.error == KeyError(if df[i].sample !in samplePos then df[i].sample else df[i].gene)
    ensures r.Ok? ==> DrawnAs(df, i, samplePos, genePos, r.value)
  {
    CellMarkers(df[i], CellGroup(df, df[i]), samplePos, genePos)
  }

  /** Rows of the same cell draw the same markers: a cell with several
      mutations is drawn once per row, each time identically. */
  lemma SameCellSameMarkers(df: seq<MutRow>, i: int, j: int, samplePos: map<string, int>, genePos: map<string, int>)
    requires 0 <= i < |df| && 0 <= j < |df| && MutCell(df[i]) == MutCell(df[j])
    ensures CellMarkers(df[i], CellGroup(df, df[i]), samplePos, genePos)
         == CellMarkers(df[j], CellGroup(df, df[j]), samplePos, genePos)
  {
    var group := CellGroup(df, df[i]);
    assert CellGroup(df, df[j]) == group;
    assert df[i].sample == df[j].sample && df[i].gene == df[j].gene;
    if |group| == 1 && !HasMultiple(group) {
      assert Matches(MutCell, MutCell(df[i]))(df[i]);
      assert df[i] in group && df[j] in group;
    }
  }

  /** Every row belongs to its own cell's group, so no drawn group is
      empty. */
  lemma RowInCellGroup(df: seq<MutRow>, i: int)
    requires 0 <= i < |df|
    ensures df[i] in CellGroup(df, df[i])
    ensures forall m :: m in CellGroup(df, df[i]) ==> MutCell(m) == MutCell(df[i])
  {
    assert Matches(MutCell, MutCell(df[i]))(df[i]);
  }

  /** A mutation alone in its cell is drawn in its own colour and shape,
      just below the cell centre. */
  lemma LoneMutationDrawnInOwnStyle(df: seq<MutRow>, i: int, samplePos: map<string, int>, genePos: map<string, int>)
    requires 0 <= i < |df| && |CellGroup(df, df[i])| == 1 && !HasMultiple(CellGroup(df, df[i]))
    requires df[i].sample in samplePos && df[i].gene in genePos
    ensures CellMarkers(df[i], CellGroup(df, df[i]), samplePos, genePos)
         == Ok([Marker(samplePos[df[i].sample] as real, genePos[df[i].gene] as real - LoneDrop,
                       df[i].color, MarkerSize, df[i].shape)])
  {
  }
}
