# Oncoprint table wrangling, modelled in Dafny

The oncoprint scripts read a wide copy-number table (one row per sample, one
column per gene) and a long mutation table. They turn these into a two-cohort
oncoprint:

- a heatmap of copy numbers, one column per sample and one row per gene;
- mutation markers drawn on the heatmap cells;
- side bars with the percentage of samples in which each gene is altered.

This project models the table logic of that pipeline:

- `utilities_make_oncoprint.py`:
  - `filter_df_ctDNA`, `filter_df_type`, `filter_df_by_col`;
  - `plot_mut_and_cn_counts`, `convert_counts_to_percentage`;
  - the geometry and the error behaviour of `plot_cn` and `plot_muts`.
- The driver `make_oncoprint2.py`:
  - the patient filter;
  - the melt;
  - the derivation of Patient ID and Sample type from the sample name;
  - ctDNA in percent;
  - the ctDNA filter and its propagation to the mutations;
  - the optional sample-type sort (`sort_sample_type`, on by default);
  - the ctDNA sort;
  - the palettes;
  - the cohort split;
  - the counts and their zero fill;
  - the sample and gene orders, position dictionaries and patient labels;
  - the percentages;
  - the bar constants.

Tables are sequences of records (`Records.CnRow`, `Records.MutRow`). A count
table is a map from gene to `Counts.GeneCounts`. Every pandas operation that
can raise returns a `Result`:

- a missing label is `KeyError`;
- an empty `.values[0]` selection is `MissingCell`;
- a wrong column count from `str.split(expand=True)` is `ColumnCountMismatch`;
- a wrong unpack count is `UnpackError`.

The files and modules:

- `wrappers.dfy` (Option and Result);
- `seqs.dfy` (subsequences, filters, de-duplication, `unique`, sorting, column-wise mapping);
- `textorder.dfy` (Python's string order and `sort_values` on a text column with missing values);
- `records.dfy`;
- `filters.dfy`;
- `counts.dfy`;
- `layout.dfy` (`plot_cn`, `plot_muts`);
- `prepare.dfy` (the driver up to the palettes);
- `cohorts.dfy` (the cohort split);
- `oncoprint.dfy` (the pipeline, counts, orders, percentages and geometry).

Source paths below are relative to the repository root.

## Model

| member | source | states |
|---|---|---|
| Seqs.Filter | scripts/utilities_make_oncoprint.py:25-26 | boolean-mask selection keeps a subsequence: every row that passes the mask, as often as it occurs, and no other row |
| Seqs.DropDuplicatesLast | scripts/utilities_make_oncoprint.py:82 | `drop_duplicates(keep='last')` keeps a subsequence with one row per key and loses no key |
| Seqs.DropDuplicatesLastKeepsLast | scripts/utilities_make_oncoprint.py:82 | the rows kept are exactly the last rows of their keys |
| Seqs.DropDuplicatesFirst | scripts/utilities_make_oncoprint.py:116 | `drop_duplicates(subset="Sample")` keeps rows of the input, one per key, and loses no key |
| Seqs.DropDuplicatesFirstKeepsFirst | scripts/utilities_make_oncoprint.py:116 | the rows kept are exactly the first rows of their keys |
| Seqs.Unique | scripts/utilities_make_oncoprint.py:100 | `Series.unique()` has no repeats, has exactly the values of the input, and lists them in first-occurrence order |
| Seqs.PositionMap | scripts/make_oncoprint2.py:134-136 | `{u[i]: i}` has exactly the values of `u` as keys and maps each one to a position that holds it; for distinct values, `u[i]` maps to `i` |
| Seqs.SortBy | scripts/make_oncoprint2.py:90 | `sort_values` returns the same rows (a permutation) in ascending key order |
| Filters.GroupMax | scripts/utilities_make_oncoprint.py:16 | the per-patient `transform(max)`: none when the patient has no row; otherwise a ctDNA value that one of the patient's rows has and none of them exceeds |
| Filters.FilterCtDNA | scripts/utilities_make_oncoprint.py:10-19 | the result is a subsequence of the input: each row at its patient's maximum ctDNA is kept as often as it occurs, and every other row is dropped |
| Filters.FilterCtDNAKeepsPatients | scripts/utilities_make_oncoprint.py:15-17 | no patient loses all of its rows |
| Filters.FilterCtDNASharesMax | scripts/utilities_make_oncoprint.py:15-17 | the rows kept for one patient all have the same ctDNA |
| Filters.FilterCtDNAOneSamplePerPatient | scripts/utilities_make_oncoprint.py:11-17 | when no two samples of a patient tie on ctDNA, one sample per patient remains |
| Filters.FilterCtDNAIdempotent | scripts/utilities_make_oncoprint.py:10-19 | filtering a filtered table changes nothing |
| Filters.KeptRowsAreMax | scripts/utilities_make_oncoprint.py:16-17 | every kept row is at its patient's maximum within the filtered table too |
| Filters.FilterType | scripts/utilities_make_oncoprint.py:21-28 | a subsequence holding exactly the rows whose column equals the key, with their multiplicity; its length is the number of positions holding the key |
| Filters.FilterByCol | scripts/utilities_make_oncoprint.py:96-108 | one non-empty selection per distinct value of the column, each the `filter_df_type` of its value; every value has one, and they come in first-occurrence order |
| Filters.FilterByColValuesDistinct | scripts/utilities_make_oncoprint.py:100-106 | no two selections are for the same value |
| Filters.FilterByColDisjoint | scripts/utilities_make_oncoprint.py:100-106 | no row is in two selections |
| Filters.FilterByColCovers | scripts/utilities_make_oncoprint.py:100-106 | every row is in some selection |
| Filters.FilterByColSizes | scripts/utilities_make_oncoprint.py:96-108 | the selections' sizes add up to the table's length, so together with disjointness and cover they partition the table |
| Counts.MutAndCnCounts | scripts/utilities_make_oncoprint.py:72-94 | a gene has a count row exactly when it has a non-zero copy number or a mutation. CN_changes counts its non-zero rows. Mutation_events counts its mutation rows, or its distinct mutated samples under `drop`. A missing side is 0 |
| Counts.CountedGenes | scripts/utilities_make_oncoprint.py:78-92 | the genes of the two group-bys' outer join are exactly the genes with a change or a mutation |
| Counts.CountedSizes | scripts/utilities_make_oncoprint.py:78-86 | the group sizes after the zero drop and the optional de-duplication are the counts the contract of `MutAndCnCounts` names |
| Counts.DistinctSamplesCount | scripts/utilities_make_oncoprint.py:81-86 | after de-duplicating on (Sample, Gene), a gene's group size is the number of distinct samples mutated in it |
| Counts.MutationEventsIsGroupSize | scripts/utilities_make_oncoprint.py:81-92 | each Mutation_events value is the size of the gene's group in the counted mutation table |
| Counts.DropNeverIncreasesMutationEvents | scripts/utilities_make_oncoprint.py:81-86 | de-duplication keeps the same genes and never raises a mutation count |
| Counts.RoundHalfEven | scripts/utilities_make_oncoprint.py:121-127 | Python's `round` on the exact quotient: the nearest integer, with halves going to the even integer |
| Counts.RoundedUnique | scripts/utilities_make_oncoprint.py:121 | only one integer is the half-to-even rounding of a quotient |
| Counts.RoundedMonotone | scripts/utilities_make_oncoprint.py:121-122 | a larger denominator never rounds the same non-negative count to a larger integer |
| Counts.RoundedMonotoneInCount | scripts/utilities_make_oncoprint.py:121-122 | a larger numerator over the same denominator never rounds to a smaller integer |
| Counts.PercentageNeverIncreases | scripts/utilities_make_oncoprint.py:117-122 | a percentage over more samples is never larger |
| Counts.SamplesAbove | scripts/utilities_make_oncoprint.py:116-118 | the number of samples whose first row passes the threshold is at most the number of distinct samples |
| Counts.SamplesAboveIsFirstRows | scripts/utilities_make_oncoprint.py:116-118 | the denominator is exactly the number of samples whose first row has ctDNA above the threshold |
| Counts.SamplesAboveMonotone | scripts/utilities_make_oncoprint.py:116-118 | a higher ctDNA threshold never admits more samples |
| Counts.SamplesAboveCountsSamples | scripts/utilities_make_oncoprint.py:116-118 | when each sample has one ctDNA value, the count is the number of distinct samples above the threshold |
| Counts.ConvertCountsToPercentage | scripts/utilities_make_oncoprint.py:111-129 | as written: it succeeds exactly when there is an "AR" row and otherwise fails with `KeyError('AR')`. Genes and counts are kept. The percentages are rounded `100 * CN_changes` over the 25% and 2% sample counts; AR's two percentages use its own two counts over the AR sample count |
| Counts.ConvertCountsToPercentageFixed | scripts/utilities_make_oncoprint.py:111-129 | as intended: the same, except that the mutation percentage divides Mutation_events |
| Counts.MutationPercentageUsesCnCount | scripts/utilities_make_oncoprint.py:122 | a gene with copy-number changes and no mutation shows a positive mutation percentage as written, and 0 as intended |
| Layout.CellColor | scripts/utilities_make_oncoprint.py:38-39 | when a cell has no row, `.values[0]` fails with `MissingCell`; otherwise the result is the colour of the cell's first row |
| Layout.PlotCn | scripts/utilities_make_oncoprint.py:30-41 | it succeeds exactly when every (sample, gene) cell has a row, and otherwise reports the first missing cell in drawing order. Each sample gets one column of bars with bottoms `offset`, `offset+1`, and so on, each coloured like its cell's first row |
| Layout.Contains | scripts/utilities_make_oncoprint.py:58 | `str.contains` holds exactly when the pattern occurs at some position |
| Layout.CellMarkers | scripts/utilities_make_oncoprint.py:48-70 | a lone "multiple" row or three ordinary rows draw one black triangle on the cell centre. One ordinary row draws one marker 0.06 below the centre, in the iterated row's colour and the group's first shape. Two rows draw exactly two markers: the first row's colour and shape at (x-0.07, y-0.08), the second row's at (x+0.07, y+0.02). Nothing else draws. Positions are read only when drawing, an absent one raises `KeyError`, and every marker lies within 0.07 across and 0.08 below / 0.02 above the cell centre |
| Layout.LoneMutationDrawnInOwnStyle | scripts/utilities_make_oncoprint.py:62-63 | a mutation alone in its cell is drawn in its own colour and shape, 0.06 below the cell centre |
| Layout.PlotMuts | scripts/utilities_make_oncoprint.py:43-70 | it succeeds exactly when every row whose cell draws has positions, and otherwise reports the first failing row. Row `i` draws the markers of its cell |
| Layout.RowMarkers | scripts/utilities_make_oncoprint.py:50-70 | one iteration of the loop fails exactly when its row is not drawable, with `KeyError` of the missing sample (else gene), and otherwise yields its cell's markers |
| Layout.SameCellSameMarkers | scripts/utilities_make_oncoprint.py:55-70 | rows of the same cell draw identical markers |
| Layout.RowInCellGroup | scripts/utilities_make_oncoprint.py:55-56 | the subset for a row contains the row and only rows of its cell |
| Prepare.Melt | scripts/make_oncoprint2.py:56-58 | `pd.melt` has one row per (gene column, wide row): position `j*n+i` holds gene `j` of wide row `i` |
| Prepare.MeltPosition | scripts/make_oncoprint2.py:58 | every row of the melt is some gene of some wide row |
| Prepare.MeltCellsDistinct | scripts/make_oncoprint2.py:58 | with distinct sample names and gene columns, each (sample, gene) cell occurs once |
| Prepare.SplitOn | scripts/make_oncoprint2.py:61-62 | `str.split('_')` yields one more piece than there are separators, and no piece contains one |
| Prepare.JoinSplit | scripts/make_oncoprint2.py:61 | joining the pieces gives the name back |
| Prepare.SplitJoin | scripts/make_oncoprint2.py:61 | splitting a join of separator-free pieces gives the pieces back |
| Prepare.MaxParts | scripts/make_oncoprint2.py:61-62 | the column count `expand=True` produces: the largest piece count (0 for no names) |
| Prepare.SplitSamples | scripts/make_oncoprint2.py:61-62 | the two-column assignment succeeds exactly when no name has two underscores and some name has one. It otherwise fails with the column count. Patient and suffix put each name back together |
| Prepare.IdOf | scripts/make_oncoprint2.py:61 | for a name with at most one underscore: an underscore-free patient, which with the optional sample type reassembles the name |
| Prepare.PatientOf | scripts/make_oncoprint2.py:138-139 | the part before the first underscore, or the whole name when it has none |
| Prepare.IdOfParts | scripts/make_oncoprint2.py:61 | a name's two columns are its patient and its sample type |
| Prepare.SplitIds | scripts/make_oncoprint2.py:61-62 | the split's row `i` is the patient and sample type of name `i` |
| Prepare.AnnotateCn | scripts/make_oncoprint2.py:61 | it succeeds exactly when the split does, with the split's error otherwise. Each row gains the identifiers of its own name |
| Prepare.AnnotateMuts | scripts/make_oncoprint2.py:62 | the same for the mutation table |
| Prepare.NameReassembles | scripts/make_oncoprint2.py:61 | a name with at most one underscore is its patient and sample type put back together |
| Prepare.AnnotatedIdsReassemble | scripts/make_oncoprint2.py:61 | after annotation, every row's identifiers reassemble its own sample name |
| Prepare.FilterPatient | scripts/make_oncoprint2.py:44-49 | an empty id leaves both tables alone; any other id keeps exactly that patient's rows, with their multiplicity |
| Prepare.ScaleCtDNA | scripts/make_oncoprint2.py:64 | every row's ctDNA is multiplied by 100 and nothing else changes |
| Prepare.GroupMaxScales | scripts/make_oncoprint2.py:64 | a patient's maximum ctDNA scales with its rows |
| Prepare.FilterCtDNAAfterScale | scripts/make_oncoprint2.py:64-71 | filtering after scaling keeps the same rows as scaling after filtering |
| Prepare.KeepSamplesOf | scripts/make_oncoprint2.py:72 | `isin` keeps a subsequence: every mutation whose sample has a copy-number row, with its multiplicity, and no other |
| Prepare.PropagatedMutationsAtMax | scripts/make_oncoprint2.py:70-72 | every mutation that survives the propagation belongs to a sample at its patient's maximum ctDNA |
| Prepare.GroupByType | scripts/make_oncoprint2.py:83-86 | the groupby keeps exactly the copy-number rows that have a sample type, each as often as the table holds it |
| Prepare.SortMutsByType | scripts/make_oncoprint2.py:80-87 | the same mutations, ordered by sample type in Python's string order, those without one last |
| TextOrder.StrLeTotal | scripts/make_oncoprint2.py:80 | any two sample types compare one way or the other under Python's string order |
| TextOrder.StrLeTransitive | scripts/make_oncoprint2.py:80 | Python's string order is transitive |
| TextOrder.StrLeAntisymmetric | scripts/make_oncoprint2.py:80 | strings that compare both ways are equal, so the order is total |
| TextOrder.TextLeTotal | scripts/make_oncoprint2.py:80 | with missing values placed last, any two column values still compare one way or the other |
| TextOrder.TextLeTransitive | scripts/make_oncoprint2.py:80 | that order is transitive |
| TextOrder.SortByText | scripts/make_oncoprint2.py:80 | `sort_values` on a text column is a permutation in non-decreasing order, with every missing value after every present one |
| Prepare.SortByCtDNA | scripts/make_oncoprint2.py:89-90 | the same rows, in ascending ctDNA |
| Prepare.Lookup | scripts/make_oncoprint2.py:99 | `Series.map` gives the value for a known key and NaN (none) otherwise |
| Prepare.ColorCn | scripts/make_oncoprint2.py:98-99 | only the colour changes. A row gets a colour exactly when its copy number lies in -2..2, and the colour is `cn_dict`'s |
| Prepare.StyleMuts | scripts/make_oncoprint2.py:101-112 | only colour and shape change, both taken from the effect. A row has a colour exactly when it has a shape, and its shape is a star exactly for germline effects |
| Prepare.CnColorRange | scripts/make_oncoprint2.py:98-99 | a copy number has a colour exactly when it lies in -2..2 |
| Prepare.PalettesAgree | scripts/make_oncoprint2.py:101-112 | effects have a colour exactly when they have a shape. Germline effects, and only they, are stars; "Multiple somatic mutations" is a black triangle; every other effect is a square |
| Cohorts.SplitTwo | scripts/make_oncoprint2.py:117 | unpacking `filter_df_by_col` into two names succeeds exactly when the column has two values, and otherwise fails with the count. The two parts are the selections of the first and second value |
| Cohorts.SplitCohorts | scripts/make_oncoprint2.py:117-118 | as written: both tables are split independently, and the script pairs the two first selections and the two second selections |
| Cohorts.FirstSelectionIsFirstRows | scripts/utilities_make_oncoprint.py:100-108 | the first selection is for the value of the table's first row |
| Cohorts.CohortStatusesFollowFirstRows | scripts/make_oncoprint2.py:117-118 | cohort 1's copy-number status is the first copy-number row's, and its mutation status is the first mutation row's |
| Cohorts.CohortsMispaired | scripts/make_oncoprint2.py:117-118 | for tables whose first rows have different statuses, cohort 1 pairs non-responder copy numbers with responder mutations |
| Cohorts.SplitCohortsByStatus | scripts/make_oncoprint2.py:117-118 | as intended: the same success and errors, but each cohort's mutations are those of its copy-number status |
| Cohorts.CohortsByStatusShareStatus | scripts/make_oncoprint2.py:117-121 | in the intended split each cohort's two tables hold one status, and each holds every mutation of that status |
| Cohorts.SplitsAgreeOnSameOrder | scripts/make_oncoprint2.py:117-118 | the two splits agree when both tables have the same statuses and begin with the same one |
| Cohorts.SplitsAgreeOnlyOnSameOrder | scripts/make_oncoprint2.py:117-118 | and only then |
| Oncoprint.Wrangle | scripts/make_oncoprint2.py:45-112 | the prepared copy-number table is sorted by ctDNA. Every prepared row is a finished (scaled, coloured) row of an input row that passes the patient filter. The sample-type sort keeps only copy-number rows with a sample type and orders the mutations by sample type. With the ctDNA filter, every mutation's sample keeps copy-number rows unless the sample-type sort dropped them for having no sample type. Under every combination of patient id and options, the copy-number rows are, as a multiset, exactly the finished `Oncoprint.SurvivingCn` rows. The mutations are exactly the styled `Oncoprint.SurvivingMuts` mutations, in input order without the sample-type sort. So with neither filter no row is lost except the untyped copy-number rows the sample-type sort drops |
| Oncoprint.Survivors | scripts/make_oncoprint2.py:45-90 | scaling, the ctDNA filter, its propagation to the scaled rows, the groupby and the sorts keep exactly the rows of the independent selection `SurvivingCn`/`SurvivingMuts`. It finishes or styles each of them once |
| Oncoprint.SurvivingCnRows | scripts/make_oncoprint2.py:64-90 | the copy-number half of `Survivors`: the coloured, sorted table is a permutation of the finished surviving rows |
| Oncoprint.PatientChoice | scripts/make_oncoprint2.py:45-49 | the patient filter keeps exactly the rows whose patient passes `Selected`, in order, in both tables |
| Oncoprint.SurvivorsWithoutFilters | scripts/make_oncoprint2.py:45-90 | with no patient id and no ctDNA filter, every mutation survives, and every copy-number row does except the untyped ones under the sample-type sort |
| Prepare.KeepSamplesOfScaled | scripts/make_oncoprint2.py:64-72 | propagating the ctDNA filter to the scaled rows keeps the same mutations, in the same order, as propagating to the unscaled rows |
| Seqs.FilterSameMask | scripts/utilities_make_oncoprint.py:25-26 | two masks that agree on every row select the same rows |
| Oncoprint.PrepareTables | scripts/make_oncoprint2.py:45-112 | it fails exactly when one of the two identifier splits fails, and reports the copy-number table's error first. Every prepared row carries the identifiers of its own name and passes the patient filter. Every copy-number row is a cell of the wide table. With the ctDNA filter, every mutation whose sample has a sample type (every mutation, without the sample-type sort) keeps its sample's copy-number rows. The prepared rows are, as multisets, exactly the finished surviving melted cells and the styled surviving identified mutations |
| Oncoprint.PreparedKeepsEveryCell | scripts/make_oncoprint2.py:56-112 | with no patient id and neither option, the copy-number table has one row per gene and sample of the wide table, and every mutation is kept |
| Oncoprint.ZeroFill | scripts/make_oncoprint2.py:123-127 | the second table gains exactly the genes it lacks from the first, with zero counts, and keeps its own rows |
| Oncoprint.ZeroFillIdempotent | scripts/make_oncoprint2.py:124-127 | filling twice is filling once |
| Oncoprint.ZeroFillSharesGenes | scripts/make_oncoprint2.py:123-127 | afterwards the second table covers the first's genes. It has exactly those genes when it had no others |
| Oncoprint.ZeroFillIsCount | scripts/make_oncoprint2.py:120-127 | every filled-in zero is the true count of its gene in the second cohort |
| Oncoprint.CountCohorts | scripts/make_oncoprint2.py:117-127 | as intended, on the corrected cohort pairing of `Cohorts.SplitCohortsByStatus`: it fails exactly when that split fails, with its error. The first cohort's table holds exactly the genes that cohort altered (a nonzero copy number or a mutation), each with its true copy-number-change and mutated-sample counts. The second cohort's table holds exactly the genes either cohort altered, and its values are the second cohort's true counts |
| Oncoprint.DroppedCountsAreTrue | scripts/utilities_make_oncoprint.py:72-94 | with the zero rows dropped, the count table holds exactly the altered genes, each with its true counts |
| Oncoprint.Order | scripts/make_oncoprint2.py:130-132 | `unique().tolist()` has no repeats, has exactly the column's values, and lists them in first-occurrence order |
| Oncoprint.PositionsAreBijection | scripts/make_oncoprint2.py:134-136 | the position dictionary of distinct values is a bijection onto `0..n-1` |
| Oncoprint.SamplePositions | scripts/make_oncoprint2.py:135-136 | every sample of the cohort gets a position below the number of samples |
| Oncoprint.GenePositions | scripts/make_oncoprint2.py:134 | every gene of the table gets a position below the number of genes |
| Oncoprint.PatientLabels | scripts/make_oncoprint2.py:138-139 | each label is free of underscores and is the name itself or a prefix of it followed by an underscore |
| Oncoprint.AnnotatedIsIdentified | scripts/make_oncoprint2.py:61 | annotated rows carry the identifiers of their own name |
| Oncoprint.LabelsArePatients | scripts/make_oncoprint2.py:138-139 | the label under a sample's column is the Patient ID of every row of that sample |
| Oncoprint.ThresholdsOrdered | scripts/make_oncoprint2.py:146-147 | with the script's thresholds, a positive 25% count makes the 2% counts positive and at least as large |
| Oncoprint.MutationPercentAtMostCnPercent | scripts/make_oncoprint2.py:146-147 | as written, a non-AR gene's mutation percentage never exceeds its copy-number percentage |
| Oncoprint.CohortPercentages | scripts/make_oncoprint2.py:146-147 | the intended percentages with the script's thresholds, on the count table before the reindex: they succeed exactly when the cohort counted AR, fail with `KeyError('AR')` otherwise, and keep genes and counts. Each percentage is the count over the samples above the threshold, rounded: 25% ctDNA for copy-number changes and 2% for mutations, and 2% for both of AR's |
| Oncoprint.PercentagesFollowCounts | scripts/make_oncoprint2.py:146-147 | percentages order non-AR genes as their counts do, and no mutation event means 0% |
| Oncoprint.MarkersLieOnBars | scripts/make_oncoprint2.py:159-163 | every marker of a cell lies strictly inside the bar `plot_cn` draws for it: within half the drawn width `0.7*1.2` of the column, and between `pos-0.4` and `pos-0.4+0.7` |
| Oncoprint.BarsDoNotOverlap | scripts/make_oncoprint2.py:159-163 | the bars of a column stack without overlapping, and bar `j` straddles row `j` |

## Left out

- Counts.SamplesAbove: its own contract only bounds the count by the number of samples; the exact count is stated by `Counts.SamplesAboveIsFirstRows`.
- File reading, figure layout, axes styling, legends and the PDF output (`make_oncoprint2.py` 8-43 and 149-end) are I/O and rendering.
  - The ctDNA and mutation-count bar charts of lines 185-190 draw columns straight from the tables and hold no logic.
- Floating point is not modelled.
  - ctDNA values are exact reals.
  - Percentages are exact quotients rounded half to even, as `round` does on an exactly representable quotient.
- Counts.ConvertCountsToPercentage, Counts.ConvertCountsToPercentageFixed and Oncoprint.CohortPercentages require the sample counts to be positive.
  - The source divides by zero there and produces `inf`/`NaN` percentages, which are not modelled.
- The order the groupby of line 83 gives the copy-number rows is not modelled.
  - The sort at line 90 re-sorts the whole copy-number table by ctDNA.
  - pandas' default sort is not stable, so no order of equal-ctDNA rows survives it.
  - Prepare.GroupByType therefore states only which rows survive the groupby. The sort of line 79 before it is likewise dropped.
  - The comment at line 89 says "from high to low", but the call sorts ascending; the model follows the call.
- Prepare.GroupByType drops the rows without a sample type because a pandas groupby leaves out rows whose key is missing. This is the default (`dropna=True`), and the script does not change it.
- Oncoprint.Wrangle: under the sample-type sort, a sample without a sample type loses its copy-number rows but keeps its mutations. So the ctDNA filter's propagation is promised there only for samples with a sample type.
- `df_type` (line 67) and the `sample_type_color` column (lines 95-96) are only used by legends and are left out.
- Prepare.Melt models the melt of a table whose index is unset.
  - The `df_cn.index.name is None` test (line 56) is always taken for a freshly read CSV.
  - Dropping 'DNA repair defect' (line 57) is folded into `WideRow` carrying only the melt's id columns and the gene columns.
- Oncoprint.Wrangle applies the patient filter to the identifiers derived at line 61, not to a 'Patient ID' column of the raw tables (lines 45-47).
  - In the source the filter runs before the melt, so it needs a raw 'Patient ID' column.
  - Such a column would itself be melted into a bogus gene.
  - The model filters on the derived column, which is what the filter is for.
- The reindex of the count tables by the gene order (lines 142-143) is left out, for two reasons.
  - It only orders the count rows for plotting.
  - It also introduces NaN rows for genes without counts, which the model does not represent.
  - Counts.ConvertCountsToPercentage is therefore modelled on the count table as `plot_mut_and_cn_counts` returns it, where "AR" is present exactly when AR was counted.
- The count bar charts (lines 200-210) are left out as rendering.
  - Line 207 draws cohort 1's mutation bars from the raw `Mutation_events` count, not from the percentage, unlike line 210 for cohort 2.
  - This quirk is not modelled.
- The matplotlib marker strings: `str(df["shapes"][0])` at line 63 turns a missing shape into the string "nan"; the model keeps it as `None`.
- Oncoprint.CountCohorts counts the cohorts of the corrected pairing (`Cohorts.SplitCohortsByStatus`), not the positional pairing the script makes at lines 117-118.
  - The pairing as written is `Cohorts.SplitCohorts`; the difference is the second row of "## Findings".
- Oncoprint.CohortPercentages works on the count table as `plot_mut_and_cn_counts` returns it, before the reindex of lines 142-143.
  - After the reindex, the table has a row for every gene of the copy-number table. If AR is such a gene but the cohort counted no AR, the script reads an all-NaN AR row and gets NaN percentages, with no error.
  - The model reports `KeyError('AR')` in that case.
  - The script raises `KeyError('AR')` only when AR is not a gene of the copy-number table at all.
- Layout.CellMarkers does not model which marker matplotlib draws on top.
  - Duplicate rows of a cell draw the same markers once per row (`Layout.SameCellSameMarkers`).
- Oncoprint.MarkersLieOnBars takes a marker's column to be its sample's position.
  - This holds because the categorical x axis places samples in the same first-occurrence order as `sample_pos`.
  - The axis placement itself belongs to matplotlib.
- Layout.PlotCn and Layout.PlotMuts return the drawn bars and markers instead of drawing them.

## Findings

| source | as written | input that shows it | evidently intended | confidence | as-written member | corrected member |
|---|---|---|---|---|---|---|
| scripts/utilities_make_oncoprint.py:122 | `Mutation_events_perc` is computed from `CN_changes` | a gene other than AR with one copy-number change and no mutation, in a cohort with one sample above 2% ctDNA: its mutation percentage is 100 | `round(df_counts.Mutation_events/mut_filt * 100)`, as line 127 does for AR | not executed | Counts.MutationPercentageUsesCnCount | Counts.ConvertCountsToPercentageFixed |
| scripts/make_oncoprint2.py:117-118 | each table is split by responder status in its own first-occurrence order, and the selections are paired by position | a copy-number table whose first row is a non-responder and a mutation table whose first row is a responder: cohort 1 pairs non-responder copy numbers with responder mutations | each cohort's mutations are selected by the status of its copy-number rows | not executed | Cohorts.CohortsMispaired | Cohorts.SplitCohortsByStatus |
