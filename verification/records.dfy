/** The two tables the oncoprint is drawn from, one record per row, and the
    errors the scripts raise on them. */
module Records {
  import opened Wrappers

  /** A row of the long-form copy-number table: one (Sample, Gene) pair.
      `patient` and `sampleType` are derived from `sample`; `color` is the
      palette colour of `copyNumber` (None until assigned, or when the
      copy number has no palette entry). `ctDNA` is exact. */
  datatype CnRow = CnRow(
    sample: string,
    patient: string,
    sampleType: Option<string>,
    gene: string,
    copyNumber: int,
    ctDNA: real,
    mutationCount: int,
    responder: string,
    color: Option<string>)

  /** A row of the mutation table: one observed mutation event. `color` and
      `shape` are looked up from `effect`. */
  datatype MutRow = MutRow(
    sample: string,
    patient: string,
    sampleType: Option<string>,
    gene: string,
    effect: string,
    responder: string,
    color: Option<string>,
    shape: Option<string>)

  /** The exceptions the scripts can raise on well-typed tables. */
  datatype Error =
    | KeyError(key: string)                      // a dictionary or `.loc` read of an absent label
    | MissingCell(sample: string, gene: string)  // `.values[0]` on an empty selection
    | ColumnCountMismatch(columns: nat)          // a split with other than two columns assigned to two keys
    | UnpackError(count: nat)                    // a list of other than two tables unpacked into two names

  function CnSample(x: CnRow): string { x.sample }
  function CnPatient(x: CnRow): string { x.patient }
  function CnGene(x: CnRow): string { x.gene }
  function CnResponder(x: CnRow): string { x.responder }
  function CnCtDNA(x: CnRow): real { x.ctDNA }

  function MutSample(m: MutRow): string { m.sample }
  function MutPatient(m: MutRow): string { m.patient }
  function MutGene(m: MutRow): string { m.gene }
  function MutResponder(m: MutRow): string { m.responder }
  function MutSampleType(m: MutRow): Option<string> { m.sampleType }
  /** The key of `drop_duplicates(['Sample', 'Gene'])` and of the
      per-cell grouping in `plot_muts`. */
  function MutCell(m: MutRow): (string, string) { (m.sample, m.gene) }
}
