/** `cleanData` (lib/cleaning.ts): infer the schema, then standardize, handle
    missing values, deduplicate and handle outliers, in that order, and report
    what each stage did in a summary. */
module Cleaning {
  import opened Options
  import opened Seqs
  import opened Types
  import opened Runtime
  import opened Inference
  import opened Standardize
  import opened Missing
  import opened Dedupe
  import opened Outliers

  datatype CleanResult = CleanResult(rows: Table, summary: CleaningSummary)

  /** The whole pipeline, stage by stage. */
  function CleanSpec(host: Host, rows: Table, rules: CleaningRules): CleanResult
  {
    var schema := InferSchemaSpec(host, rows, DefaultMaxRows);
    var standardized := StandardizeSpec(host, rules.standardize, schema, rows);
    var numStats := NumStatsSpec(host, schema, standardized);
    var strModes := ModesSpec(host, schema, standardized);
    var b := MissingSpec(rules.missing, numStats, strModes, schema, standardized);
    var c := DedupeStage(rules.dedupe, schema, b.rows);
    var d := OutlierStage(host, rules.outliers, NumericColumns(schema), c.rows);
    CleanResult(d.rows, CleaningSummary(|rows|, c.removed, b.dropped, Tallies(b.filled), d.removed, d.marked))
  }

  /** Every input row is accounted for exactly once in the summary:
      `totalRows == rows.length + droppedRows + removedDuplicates + outliersRemoved`. */
  lemma CleanConservation(host: Host, rows: Table, rules: CleaningRules)
    ensures var res := CleanSpec(host, rows, rules);
      var s := res.summary;
      && s.totalRows == |rows|
      && s.totalRows == |res.rows| + s.droppedRows + s.removedDuplicates + s.outliersRemoved
  {
    var schema := InferSchemaSpec(host, rows, DefaultMaxRows);
    var standardized := StandardizeSpec(host, rules.standardize, schema, rows);
    var numStats := NumStatsSpec(host, schema, standardized);
    var strModes := ModesSpec(host, schema, standardized);
    var b := MissingSpec(rules.missing, numStats, strModes, schema, standardized);
    var c := DedupeStage(rules.dedupe, schema, b.rows);
    MissingConservation(rules.missing, numStats, strModes, schema, standardized);
    OutlierConservation(host, rules.outliers, NumericColumns(schema), c.rows);
  }

  /** Only removal counts removed outliers and only marking counts marked ones;
      with `handle: 'none'` and deduplication off, the rows past Stage B are the
      result. */
  lemma CleanCounters(host: Host, rows: Table, rules: CleaningRules)
    ensures var s := CleanSpec(host, rows, rules).summary;
      && (rules.outliers.handle != HandleRemove ==> s.outliersRemoved == 0)
      && (rules.outliers.handle != HandleMark ==> s.outliersMarked == 0)
      && (!rules.dedupe.enabled ==> s.removedDuplicates == 0)
    ensures !rules.dedupe.enabled && rules.outliers.handle == HandleNone ==>
      var schema := InferSchemaSpec(host, rows, DefaultMaxRows);
      var standardized := StandardizeSpec(host, rules.standardize, schema, rows);
      CleanSpec(host, rows, rules).rows
      == MissingSpec(rules.missing, NumStatsSpec(host, schema, standardized), ModesSpec(host, schema, standardized),
                     schema, standardized).rows
  {
    var schema := InferSchemaSpec(host, rows, DefaultMaxRows);
    var standardized := StandardizeSpec(host, rules.standardize, schema, rows);
    var b := MissingSpec(rules.missing, NumStatsSpec(host, schema, standardized), ModesSpec(host, schema, standardized),
                         schema, standardized);
    var c := DedupeStage(rules.dedupe, schema, b.rows);
    OutlierConservation(host, rules.outliers, NumericColumns(schema), c.rows);
  }

  /** `filledMissing` counts fills of inferred `number`, `string` and `boolean`
      columns only. */
  lemma CleanFilledColumns(host: Host, rows: Table, rules: CleaningRules, k: string)
    requires k in CleanSpec(host, rows, rules).summary.filledMissing
    ensures var schema := InferSchemaSpec(host, rows, DefaultMaxRows);
      exists j :: 0 <= j < |schema| && schema[j].key == k && schema[j].ctype in {Number, String, Boolean}
  {
    var schema := InferSchemaSpec(host, rows, DefaultMaxRows);
    var standardized := StandardizeSpec(host, rules.standardize, schema, rows);
    var numStats := NumStatsSpec(host, schema, standardized);
    var strModes := ModesSpec(host, schema, standardized);
    InferredColumns(host, rows, DefaultMaxRows);
    FilledKeysAreFillable(rules.missing, numStats, strModes, schema, standardized, k);
  }

  /** `cleanData`. */
  method CleanData(host: Host, rows: Table, rules: CleaningRules) returns (res: CleanResult)
    ensures res == CleanSpec(host, rows, rules)
  {
    var schema := InferSchema(host, rows, DefaultMaxRows);
    var numericCols := NumericColumns(schema);
    var standardized := StandardizeTable(host, rules.standardize, schema, rows);
    var numStats, strModes := ComputeStats(host, schema, standardized);
    var afterMissing, filledCounts, droppedRows := FillMissing(rules.missing, numStats, strModes, schema, standardized);

    var deduped := afterMissing;
    var removedDuplicates := 0;
    if rules.dedupe.enabled {
      var keys := DedupeKeyList(rules.dedupe.keys, schema);
      var filtered := Dedupe.Dedupe(afterMissing, keys);
      DedupeSubsequence(afterMissing, keys);
      SubsequenceLength(filtered, afterMissing);
      removedDuplicates := |afterMissing| - |filtered|;
      deduped := filtered;
    }

    var finalRows, outliersRemoved, outliersMarked := HandleOutliers(host, rules.outliers, numericCols, deduped);
    res := CleanResult(finalRows, CleaningSummary(|rows|, removedDuplicates, droppedRows, filledCounts,
                                                  outliersRemoved, outliersMarked));
  }
}
