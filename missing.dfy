/** Stage B of `cleanData` (lib/cleaning.ts): column statistics of the
    standardized table, then a scan of every row that fills or drops on each
    missing cell of a `number`, `string` or `boolean` column. */
module Missing {
  import opened Options
  import opened Seqs
  import opened Text
  import opened Types
  import opened Runtime
  import Stats

  /** The non-missing cells of column `key`, in row order. */
  function PresentCells(rows: Table, key: string): (cs: seq<Cell>)
    ensures |cs| <= |rows|
    ensures forall c :: c in cs ==> c != Null && c != Str("")
    decreases |rows|
  {
    if |rows| == 0 then []
    else
      var p := PresentCells(rows[..|rows| - 1], key);
      var v := Get(rows[|rows| - 1], key);
      if IsMissing(v) then p else p + [v.value]
  }

  /** `Number(v)` of each cell, with NaN dropped. */
  function NumericValues(host: Host, cs: seq<Cell>): (xs: seq<real>)
    ensures |xs| <= |cs|
    decreases |cs|
  {
    if |cs| == 0 then []
    else
      var p := NumericValues(host, cs[..|cs| - 1]);
      var x := JsNumber(host, cs[|cs| - 1]);
      if x.Some? then p + [x.value] else p
  }

  /** The finite native numbers of a column all reach the statistics. */
  lemma {:induction false} NumericValuesOfNumbers(host: Host, cs: seq<Cell>)
    requires forall i :: 0 <= i < |cs| ==> cs[i].Num?
    ensures NumericValues(host, cs) == seq(|cs|, i requires 0 <= i < |cs| => cs[i].x)
    decreases |cs|
  {
    if |cs| > 0 {
      NumericValuesOfNumbers(host, cs[..|cs| - 1]);
    }
  }

  /** `String(v)` of each cell. */
  function TextValues(host: Host, cs: seq<Cell>): (ts: seq<string>)
    ensures |ts| == |cs|
    ensures forall i :: 0 <= i < |cs| ==> ts[i] == JsString(host, cs[i])
  {
    seq(|cs|, i requires 0 <= i < |cs| => JsString(host, cs[i]))
  }

  /** The `{ mean, median }` record of a numeric column; `None` is NaN. */
  datatype NumStat = NumStat(mean: Option<real>, median: Option<real>)

  function NumStatOf(host: Host, rows: Table, key: string): NumStat
  {
    var xs := NumericValues(host, PresentCells(rows, key));
    NumStat(Stats.Mean(xs), Stats.Median(xs))
  }

  function ModeOfColumn(host: Host, rows: Table, key: string): Option<string>
  {
    Stats.ModeOf(TextValues(host, PresentCells(rows, key)))
  }

  /** `numStats` after the statistics loop has visited the keys `ks`. */
  function NumStatsOver(host: Host, schema: Schema, rows: Table, ks: seq<string>): map<string, NumStat>
    decreases |ks|
  {
    if |ks| == 0 then map[]
    else
      var m := NumStatsOver(host, schema, rows, ks[..|ks| - 1]);
      var k := ks[|ks| - 1];
      if TypeOf(schema, k) == Some(Number) then m[k := NumStatOf(host, rows, k)] else m
  }

  /** `strModes` after the statistics loop has visited the keys `ks`. */
  function ModesOver(host: Host, schema: Schema, rows: Table, ks: seq<string>): map<string, Option<string>>
    decreases |ks|
  {
    if |ks| == 0 then map[]
    else
      var m := ModesOver(host, schema, rows, ks[..|ks| - 1]);
      var k := ks[|ks| - 1];
      if TypeOf(schema, k) in {Some(String), Some(Boolean)} then m[k := ModeOfColumn(host, rows, k)] else m
  }

  function NumStatsSpec(host: Host, schema: Schema, rows: Table): map<string, NumStat>
  {
    NumStatsOver(host, schema, rows, Keys(schema))
  }

  function ModesSpec(host: Host, schema: Schema, rows: Table): map<string, Option<string>>
  {
    ModesOver(host, schema, rows, Keys(schema))
  }

  /** `numStats` holds a record for exactly the `number` columns, and it is the
      mean and median of that column. */
  lemma {:induction false} NumStatsLookup(host: Host, schema: Schema, rows: Table, ks: seq<string>, k: string)
    ensures k in NumStatsOver(host, schema, rows, ks) <==> k in ks && TypeOf(schema, k) == Some(Number)
    ensures k in NumStatsOver(host, schema, rows, ks) ==> NumStatsOver(host, schema, rows, ks)[k] == NumStatOf(host, rows, k)
    decreases |ks|
  {
    if |ks| > 0 {
      NumStatsLookup(host, schema, rows, ks[..|ks| - 1], k);
      assert ks == ks[..|ks| - 1] + [ks[|ks| - 1]];
    }
  }

  /** `strModes` holds an entry for exactly the `string` and `boolean` columns, and
      it is the mode of that column. */
  lemma {:induction false} ModesLookup(host: Host, schema: Schema, rows: Table, ks: seq<string>, k: string)
    ensures k in ModesOver(host, schema, rows, ks) <==> k in ks && TypeOf(schema, k) in {Some(String), Some(Boolean)}
    ensures k in ModesOver(host, schema, rows, ks) ==> ModesOver(host, schema, rows, ks)[k] == ModeOfColumn(host, rows, k)
    decreases |ks|
  {
    if |ks| > 0 {
      ModesLookup(host, schema, rows, ks[..|ks| - 1], k);
      assert ks == ks[..|ks| - 1] + [ks[|ks| - 1]];
    }
  }

  /** The statistics loop over the schema keys. */
  method ComputeStats(host: Host, schema: Schema, rows: Table)
    returns (numStats: map<string, NumStat>, strModes: map<string, Option<string>>)
    ensures numStats == NumStatsSpec(host, schema, rows)
    ensures strModes == ModesSpec(host, schema, rows)
  {
    var cols := Keys(schema);
    numStats, strModes := map[], map[];
    var i := 0;
    while i < |cols|
      invariant i <= |cols|
      invariant numStats == NumStatsOver(host, schema, rows, cols[..i])
      invariant strModes == ModesOver(host, schema, rows, cols[..i])
    {
      var key := cols[i];
      assert cols[..i + 1][..i] == cols[..i];
      var colValues := PresentCells(rows, key);
      var inferredType := TypeOf(schema, key);
      if inferredType == Some(Number) {
        var nums := NumericValues(host, colValues);
        numStats := numStats[key := NumStat(Stats.Mean(nums), Stats.Median(nums))];
      } else if inferredType == Some(String) || inferredType == Some(Boolean) {
        var vals := TextValues(host, colValues);
        var m := Stats.Mode(vals);
        strModes := strModes[key := m];
      }
      i := i + 1;
    }
    assert cols[..i] == cols;
  }

  /** What Stage B does with a missing cell of column `col`. */
  datatype Action = Keep | Drop | Fill(v: Cell)

  /** A mean or median as the cell it is written as: NaN stays NaN, because `?? 0`
      only replaces `undefined`. */
  function NumberCell(x: Option<real>): Cell
  {
    if x.Some? then Num(x.value) else NaN
  }

  function MissingAction(rules: MissingValueStrategy, numStats: map<string, NumStat>,
                         strModes: map<string, Option<string>>, col: ColumnEntry): (a: Action)
    ensures col.ctype in {Date, Unknown} ==> a == Keep
    ensures a == Drop <==>
      || (col.ctype == Number && rules.numeric == NumDrop)
      || (col.ctype == String && rules.text == StrDrop)
      || (col.ctype == Boolean && rules.boolean == BoolDrop)
  {
    var key := col.key;
    match col.ctype
    case Number =>
      (match rules.numeric
       case NumDrop => Drop
       case NumMean => Fill(if key in numStats then NumberCell(numStats[key].mean) else Num(0.0))
       case NumMedian => Fill(if key in numStats then NumberCell(numStats[key].median) else Num(0.0))
       case NumZero => Fill(Num(0.0)))
    case String =>
      (match rules.text
       case StrDrop => Drop
       case StrMode => Fill(Str(if key in strModes && strModes[key].Some? then strModes[key].value else ""))
       case StrEmpty => Fill(Str("")))
    case Boolean =>
      (match rules.boolean
       case BoolDrop => Drop
       case BoolMode => Fill(Bool(key in strModes && strModes[key].Some? && ToLower(strModes[key].value) == "true")))
    case Date => Keep
    case Unknown => Keep
  }

  /** With the statistics of the standardized table, each fill is the statistic of
      its own column: the numeric mean or median of the non-NaN values (NaN when
      there are none), the column's mode or `''`, or whether the mode reads `true`. */
  lemma FillValues(host: Host, rules: MissingValueStrategy, schema: Schema, rows: Table, i: nat)
    requires i < |schema| && NoDuplicates(Keys(schema))
    ensures var col := schema[i];
      var a := MissingAction(rules, NumStatsSpec(host, schema, rows), ModesSpec(host, schema, rows), col);
      var xs := NumericValues(host, PresentCells(rows, col.key));
      var m := ModeOfColumn(host, rows, col.key);
      && (col.ctype == Number && rules.numeric == NumZero ==> a == Fill(Num(0.0)))
      && (col.ctype == Number && rules.numeric == NumMean ==> a == Fill(NumberCell(Stats.Mean(xs))))
      && (col.ctype == Number && rules.numeric == NumMedian ==> a == Fill(NumberCell(Stats.Median(xs))))
      && (col.ctype == Number && rules.numeric != NumDrop && |xs| == 0 ==> a == Fill(if rules.numeric == NumZero then Num(0.0) else NaN))
      && (col.ctype == String && rules.text == StrMode ==> a == Fill(Str(if m.Some? then m.value else "")))
      && (col.ctype == String && rules.text == StrEmpty ==> a == Fill(Str("")))
      && (col.ctype == Boolean && rules.boolean == BoolMode ==> a == Fill(Bool(m.Some? && ToLower(m.value) == "true")))
  {
    var col := schema[i];
    assert col.key in Keys(schema);
    TypeOfColumn(schema, i);
    NumericFill(host, rules, schema, rows, col);
    ModeFill(host, rules, schema, rows, col);
  }

  lemma NumericFill(host: Host, rules: MissingValueStrategy, schema: Schema, rows: Table, col: ColumnEntry)
    requires col.ctype == Number ==> col.key in Keys(schema) && TypeOf(schema, col.key) == Some(Number)
    ensures var a := MissingAction(rules, NumStatsSpec(host, schema, rows), ModesSpec(host, schema, rows), col);
      var xs := NumericValues(host, PresentCells(rows, col.key));
      && (col.ctype == Number && rules.numeric == NumMean ==> a == Fill(NumberCell(Stats.Mean(xs))))
      && (col.ctype == Number && rules.numeric == NumMedian ==> a == Fill(NumberCell(Stats.Median(xs))))
  {
    NumStatsLookup(host, schema, rows, Keys(schema), col.key);
  }

  lemma ModeFill(host: Host, rules: MissingValueStrategy, schema: Schema, rows: Table, col: ColumnEntry)
    requires col.ctype in {String, Boolean} ==> col.key in Keys(schema) && TypeOf(schema, col.key) == Some(col.ctype)
    ensures var a := MissingAction(rules, NumStatsSpec(host, schema, rows), ModesSpec(host, schema, rows), col);
      var m := ModeOfColumn(host, rows, col.key);
      && (col.ctype == String && rules.text == StrMode ==> a == Fill(Str(if m.Some? then m.value else "")))
      && (col.ctype == Boolean && rules.boolean == BoolMode ==> a == Fill(Bool(m.Some? && ToLower(m.value) == "true")))
  {
    ModesLookup(host, schema, rows, Keys(schema), col.key);
  }

  /** The outcome of the column loop for one row: the row after its fills, the
      keys filled in order, and whether the row is dropped. */
  datatype RowOutcome = RowOutcome(row: Row, filled: seq<string>, dropped: bool)

  /** What the column loop does at column `c` of `row`: a cell that is present is
      kept, a missing one gets the column's action. */
  function Step(rules: MissingValueStrategy, numStats: map<string, NumStat>,
                strModes: map<string, Option<string>>, row: Row, c: ColumnEntry): Action
  {
    if IsMissing(Get(row, c.key)) then MissingAction(rules, numStats, strModes, c) else Keep
  }

  /** The column loop from `cols` on, with `row` the row so far and `filled` the
      keys filled so far; a `drop` ends the loop. */
  function ResolveCols(rules: MissingValueStrategy, numStats: map<string, NumStat>,
                       strModes: map<string, Option<string>>,
                       row: Row, cols: Schema, filled: seq<string>): RowOutcome
    decreases |cols|
  {
    if |cols| == 0 then RowOutcome(row, filled, false)
    else
      var a := Step(rules, numStats, strModes, row, cols[0]);
      if a.Drop? then RowOutcome(row, filled, true)
      else if a.Fill? then ResolveCols(rules, numStats, strModes, Set(row, cols[0].key, a.v), cols[1..], filled + [cols[0].key])
      else ResolveCols(rules, numStats, strModes, row, cols[1..], filled)
  }

  /** The position of the first column at which `r` is dropped, or `|cols|`. */
  function FirstDrop(rules: MissingValueStrategy, numStats: map<string, NumStat>,
                     strModes: map<string, Option<string>>, r: Row, cols: Schema): (j: nat)
    ensures j <= |cols|
    ensures forall i :: 0 <= i < j ==> !Step(rules, numStats, strModes, r, cols[i]).Drop?
    ensures j < |cols| ==> Step(rules, numStats, strModes, r, cols[j]).Drop?
    decreases |cols|
  {
    if |cols| == 0 then 0
    else if Step(rules, numStats, strModes, r, cols[0]).Drop? then 0
    else 1 + FirstDrop(rules, numStats, strModes, r, cols[1..])
  }

  /** The keys of the cells of `r` in `cols` that get a fill, in order. */
  function FillKeys(rules: MissingValueStrategy, numStats: map<string, NumStat>,
                    strModes: map<string, Option<string>>, r: Row, cols: Schema): seq<string>
    decreases |cols|
  {
    if |cols| == 0 then []
    else
      var rest := FillKeys(rules, numStats, strModes, r, cols[1..]);
      if Step(rules, numStats, strModes, r, cols[0]).Fill? then [cols[0].key] + rest else rest
  }

  /** A filled key comes from a column whose missing cell gets a fill. */
  lemma {:induction false} FillKeyWitness(rules: MissingValueStrategy, numStats: map<string, NumStat>,
                                          strModes: map<string, Option<string>>, r: Row, cols: Schema, k: string)
    returns (j: nat)
    requires k in FillKeys(rules, numStats, strModes, r, cols)
    ensures j < |cols| && cols[j].key == k && Step(rules, numStats, strModes, r, cols[j]).Fill?
    decreases |cols|
  {
    if Step(rules, numStats, strModes, r, cols[0]).Fill? && cols[0].key == k {
      j := 0;
    } else {
      var i := FillKeyWitness(rules, numStats, strModes, r, cols[1..], k);
      assert cols[1..][i] == cols[i + 1];
      j := i + 1;
    }
  }

  /** Every column whose missing cell gets a fill contributes its key. */
  lemma {:induction false} FillKeyOfColumn(rules: MissingValueStrategy, numStats: map<string, NumStat>,
                                           strModes: map<string, Option<string>>, r: Row, cols: Schema, j: nat)
    requires j < |cols| && Step(rules, numStats, strModes, r, cols[j]).Fill?
    ensures cols[j].key in FillKeys(rules, numStats, strModes, r, cols)
    decreases |cols|
  {
    if j > 0 {
      assert cols[1..][j - 1] == cols[j];
      FillKeyOfColumn(rules, numStats, strModes, r, cols[1..], j - 1);
    }
  }

  /** The cells the column loop reads from `cols` on are those of the original row
      `r`: each column is read once, so earlier fills do not change later decisions. */
  predicate AgreesOn(row: Row, r: Row, cols: Schema)
  {
    forall j :: 0 <= j < |cols| ==> Get(row, cols[j].key) == Get(r, cols[j].key)
  }

  /** One step of the loop keeps the agreement on the columns still to come. */
  lemma AgreesAfterStep(rules: MissingValueStrategy, numStats: map<string, NumStat>,
                        strModes: map<string, Option<string>>, r: Row, row: Row, cols: Schema)
    requires |cols| > 0 && NoDuplicates(Keys(cols)) && AgreesOn(row, r, cols)
    ensures var a := Step(rules, numStats, strModes, row, cols[0]);
      && a == Step(rules, numStats, strModes, r, cols[0])
      && NoDuplicates(Keys(cols[1..]))
      && AgreesOn(if a.Fill? then Set(row, cols[0].key, a.v) else row, r, cols[1..])
  {
    var c := cols[0];
    var a := Step(rules, numStats, strModes, row, c);
    var tail := cols[1..];
    assert Keys(tail) == Keys(cols)[1..];
    var row' := if a.Fill? then Set(row, c.key, a.v) else row;
    forall j | 0 <= j < |tail| ensures Get(row', tail[j].key) == Get(r, tail[j].key) {
      assert Keys(cols)[j + 1] != Keys(cols)[0];
      assert tail[j] == cols[j + 1];
    }
  }

  /** The column loop drops the row exactly when some column reached has a missing
      cell with the `drop` strategy. */
  lemma {:induction false} ResolveColsDrops(rules: MissingValueStrategy, numStats: map<string, NumStat>,
                                            strModes: map<string, Option<string>>,
                                            r: Row, row: Row, cols: Schema, filled: seq<string>)
    requires NoDuplicates(Keys(cols)) && AgreesOn(row, r, cols)
    ensures ResolveCols(rules, numStats, strModes, row, cols, filled).dropped
            <==> FirstDrop(rules, numStats, strModes, r, cols) < |cols|
    decreases |cols|
  {
    if |cols| > 0 {
      AgreesAfterStep(rules, numStats, strModes, r, row, cols);
      var a := Step(rules, numStats, strModes, row, cols[0]);
      if !a.Drop? {
        var row' := if a.Fill? then Set(row, cols[0].key, a.v) else row;
        var filled' := if a.Fill? then filled + [cols[0].key] else filled;
        ResolveColsDrops(rules, numStats, strModes, r, row', cols[1..], filled');
      }
    }
  }

  /** By the time it stops, the column loop has filled exactly the fillable
      missing cells of the columns before the first drop, in order. */
  lemma {:induction false} ResolveColsFills(rules: MissingValueStrategy, numStats: map<string, NumStat>,
                                            strModes: map<string, Option<string>>,
                                            r: Row, row: Row, cols: Schema, filled: seq<string>)
    requires NoDuplicates(Keys(cols)) && AgreesOn(row, r, cols)
    ensures ResolveCols(rules, numStats, strModes, row, cols, filled).filled
         == filled + FillKeys(rules, numStats, strModes, r, cols[..FirstDrop(rules, numStats, strModes, r, cols)])
    decreases |cols|
  {
    if |cols| > 0 {
      AgreesAfterStep(rules, numStats, strModes, r, row, cols);
      var a := Step(rules, numStats, strModes, row, cols[0]);
      if a.Drop? {
        assert cols[..0] == [];
        assert filled + [] == filled;
      } else {
        var tail := cols[1..];
        var d := FirstDrop(rules, numStats, strModes, r, cols);
        FillKeysCons(rules, numStats, strModes, r, cols);
        var head := if a.Fill? then [cols[0].key] else [];
        var row' := if a.Fill? then Set(row, cols[0].key, a.v) else row;
        ResolveColsStep(rules, numStats, strModes, row, cols, filled);
        ResolveColsFills(rules, numStats, strModes, r, row', tail, filled + head);
        var rest := FillKeys(rules, numStats, strModes, r, tail[..FirstDrop(rules, numStats, strModes, r, tail)]);
        ConcatAssoc(filled, head, rest);
      }
    }
  }

  /** A column that does not drop the row moves the loop on to the next column. */
  lemma ResolveColsStep(rules: MissingValueStrategy, numStats: map<string, NumStat>,
                        strModes: map<string, Option<string>>, row: Row, cols: Schema, filled: seq<string>)
    requires |cols| > 0 && !Step(rules, numStats, strModes, row, cols[0]).Drop?
    ensures var a := Step(rules, numStats, strModes, row, cols[0]);
      ResolveCols(rules, numStats, strModes, row, cols, filled)
      == ResolveCols(rules, numStats, strModes, if a.Fill? then Set(row, cols[0].key, a.v) else row, cols[1..],
                     filled + if a.Fill? then [cols[0].key] else [])
  {
    assert filled + [] == filled;
  }

  lemma FillKeysCons(rules: MissingValueStrategy, numStats: map<string, NumStat>,
                     strModes: map<string, Option<string>>, r: Row, cols: Schema)
    requires |cols| > 0 && !Step(rules, numStats, strModes, r, cols[0]).Drop?
    ensures var d := FirstDrop(rules, numStats, strModes, r, cols);
      && d == 1 + FirstDrop(rules, numStats, strModes, r, cols[1..])
      && FillKeys(rules, numStats, strModes, r, cols[..d])
         == (if Step(rules, numStats, strModes, r, cols[0]).Fill? then [cols[0].key] else [])
            + FillKeys(rules, numStats, strModes, r, cols[1..][..d - 1])
  {
    var d := FirstDrop(rules, numStats, strModes, r, cols);
    assert cols[..d][1..] == cols[1..][..d - 1];
    assert cols[..d][0] == cols[0];
  }

  /** A row is dropped exactly when one of its missing cells lies in a column whose
      strategy is `drop`; a key is counted as filled exactly when its cell gets a
      fill in a column before the first one that drops the row. */
  lemma ResolveRowDropsAndFills(rules: MissingValueStrategy, numStats: map<string, NumStat>,
                                strModes: map<string, Option<string>>, schema: Schema, r: Row, k: string)
    requires NoDuplicates(Keys(schema))
    ensures var o := ResolveRow(rules, numStats, strModes, schema, r);
      var d := FirstDrop(rules, numStats, strModes, r, schema);
      && (o.dropped <==> exists j :: 0 <= j < |schema| && Step(rules, numStats, strModes, r, schema[j]).Drop?)
      && (k in o.filled <==>
            exists j :: 0 <= j < d && schema[j].key == k && Step(rules, numStats, strModes, r, schema[j]).Fill?)
  {
    ResolveRowDrops(rules, numStats, strModes, schema, r);
    ResolveRowFills(rules, numStats, strModes, schema, r, k);
  }

  lemma ResolveRowDrops(rules: MissingValueStrategy, numStats: map<string, NumStat>,
                        strModes: map<string, Option<string>>, schema: Schema, r: Row)
    requires NoDuplicates(Keys(schema))
    ensures ResolveRow(rules, numStats, strModes, schema, r).dropped
            <==> exists j :: 0 <= j < |schema| && Step(rules, numStats, strModes, r, schema[j]).Drop?
  {
    ResolveColsDrops(rules, numStats, strModes, r, r, schema, []);
    var d := FirstDrop(rules, numStats, strModes, r, schema);
    if d < |schema| {
      assert Step(rules, numStats, strModes, r, schema[d]).Drop?;
    }
  }

  lemma ResolveRowFills(rules: MissingValueStrategy, numStats: map<string, NumStat>,
                        strModes: map<string, Option<string>>, schema: Schema, r: Row, k: string)
    requires NoDuplicates(Keys(schema))
    ensures var d := FirstDrop(rules, numStats, strModes, r, schema);
      k in ResolveRow(rules, numStats, strModes, schema, r).filled <==>
        exists j :: 0 <= j < d && schema[j].key == k && Step(rules, numStats, strModes, r, schema[j]).Fill?
  {
    ResolveColsFills(rules, numStats, strModes, r, r, schema, []);
    var d := FirstDrop(rules, numStats, strModes, r, schema);
    var pre := schema[..d];
    var fk := FillKeys(rules, numStats, strModes, r, pre);
    assert [] + fk == fk;
    assert ResolveRow(rules, numStats, strModes, schema, r).filled == fk;
    if exists j :: 0 <= j < d && schema[j].key == k && Step(rules, numStats, strModes, r, schema[j]).Fill? {
      var j :| 0 <= j < d && schema[j].key == k && Step(rules, numStats, strModes, r, schema[j]).Fill?;
      assert pre[j] == schema[j];
      FillKeyOfColumn(rules, numStats, strModes, r, pre, j);
    }
    if k in fk {
      var j := FillKeyWitness(rules, numStats, strModes, r, pre, k);
      assert pre[j] == schema[j];
    }
  }

  /** A surviving row carries its fills and otherwise the cells it came with. */
  lemma {:induction false} ResolveColsCells(rules: MissingValueStrategy, numStats: map<string, NumStat>,
                                            strModes: map<string, Option<string>>,
                                            row: Row, cols: Schema, filled: seq<string>, k: string)
    requires NoDuplicates(Keys(cols))
    ensures var o := ResolveCols(rules, numStats, strModes, row, cols, filled);
      var t := TypeOf(cols, k);
      var a := if t.Some? then MissingAction(rules, numStats, strModes, ColumnEntry(k, t.value)) else Keep;
      !o.dropped ==> Get(o.row, k) == if t.Some? && IsMissing(Get(row, k)) && a.Fill? then Some(a.v) else Get(row, k)
    decreases |cols|
  {
    if |cols| > 0 {
      var c := cols[0];
      var tail := cols[1..];
      assert Keys(tail) == Keys(cols)[1..];
      assert NoDuplicates(Keys(tail));
      var a := Step(rules, numStats, strModes, row, c);
      var row' := if a.Fill? then Set(row, c.key, a.v) else row;
      var filled' := if a.Fill? then filled + [c.key] else filled;
      if !a.Drop? {
        ResolveColsCells(rules, numStats, strModes, row', tail, filled', k);
        if k == c.key {
          assert k !in Keys(tail);
          assert TypeOf(cols, k) == Some(c.ctype);
          assert c == ColumnEntry(k, c.ctype);
        }
      }
    }
  }

  /** Missing cells of `date` and `unknown` columns are never filled and never
      cause a drop. */
  lemma {:induction false} DateAndUnknownUntouched(rules: MissingValueStrategy, numStats: map<string, NumStat>,
                                                   strModes: map<string, Option<string>>,
                                                   row: Row, cols: Schema, filled: seq<string>)
    requires forall j :: 0 <= j < |cols| ==> cols[j].ctype in {Date, Unknown}
    ensures ResolveCols(rules, numStats, strModes, row, cols, filled) == RowOutcome(row, filled, false)
    decreases |cols|
  {
    if |cols| > 0 {
      DateAndUnknownUntouched(rules, numStats, strModes, row, cols[1..], filled);
    }
  }

  function ResolveRow(rules: MissingValueStrategy, numStats: map<string, NumStat>,
                      strModes: map<string, Option<string>>, schema: Schema, r: Row): RowOutcome
  {
    ResolveCols(rules, numStats, strModes, r, schema, [])
  }

  /** The result of Stage B: the surviving rows, every key filled (with
      repetitions, including fills of rows dropped later), and the dropped count. */
  datatype StageB = StageB(rows: Table, filled: seq<string>, dropped: nat)

  function MissingSpec(rules: MissingValueStrategy, numStats: map<string, NumStat>,
                       strModes: map<string, Option<string>>, schema: Schema, rows: Table): StageB
    decreases |rows|
  {
    if |rows| == 0 then StageB([], [], 0)
    else
      var p := MissingSpec(rules, numStats, strModes, schema, rows[..|rows| - 1]);
      var o := ResolveRow(rules, numStats, strModes, schema, rows[|rows| - 1]);
      if o.dropped then StageB(p.rows, p.filled + o.filled, p.dropped + 1)
      else StageB(p.rows + [o.row], p.filled + o.filled, p.dropped)
  }

  /** The row each input row becomes after its column loop, whether kept or not. */
  function ResolvedRows(rules: MissingValueStrategy, numStats: map<string, NumStat>,
                        strModes: map<string, Option<string>>, schema: Schema, rows: Table): (out: Table)
    ensures |out| == |rows|
    ensures forall i :: 0 <= i < |rows| ==> out[i] == ResolveRow(rules, numStats, strModes, schema, rows[i]).row
  {
    seq(|rows|, i requires 0 <= i < |rows| => ResolveRow(rules, numStats, strModes, schema, rows[i]).row)
  }

  lemma ResolvedRowsSnoc(rules: MissingValueStrategy, numStats: map<string, NumStat>,
                         strModes: map<string, Option<string>>, schema: Schema, rows: Table)
    requires |rows| > 0
    ensures ResolvedRows(rules, numStats, strModes, schema, rows)
         == ResolvedRows(rules, numStats, strModes, schema, rows[..|rows| - 1])
            + [ResolveRow(rules, numStats, strModes, schema, rows[|rows| - 1]).row]
  {
  }

  /** Only cells of `number`, `string` and `boolean` columns are ever filled, so
      every key of `filledMissing` names such a column. */
  lemma {:induction false} FilledKeysAreFillable(rules: MissingValueStrategy, numStats: map<string, NumStat>,
                                                 strModes: map<string, Option<string>>, schema: Schema,
                                                 rows: Table, k: string)
    requires NoDuplicates(Keys(schema))
    requires k in MissingSpec(rules, numStats, strModes, schema, rows).filled
    ensures exists j :: 0 <= j < |schema| && schema[j].key == k && schema[j].ctype in {Number, String, Boolean}
    decreases |rows|
  {
    var p := rows[..|rows| - 1];
    var r := rows[|rows| - 1];
    if k in MissingSpec(rules, numStats, strModes, schema, p).filled {
      FilledKeysAreFillable(rules, numStats, strModes, schema, p, k);
    } else {
      RowFillsFillable(rules, numStats, strModes, schema, r, k);
    }
  }

  /** A key filled in one row names a number, string or boolean column. */
  lemma RowFillsFillable(rules: MissingValueStrategy, numStats: map<string, NumStat>,
                         strModes: map<string, Option<string>>, schema: Schema, r: Row, k: string)
    requires NoDuplicates(Keys(schema))
    requires k in ResolveRow(rules, numStats, strModes, schema, r).filled
    ensures exists j :: 0 <= j < |schema| && schema[j].key == k && schema[j].ctype in {Number, String, Boolean}
  {
    ResolveRowFills(rules, numStats, strModes, schema, r, k);
    var j :| 0 <= j < FirstDrop(rules, numStats, strModes, r, schema) && schema[j].key == k
             && Step(rules, numStats, strModes, r, schema[j]).Fill?;
    assert schema[j].ctype in {Number, String, Boolean};
  }

  /** Every row is either dropped or kept: `totalRows == droppedRows + afterMissing.length`. */
  lemma {:induction false} MissingConservation(rules: MissingValueStrategy, numStats: map<string, NumStat>,
                                               strModes: map<string, Option<string>>, schema: Schema, rows: Table)
    ensures var b := MissingSpec(rules, numStats, strModes, schema, rows);
      |rows| == b.dropped + |b.rows|
    decreases |rows|
  {
    if |rows| > 0 {
      MissingConservation(rules, numStats, strModes, schema, rows[..|rows| - 1]);
    }
  }

  /** The kept rows are resolved rows, in their original order. */
  lemma {:induction false} MissingKeepsOrder(rules: MissingValueStrategy, numStats: map<string, NumStat>,
                                             strModes: map<string, Option<string>>, schema: Schema, rows: Table)
    ensures IsSubsequence(MissingSpec(rules, numStats, strModes, schema, rows).rows,
                          ResolvedRows(rules, numStats, strModes, schema, rows))
    decreases |rows|
  {
    if |rows| > 0 {
      var p := rows[..|rows| - 1];
      MissingKeepsOrder(rules, numStats, strModes, schema, p);
      ResolvedRowsSnoc(rules, numStats, strModes, schema, rows);
      var bp := MissingSpec(rules, numStats, strModes, schema, p);
      var o := ResolveRow(rules, numStats, strModes, schema, rows[|rows| - 1]);
      if o.dropped {
        SubsequenceSkip(bp.rows, ResolvedRows(rules, numStats, strModes, schema, p), o.row);
      } else {
        SubsequenceKeep(bp.rows, ResolvedRows(rules, numStats, strModes, schema, p), o.row);
      }
    }
  }

  /** A kept row is the outcome of an input row that was not dropped. */
  lemma {:induction false} MissingKeptRows(rules: MissingValueStrategy, numStats: map<string, NumStat>,
                                           strModes: map<string, Option<string>>, schema: Schema, rows: Table, r: Row)
    requires r in MissingSpec(rules, numStats, strModes, schema, rows).rows
    ensures exists i :: 0 <= i < |rows| && !ResolveRow(rules, numStats, strModes, schema, rows[i]).dropped
                        && r == ResolveRow(rules, numStats, strModes, schema, rows[i]).row
    decreases |rows|
  {
    var p := rows[..|rows| - 1];
    var bp := MissingSpec(rules, numStats, strModes, schema, p);
    if r in bp.rows {
      MissingKeptRows(rules, numStats, strModes, schema, p, r);
      var i :| 0 <= i < |p| && !ResolveRow(rules, numStats, strModes, schema, p[i]).dropped
               && r == ResolveRow(rules, numStats, strModes, schema, p[i]).row;
      assert p[i] == rows[i];
    } else {
      assert r == ResolveRow(rules, numStats, strModes, schema, rows[|rows| - 1]).row;
    }
  }

  /** `filledCounts[key] = (filledCounts[key] || 0) + 1`. */
  method CountFill(counts: map<string, nat>, ghost ks: seq<string>, key: string) returns (filledCounts: map<string, nat>)
    requires counts == Tallies(ks)
    ensures filledCounts == Tallies(ks + [key])
  {
    TalliesStep(ks, key);
    filledCounts := counts[key := (if key in counts then counts[key] else 0) + 1];
  }

  /** The column loop of Stage B for one row, with its `dropRow` flag and `break`,
      adding the row's fills to `counts`. */
  method ScanRow(rules: MissingValueStrategy, numStats: map<string, NumStat>,
                 strModes: map<string, Option<string>>, schema: Schema, r: Row,
                 ghost filled: seq<string>, counts: map<string, nat>)
    returns (row: Row, dropRow: bool, filledCounts: map<string, nat>, ghost rowFilled: seq<string>)
    requires counts == Tallies(filled)
    ensures row == ResolveRow(rules, numStats, strModes, schema, r).row
    ensures dropRow == ResolveRow(rules, numStats, strModes, schema, r).dropped
    ensures filledCounts == Tallies(filled + ResolveRow(rules, numStats, strModes, schema, r).filled)
    ensures rowFilled == ResolveRow(rules, numStats, strModes, schema, r).filled
  {
    ghost var o := ResolveRow(rules, numStats, strModes, schema, r);
    row, dropRow, filledCounts, rowFilled := r, false, counts, [];
    var j := 0;
    while j < |schema|
      invariant j <= |schema|
      invariant ResolveCols(rules, numStats, strModes, row, schema[j..], rowFilled) == o
      invariant filledCounts == Tallies(filled + rowFilled)
      invariant !dropRow
    {
      ScanStep(rules, numStats, strModes, row, schema, j, rowFilled);
      var key := schema[j].key;
      if IsMissing(Get(row, key)) {
        var action := MissingAction(rules, numStats, strModes, schema[j]);
        if action.Drop? {
          dropRow := true;
          break;
        }
        if action.Fill? {
          var fill := action.v;
          row := Set(row, key, fill);
          filledCounts := CountFill(filledCounts, filled + rowFilled, key);
          ConcatAssoc(filled, rowFilled, [key]);
          rowFilled := rowFilled + [key];
        }
      }
      j := j + 1;
    }
    if !dropRow {
      assert schema[j..] == [];
    }
  }

  /** One iteration of the column loop in terms of `ResolveCols`: a drop ends it
      with the row as it is, otherwise the loop goes on from the next column. */
  lemma ScanStep(rules: MissingValueStrategy, numStats: map<string, NumStat>,
                 strModes: map<string, Option<string>>, row: Row, schema: Schema, j: nat, filled: seq<string>)
    requires j < |schema|
    ensures var a := Step(rules, numStats, strModes, row, schema[j]);
      var o := ResolveCols(rules, numStats, strModes, row, schema[j..], filled);
      && (a.Drop? ==> o == RowOutcome(row, filled, true))
      && (a.Fill? ==> o == ResolveCols(rules, numStats, strModes, Set(row, schema[j].key, a.v), schema[j + 1..],
                                       filled + [schema[j].key]))
      && (a.Keep? ==> o == ResolveCols(rules, numStats, strModes, row, schema[j + 1..], filled))
  {
    assert schema[j..][1..] == schema[j + 1..];
    assert schema[j..][0] == schema[j];
  }

  lemma MissingSpecStep(rules: MissingValueStrategy, numStats: map<string, NumStat>,
                        strModes: map<string, Option<string>>, schema: Schema, rows: Table, n: nat)
    requires n < |rows|
    ensures var p := MissingSpec(rules, numStats, strModes, schema, rows[..n]);
      var o := ResolveRow(rules, numStats, strModes, schema, rows[n]);
      MissingSpec(rules, numStats, strModes, schema, rows[..n + 1])
      == if o.dropped then StageB(p.rows, p.filled + o.filled, p.dropped + 1)
         else StageB(p.rows + [o.row], p.filled + o.filled, p.dropped)
  {
    assert rows[..n + 1][..n] == rows[..n];
  }

  /** The row loop of Stage B, counting fills in `filledCounts` and drops in
      `droppedRows`. */
  method FillMissing(rules: MissingValueStrategy, numStats: map<string, NumStat>,
                     strModes: map<string, Option<string>>, schema: Schema, rows: Table)
    returns (afterMissing: Table, filledCounts: map<string, nat>, droppedRows: nat)
    ensures var b := MissingSpec(rules, numStats, strModes, schema, rows);
      afterMissing == b.rows && filledCounts == Tallies(b.filled) && droppedRows == b.dropped
  {
    afterMissing, filledCounts, droppedRows := [], map[], 0;
    ghost var filled: seq<string> := [];
    var n := 0;
    while n < |rows|
      invariant n <= |rows|
      invariant MissingSpec(rules, numStats, strModes, schema, rows[..n]) == StageB(afterMissing, filled, droppedRows)
      invariant filledCounts == Tallies(filled)
    {
      MissingSpecStep(rules, numStats, strModes, schema, rows, n);
      ghost var next := MissingSpec(rules, numStats, strModes, schema, rows[..n + 1]);
      var row, dropRow, counts, rowFilled := ScanRow(rules, numStats, strModes, schema, rows[n], filled, filledCounts);
      filledCounts := counts;
      if dropRow {
        droppedRows := droppedRows + 1;
      } else {
        afterMissing := afterMissing + [row];
      }
      filled := filled + rowFilled;
      assert next == StageB(afterMissing, filled, droppedRows);
      n := n + 1;
    }
    assert rows[..n] == rows;
  }
}
