/** The values the cleaning core works on (lib/types.ts): cells, rows, the inferred
    schema, the cleaning rules and the summary. */
module Types {
  import opened Options
  import Seqs

  /** One cell of a row. JavaScript numbers are split into finite numbers and NaN,
      which the pipeline itself can write (a mean or median of no values). */
  datatype Cell = Num(x: real) | NaN | Str(s: string) | Bool(b: bool) | Null

  /** A row: its keys in JavaScript insertion order and the value under each key.
      A key that is not present is the `undefined` case. */
  datatype RowData = RowData(keys: seq<string>, cells: map<string, Cell>)

  predicate WellFormed(r: RowData)
  {
    && Seqs.NoDuplicates(r.keys)
    && (forall k :: k in r.cells ==> k in r.keys)
    && (forall k :: k in r.keys ==> k in r.cells)
  }

  type Row = r: RowData | WellFormed(r) witness RowData([], map[])

  type Table = seq<Row>

  /** `r[k]`: the cell under key `k`, or `None` for `undefined`. */
  function Get(r: Row, k: string): Option<Cell>
  {
    if k in r.cells then Some(r.cells[k]) else None
  }

  /** `r[k] = v`: an existing key keeps its place, a new key goes last. */
  function Set(r: Row, k: string, v: Cell): (r': Row)
    ensures Get(r', k) == Some(v)
    ensures forall k' :: k' != k ==> Get(r', k') == Get(r, k')
    ensures k in r.cells ==> r'.keys == r.keys
    ensures k !in r.cells ==> r'.keys == r.keys + [k]
  {
    if k in r.cells then RowData(r.keys, r.cells[k := v])
    else RowData(r.keys + [k], r.cells[k := v])
  }

  /** Null, undefined and the empty string all count as missing. */
  predicate IsMissing(v: Option<Cell>)
  {
    v.None? || v.value.Null? || v.value == Str("")
  }

  datatype ColumnType = Number | String | Boolean | Date | Unknown

  datatype ColumnEntry = ColumnEntry(key: string, ctype: ColumnType)

  type Schema = seq<ColumnEntry>

  function Keys(schema: Schema): (ks: seq<string>)
    ensures |ks| == |schema|
    ensures forall i :: 0 <= i < |schema| ==> ks[i] == schema[i].key
  {
    seq(|schema|, i requires 0 <= i < |schema| => schema[i].key)
  }

  /** `schema.columns.find(c => c.key === key)?.type`. */
  function TypeOf(schema: Schema, key: string): (t: Option<ColumnType>)
    ensures t.Some? <==> key in Keys(schema)
  {
    if |schema| == 0 then None
    else if schema[0].key == key then Some(schema[0].ctype)
    else TypeOf(schema[1..], key)
  }

  /** In a schema without repeated keys, a column's key looks up its own type. */
  lemma {:induction false} TypeOfColumn(schema: Schema, i: nat)
    requires i < |schema| && Seqs.NoDuplicates(Keys(schema))
    ensures TypeOf(schema, schema[i].key) == Some(schema[i].ctype)
    decreases i
  {
    if i > 0 {
      assert Keys(schema)[0] != Keys(schema)[i];
      assert Keys(schema[1..]) == Keys(schema)[1..];
      assert schema[1..][i - 1] == schema[i];
      TypeOfColumn(schema[1..], i - 1);
    }
  }

  /** The keys of the columns typed `number`, in schema order. */
  function NumericColumns(schema: Schema): (ks: seq<string>)
    ensures forall k :: k in ks <==> exists i :: 0 <= i < |schema| && schema[i].key == k && schema[i].ctype == Number
  {
    if |schema| == 0 then []
    else (if schema[0].ctype == Number then [schema[0].key] else []) + NumericColumns(schema[1..])
  }

  datatype NumericStrategy = NumMean | NumMedian | NumZero | NumDrop
  datatype StringStrategy = StrMode | StrEmpty | StrDrop
  datatype BooleanStrategy = BoolMode | BoolDrop

  datatype MissingValueStrategy = MissingValueStrategy(
    numeric: NumericStrategy, text: StringStrategy, boolean: BooleanStrategy)

  datatype DedupeKeys = AllColumns | KeyList(ks: seq<string>)

  datatype DedupeOptions = DedupeOptions(enabled: bool, keys: DedupeKeys)

  datatype Casing = CaseNone | CaseLower | CaseUpper | CaseTitle

  datatype DateFormat = IsoFormat | YearMonthDay | DayMonthYear | MonthDayYear

  datatype StandardizeOptions = StandardizeOptions(trim: bool, casing: Casing, dateFormat: DateFormat)

  datatype OutlierHandling = HandleNone | HandleRemove | HandleMark

  /** `columns` is optional; `None` and an empty list both select the numeric columns. */
  datatype OutlierOptions = OutlierOptions(
    handle: OutlierHandling, zThreshold: real, columns: Option<seq<string>>)

  datatype CleaningRules = CleaningRules(
    missing: MissingValueStrategy, dedupe: DedupeOptions,
    standardize: StandardizeOptions, outliers: OutlierOptions)

  datatype CleaningSummary = CleaningSummary(
    totalRows: nat, removedDuplicates: nat, droppedRows: nat,
    filledMissing: map<string, nat>, outliersRemoved: nat, outliersMarked: nat)
}
