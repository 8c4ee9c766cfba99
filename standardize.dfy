/** Stage A of `cleanData` (lib/cleaning.ts): string cells of `string` columns are
    trimmed and re-cased, and cells of `date` columns are re-rendered in the
    requested date format wherever the date parser recognises them. */
module Standardize {
  import opened Options
  import opened Seqs
  import opened Text
  import opened Types
  import opened Runtime

  /** `normalizeValueStr`: trim when asked, then apply the casing. */
  function NormalizeValueStr(s: string, trim: bool, casing: Casing): (r: string)
    ensures !trim ==> |r| == |s|
    ensures trim ==> |r| <= |s|
  {
    var t := if trim then Trim(s) else s;
    match casing
    case CaseNone => t
    case CaseLower => ToLower(t)
    case CaseUpper => ToUpper(t)
    case CaseTitle => TitleCase(t)
  }

  /** With `trim` the result neither starts nor ends with white space, and a string
      that is already trimmed and needs no casing is left as it is. */
  lemma NormalizeTrims(s: string, trim: bool, casing: Casing)
    ensures trim ==> IsTrimmed(NormalizeValueStr(s, trim, casing))
    ensures trim && IsTrimmed(s) && casing == CaseNone ==> NormalizeValueStr(s, trim, casing) == s
  {
    CaseMapsKeepTrimmed(if trim then Trim(s) else s);
  }

  /** Lower casing leaves no ASCII upper-case letter and upper casing no ASCII
      lower-case one. */
  lemma NormalizeCases(s: string, trim: bool, casing: Casing)
    ensures var r := NormalizeValueStr(s, trim, casing);
      && (casing == CaseLower ==> forall i :: 0 <= i < |r| ==> !('A' <= r[i] <= 'Z'))
      && (casing == CaseUpper ==> forall i :: 0 <= i < |r| ==> !('a' <= r[i] <= 'z'))
  {
  }

  /** Normalizing twice is normalizing once. */
  lemma NormalizeIdempotent(s: string, trim: bool, casing: Casing)
    ensures NormalizeValueStr(NormalizeValueStr(s, trim, casing), trim, casing)
         == NormalizeValueStr(s, trim, casing)
  {
    var t := if trim then Trim(s) else s;
    var once := NormalizeValueStr(s, trim, casing);
    NormalizeTrims(s, trim, casing);
    assert (if trim then Trim(once) else once) == once;
    match casing
    case CaseNone =>
    case CaseLower => ToLowerIdempotent(t);
    case CaseUpper => ToUpperIdempotent(t);
    case CaseTitle => TitleCaseIdempotent(t);
  }

  /** The new value Stage A writes for a cell of a column of type `t`, or `None`
      when the cell is left as it is: missing cells are skipped, only native
      strings of `string` columns are normalized, and a date cell is replaced only
      by a non-empty rendering. */
  function Restandardized(host: Host, opts: StandardizeOptions, t: ColumnType, v: Option<Cell>): (nv: Option<Cell>)
    ensures nv.Some? ==> !IsMissing(v) && nv.value.Str?
    ensures nv.Some? ==> t == Date || (t == String && v.value.Str?)
    ensures t == String && !IsMissing(v) && v.value.Str? ==>
              nv == Some(Str(NormalizeValueStr(v.value.s, opts.trim, opts.casing)))
    ensures t == Date && nv.Some? ==>
              nv.value.s != "" && host.formatDate(JsString(host, v.value), opts.dateFormat) == Some(nv.value.s)
    ensures forall f ::
              (t == Date && !IsMissing(v) && f != ""
               && host.formatDate(JsString(host, v.value), opts.dateFormat) == Some(f))
              ==> nv == Some(Str(f))
  {
    if IsMissing(v) then None
    else if t == String then
      if v.value.Str? then Some(Str(NormalizeValueStr(v.value.s, opts.trim, opts.casing))) else None
    else if t == Date then
      var f := host.formatDate(JsString(host, v.value), opts.dateFormat);
      if f.Some? && f.value != "" then Some(Str(f.value)) else None
    else None
  }

  /** One column of the loop: read the cell from the original row `r`, write to
      the copy `out`. */
  function Apply(host: Host, opts: StandardizeOptions, r: Row, out: Row, col: ColumnEntry): Row
  {
    var nv := Restandardized(host, opts, col.ctype, Get(r, col.key));
    if nv.Some? then Set(out, col.key, nv.value) else out
  }

  /** The loop over the schema columns, from `out` on. */
  function StandardizeCols(host: Host, opts: StandardizeOptions, r: Row, out: Row, cols: Schema): Row
    decreases |cols|
  {
    if |cols| == 0 then out
    else StandardizeCols(host, opts, r, Apply(host, opts, r, out, cols[0]), cols[1..])
  }

  function StandardizeRowSpec(host: Host, opts: StandardizeOptions, schema: Schema, r: Row): Row
  {
    StandardizeCols(host, opts, r, r, schema)
  }

  /** The cell Stage A leaves under key `k`. */
  function CellAfter(host: Host, opts: StandardizeOptions, schema: Schema, r: Row, k: string): Option<Cell>
  {
    var t := TypeOf(schema, k);
    if t.Some? && Restandardized(host, opts, t.value, Get(r, k)).Some?
    then Restandardized(host, opts, t.value, Get(r, k))
    else Get(r, k)
  }

  lemma {:induction false} StandardizeColsCells(host: Host, opts: StandardizeOptions, r: Row, out: Row, cols: Schema, k: string)
    requires out.keys == r.keys
    requires NoDuplicates(Keys(cols))
    ensures StandardizeCols(host, opts, r, out, cols).keys == r.keys
    ensures Get(StandardizeCols(host, opts, r, out, cols), k) ==
      var t := TypeOf(cols, k);
      if t.Some? && Restandardized(host, opts, t.value, Get(r, k)).Some?
      then Restandardized(host, opts, t.value, Get(r, k))
      else Get(out, k)
    decreases |cols|
  {
    if |cols| > 0 {
      var c := cols[0];
      var out' := Apply(host, opts, r, out, c);
      assert Keys(cols[1..]) == Keys(cols)[1..];
      assert NoDuplicates(Keys(cols[1..]));
      assert out'.keys == r.keys;
      StandardizeColsCells(host, opts, r, out', cols[1..], k);
      if k == c.key {
        assert k !in Keys(cols[1..]);
      }
    }
  }

  /** Stage A on one row keeps its keys and changes a cell only where the column's
      type and the cell call for it. */
  lemma StandardizeRowCells(host: Host, opts: StandardizeOptions, schema: Schema, r: Row, k: string)
    requires NoDuplicates(Keys(schema))
    ensures StandardizeRowSpec(host, opts, schema, r).keys == r.keys
    ensures Get(StandardizeRowSpec(host, opts, schema, r), k) == CellAfter(host, opts, schema, r, k)
  {
    StandardizeColsCells(host, opts, r, r, schema, k);
  }

  /** Two rows with the same keys and the same cell under every key are equal. */
  lemma RowsEqual(a: Row, b: Row)
    requires a.keys == b.keys
    requires forall k :: Get(a, k) == Get(b, k)
    ensures a == b
  {
    forall k | k in a.cells ensures k in b.cells && a.cells[k] == b.cells[k] {
      assert Get(a, k) == Get(b, k);
    }
    assert a.cells == b.cells;
  }

  /** The assumption about the date renderer under which Stage A is idempotent: a
      rendering it produces is rendered to itself. */
  ghost predicate RenderingStable(host: Host, f: DateFormat)
  {
    forall s, t :: host.formatDate(s, f) == Some(t) && t != "" ==> host.formatDate(t, f) == Some(t)
  }

  lemma CellAfterTwice(host: Host, opts: StandardizeOptions, schema: Schema, r: Row, k: string)
    requires NoDuplicates(Keys(schema))
    requires RenderingStable(host, opts.dateFormat)
    ensures CellAfter(host, opts, schema, StandardizeRowSpec(host, opts, schema, r), k)
         == CellAfter(host, opts, schema, r, k)
  {
    var once := StandardizeRowSpec(host, opts, schema, r);
    StandardizeRowCells(host, opts, schema, r, k);
    var t := TypeOf(schema, k);
    if t.Some? {
      var nv := Restandardized(host, opts, t.value, Get(r, k));
      if nv.Some? {
        if t.value == String {
          NormalizeIdempotent(Get(r, k).value.s, opts.trim, opts.casing);
        }
      }
    }
  }

  /** Stage A with a fixed schema is idempotent on a row. */
  lemma StandardizeRowIdempotent(host: Host, opts: StandardizeOptions, schema: Schema, r: Row)
    requires NoDuplicates(Keys(schema))
    requires RenderingStable(host, opts.dateFormat)
    ensures StandardizeRowSpec(host, opts, schema, StandardizeRowSpec(host, opts, schema, r))
         == StandardizeRowSpec(host, opts, schema, r)
  {
    var once := StandardizeRowSpec(host, opts, schema, r);
    var twice := StandardizeRowSpec(host, opts, schema, once);
    forall k ensures Get(twice, k) == Get(once, k) {
      StandardizeRowCells(host, opts, schema, r, k);
      StandardizeRowCells(host, opts, schema, once, k);
      CellAfterTwice(host, opts, schema, r, k);
    }
    StandardizeRowCells(host, opts, schema, r, "");
    StandardizeRowCells(host, opts, schema, once, "");
    RowsEqual(twice, once);
  }

  /** `rows.map(...)` of Stage A. */
  function StandardizeSpec(host: Host, opts: StandardizeOptions, schema: Schema, rows: Table): (out: Table)
    ensures |out| == |rows|
  {
    seq(|rows|, i requires 0 <= i < |rows| => StandardizeRowSpec(host, opts, schema, rows[i]))
  }

  /** Stage A with a fixed schema is idempotent on a table. */
  lemma StandardizeIdempotent(host: Host, opts: StandardizeOptions, schema: Schema, rows: Table)
    requires NoDuplicates(Keys(schema))
    requires RenderingStable(host, opts.dateFormat)
    ensures StandardizeSpec(host, opts, schema, StandardizeSpec(host, opts, schema, rows))
         == StandardizeSpec(host, opts, schema, rows)
  {
    var once := StandardizeSpec(host, opts, schema, rows);
    forall i | 0 <= i < |rows|
      ensures StandardizeRowSpec(host, opts, schema, once[i]) == once[i]
    {
      StandardizeRowIdempotent(host, opts, schema, rows[i]);
    }
  }

  /** The loop over the schema columns for one row. */
  method StandardizeRow(host: Host, opts: StandardizeOptions, schema: Schema, r: Row) returns (out: Row)
    ensures out == StandardizeRowSpec(host, opts, schema, r)
  {
    out := r;
    var i := 0;
    while i < |schema|
      invariant i <= |schema|
      invariant StandardizeCols(host, opts, r, out, schema[i..]) == StandardizeRowSpec(host, opts, schema, r)
    {
      assert schema[i..][1..] == schema[i + 1..];
      var key, ctype := schema[i].key, schema[i].ctype;
      var v := Get(r, key);
      if !IsMissing(v) {
        if ctype == String {
          if v.value.Str? {
            out := Set(out, key, Str(NormalizeValueStr(v.value.s, opts.trim, opts.casing)));
          }
        } else if ctype == Date {
          var asStr := JsString(host, v.value);
          var formatted := host.formatDate(asStr, opts.dateFormat);
          if formatted.Some? && formatted.value != "" {
            out := Set(out, key, Str(formatted.value));
          }
        }
      }
      i := i + 1;
    }
  }

  /** Stage A: one standardized copy per input row, in order. */
  method StandardizeTable(host: Host, opts: StandardizeOptions, schema: Schema, rows: Table) returns (out: Table)
    ensures out == StandardizeSpec(host, opts, schema, rows)
  {
    out := [];
    var i := 0;
    while i < |rows|
      invariant i <= |rows|
      invariant |out| == i
      invariant forall j :: 0 <= j < i ==> out[j] == StandardizeRowSpec(host, opts, schema, rows[j])
    {
      var row := StandardizeRow(host, opts, schema, rows[i]);
      out := out + [row];
      i := i + 1;
    }
  }
}
