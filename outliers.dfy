/** Stage D of `cleanData` (lib/cleaning.ts): a z-score per row for each target
    column, then the rows with a score beyond the threshold are removed or marked. */
module Outliers {
  import opened Options
  import opened Seqs
  import opened Text
  import opened Types
  import opened Runtime
  import opened Stats

  /** The key under which a marked row lists its flagged columns. */
  const OutliersKey: string := "__outliers__"

  /** `colsToUse`: the configured columns when there are any, else the numeric
      columns of the inferred schema. */
  function TargetColumns(opts: OutlierOptions, numericCols: seq<string>): seq<string>
  {
    if opts.columns.Some? && |opts.columns.value| > 0 then opts.columns.value else numericCols
  }

  /** `Number(r[c] ?? NaN)`, and a NaN then read as 0. */
  function Coerce(host: Host, v: Option<Cell>): real
  {
    if v.None? || v == Some(Null) then 0.0 else JsNumber(host, v.value).GetOr(0.0)
  }

  /** The values of column `c`, one per row. */
  function ColumnValues(host: Host, rows: Table, c: string): (xs: seq<real>)
    ensures |xs| == |rows|
  {
    seq(|rows|, i requires 0 <= i < |rows| => Coerce(host, Get(rows[i], c)))
  }

  /** `zMaps[c]`. */
  function ColumnZ(host: Host, rows: Table, c: string): (z: seq<real>)
    ensures |z| == |rows|
  {
    ZScores(host, ColumnValues(host, rows, c))
  }

  /** `zMaps` after the loop has visited the columns `cols`. */
  function ZMapsOver(host: Host, rows: Table, cols: seq<string>): map<string, seq<real>>
    decreases |cols|
  {
    if |cols| == 0 then map[]
    else
      var c := cols[|cols| - 1];
      ZMapsOver(host, rows, cols[..|cols| - 1])[c := ColumnZ(host, rows, c)]
  }

  /** `zMaps` holds the scores of exactly the target columns. */
  lemma {:induction false} ZMapsLookup(host: Host, rows: Table, cols: seq<string>, c: string)
    ensures c in ZMapsOver(host, rows, cols) <==> c in cols
    ensures c in ZMapsOver(host, rows, cols) ==> ZMapsOver(host, rows, cols)[c] == ColumnZ(host, rows, c)
    decreases |cols|
  {
    if |cols| > 0 {
      ZMapsLookup(host, rows, cols[..|cols| - 1], c);
      assert cols == cols[..|cols| - 1] + [cols[|cols| - 1]];
    }
  }

  lemma ZMapsDomain(host: Host, rows: Table, cols: seq<string>)
    ensures forall c :: c in cols ==> c in ZMapsOver(host, rows, cols) && |ZMapsOver(host, rows, cols)[c]| == |rows|
  {
    forall c | c in cols
      ensures c in ZMapsOver(host, rows, cols) && |ZMapsOver(host, rows, cols)[c]| == |rows|
    {
      ZMapsLookup(host, rows, cols, c);
    }
  }

  /** The columns of `order` whose score for row `i` exceeds `t`, in order:
      `Object.entries(zMaps).filter(...).map(([col]) => col)`. */
  function FlagsOf(zMaps: map<string, seq<real>>, order: seq<string>, i: nat, t: real): seq<string>
    requires forall c :: c in order ==> c in zMaps && i < |zMaps[c]|
    decreases |order|
  {
    if |order| == 0 then []
    else
      var c := order[|order| - 1];
      FlagsOf(zMaps, order[..|order| - 1], i, t) + (if Abs(zMaps[c][i]) > t then [c] else [])
  }

  /** A column is flagged exactly when its score is beyond the threshold. */
  lemma {:induction false} FlagsOfMembers(zMaps: map<string, seq<real>>, order: seq<string>, i: nat, t: real, c: string)
    requires forall c :: c in order ==> c in zMaps && i < |zMaps[c]|
    ensures c in FlagsOf(zMaps, order, i, t) <==> c in order && Abs(zMaps[c][i]) > t
    decreases |order|
  {
    if |order| > 0 {
      var p := order[..|order| - 1];
      FlagsOfMembers(zMaps, p, i, t, c);
      assert order == p + [order[|order| - 1]];
    }
  }

  /** The flags keep the column order. */
  lemma {:induction false} FlagsOfOrder(zMaps: map<string, seq<real>>, order: seq<string>, i: nat, t: real)
    requires forall c :: c in order ==> c in zMaps && i < |zMaps[c]|
    ensures IsSubsequence(FlagsOf(zMaps, order, i, t), order)
    decreases |order|
  {
    if |order| > 0 {
      var p := order[..|order| - 1];
      var x := order[|order| - 1];
      var f := FlagsOf(zMaps, p, i, t);
      FlagsOfOrder(zMaps, p, i, t);
      assert order == p + [x];
      assert order[..|order| - 1] == p;
      if Abs(zMaps[x][i]) > t {
        SubsequenceKeep(f, p, x);
        assert FlagsOf(zMaps, order, i, t) == f + [x];
      } else {
        SubsequenceSkip(f, p, x);
        assert FlagsOf(zMaps, order, i, t) == f;
      }
    }
  }

  /** The flagged columns of row `i`, each once, in first-seen order. */
  function Flags(host: Host, rows: Table, cols: seq<string>, t: real, i: nat): seq<string>
    requires i < |rows|
  {
    ZMapsDomain(host, rows, cols);
    FlagsOf(ZMapsOver(host, rows, cols), Distinct(cols), i, t)
  }

  predicate Flagged(host: Host, rows: Table, cols: seq<string>, t: real, i: nat)
    requires i < |rows|
  {
    |Flags(host, rows, cols, t, i)| > 0
  }

  /** Row `i` lists column `c` exactly when `c` is a target column whose score for
      the row is beyond the threshold; the list has no repeats and follows the
      order in which the columns were first named. */
  lemma FlagsMembers(host: Host, rows: Table, cols: seq<string>, t: real, i: nat, c: string)
    requires i < |rows|
    ensures c in Flags(host, rows, cols, t, i) <==> c in cols && Abs(ColumnZ(host, rows, c)[i]) > t
    ensures IsSubsequence(Flags(host, rows, cols, t, i), Distinct(cols))
  {
    ZMapsDomain(host, rows, cols);
    ZMapsLookup(host, rows, cols, c);
    FlagsOfMembers(ZMapsOver(host, rows, cols), Distinct(cols), i, t, c);
    FlagsOfOrder(ZMapsOver(host, rows, cols), Distinct(cols), i, t);
  }

  /** A row is flagged exactly when some target column scores it beyond the
      threshold: the `some` of removal and the `filter` of marking agree. */
  lemma FlaggedIff(host: Host, rows: Table, cols: seq<string>, t: real, i: nat)
    requires i < |rows|
    ensures Flagged(host, rows, cols, t, i) <==> exists c :: c in cols && Abs(ColumnZ(host, rows, c)[i]) > t
  {
    var f := Flags(host, rows, cols, t, i);
    if |f| > 0 {
      FlagsMembers(host, rows, cols, t, i, f[0]);
    }
    if exists c :: c in cols && Abs(ColumnZ(host, rows, c)[i]) > t {
      var c :| c in cols && Abs(ColumnZ(host, rows, c)[i]) > t;
      FlagsMembers(host, rows, cols, t, i, c);
    }
  }

  /** A row flagged at a threshold is flagged at every lower one. */
  lemma ThresholdMonotone(host: Host, rows: Table, cols: seq<string>, t: real, t': real, i: nat)
    requires i < |rows| && t <= t'
    ensures Flagged(host, rows, cols, t', i) ==> Flagged(host, rows, cols, t, i)
  {
    FlaggedIff(host, rows, cols, t, i);
    FlaggedIff(host, rows, cols, t', i);
  }

  /** With every target column constant and a non-negative threshold, no row is
      flagged: constant columns have all-zero scores. */
  lemma ConstantTargetsNeverFlag(host: Host, rows: Table, cols: seq<string>, t: real, i: nat)
    requires SqrtSpec(host) && t >= 0.0 && i < |rows|
    requires forall c :: c in cols ==> Constant(ColumnValues(host, rows, c))
    ensures !Flagged(host, rows, cols, t, i)
  {
    FlaggedIff(host, rows, cols, t, i);
    forall c | c in cols ensures !(Abs(ColumnZ(host, rows, c)[i]) > t) {
      ConstantColumnNeverFlags(host, ColumnValues(host, rows, c), t);
    }
  }

  /** The flagged columns of every row. */
  function FlagLists(host: Host, rows: Table, cols: seq<string>, t: real): (fl: seq<seq<string>>)
    ensures |fl| == |rows|
    ensures forall i :: 0 <= i < |rows| ==> fl[i] == Flags(host, rows, cols, t, i)
  {
    seq(|rows|, i requires 0 <= i < |rows| => Flags(host, rows, cols, t, i))
  }

  /** The first `n` rows without the flagged ones, given the flags `fl` of every
      row: `deduped.filter(...)`. */
  function KeepUnflagged(rows: Table, fl: seq<seq<string>>, n: nat): Table
    requires n <= |rows| == |fl|
  {
    if n == 0 then []
    else KeepUnflagged(rows, fl, n - 1) + (if |fl[n - 1]| > 0 then [] else [rows[n - 1]])
  }

  /** How many of the first `n` rows are flagged. */
  function CountFlagged(fl: seq<seq<string>>, n: nat): nat
    requires n <= |fl|
  {
    if n == 0 then 0
    else CountFlagged(fl, n - 1) + (if |fl[n - 1]| > 0 then 1 else 0)
  }

  /** Every row is either kept or counted in `outliersRemoved`. */
  lemma {:induction false} RemoveCount(rows: Table, fl: seq<seq<string>>, n: nat)
    requires n <= |rows| == |fl|
    ensures |KeepUnflagged(rows, fl, n)| + CountFlagged(fl, n) == n
  {
    if n > 0 {
      RemoveCount(rows, fl, n - 1);
    }
  }

  /** The kept rows keep their order. */
  lemma {:induction false} RemoveKeepsOrder(rows: Table, fl: seq<seq<string>>, n: nat)
    requires n <= |rows| == |fl|
    ensures IsSubsequence(KeepUnflagged(rows, fl, n), rows[..n])
  {
    if n > 0 {
      var k := KeepUnflagged(rows, fl, n - 1);
      RemoveKeepsOrder(rows, fl, n - 1);
      assert rows[..n] == rows[..n - 1] + [rows[n - 1]];
      if |fl[n - 1]| > 0 {
        SubsequenceSkip(k, rows[..n - 1], rows[n - 1]);
        assert k + [] == k;
      } else {
        SubsequenceKeep(k, rows[..n - 1], rows[n - 1]);
      }
    }
  }

  /** When no row is flagged, nothing is removed. */
  lemma {:induction false} RemoveNothingFlagged(rows: Table, fl: seq<seq<string>>, n: nat)
    requires n <= |rows| == |fl|
    requires forall i :: 0 <= i < n ==> |fl[i]| == 0
    ensures KeepUnflagged(rows, fl, n) == rows[..n]
    ensures CountFlagged(fl, n) == 0
  {
    if n > 0 {
      RemoveNothingFlagged(rows, fl, n - 1);
      assert rows[..n] == rows[..n - 1] + [rows[n - 1]];
    }
  }

  /** `{ ...r, __outliers__: flagged.join(',') }` when there are flags. */
  function MarkRow(r: Row, flags: seq<string>): Row
  {
    if |flags| > 0 then Set(r, OutliersKey, Str(Join(flags, ","))) else r
  }

  /** The first `n` rows of `deduped.map(...)` of marking. */
  function MarkPrefix(rows: Table, fl: seq<seq<string>>, n: nat): (m: Table)
    requires n <= |rows| == |fl|
    ensures |m| == n
  {
    if n == 0 then [] else MarkPrefix(rows, fl, n - 1) + [MarkRow(rows[n - 1], fl[n - 1])]
  }

  lemma {:induction false} MarkPrefixAt(rows: Table, fl: seq<seq<string>>, n: nat, i: nat)
    requires i < n <= |rows| == |fl|
    ensures MarkPrefix(rows, fl, n)[i] == MarkRow(rows[i], fl[i])
  {
    if i < n - 1 {
      MarkPrefixAt(rows, fl, n - 1, i);
    }
  }

  /** `deduped.map(...)` of marking. */
  function MarkRows(host: Host, rows: Table, cols: seq<string>, t: real): (m: Table)
    ensures |m| == |rows|
  {
    MarkPrefix(rows, FlagLists(host, rows, cols, t), |rows|)
  }

  /** Marking leaves an unflagged row as it is, and gives a flagged row the
      comma-separated list of its flagged columns under `__outliers__`, changing
      no other cell. */
  lemma MarkedCells(host: Host, rows: Table, cols: seq<string>, t: real, i: nat, k: string)
    requires i < |rows|
    ensures var m := MarkRows(host, rows, cols, t)[i];
      && (!Flagged(host, rows, cols, t, i) ==> m == rows[i])
      && (Flagged(host, rows, cols, t, i) ==>
            Get(m, OutliersKey) == Some(Str(Join(Flags(host, rows, cols, t, i), ","))))
      && (k != OutliersKey ==> Get(m, k) == Get(rows[i], k))
  {
    MarkPrefixAt(rows, FlagLists(host, rows, cols, t), |rows|, i);
  }

  /** The result of Stage D: the final rows, `outliersRemoved` and `outliersMarked`. */
  datatype StageD = StageD(rows: Table, removed: nat, marked: nat)

  function OutlierStage(host: Host, opts: OutlierOptions, numericCols: seq<string>, rows: Table): StageD
  {
    var cols := TargetColumns(opts, numericCols);
    var fl := FlagLists(host, rows, cols, opts.zThreshold);
    if opts.handle == HandleNone || |cols| == 0 || |rows| == 0 then StageD(rows, 0, 0)
    else if opts.handle == HandleRemove then
      StageD(KeepUnflagged(rows, fl, |rows|), CountFlagged(fl, |rows|), 0)
    else StageD(MarkRows(host, rows, cols, opts.zThreshold), 0, CountFlagged(fl, |rows|))
  }

  /** With `handle: 'none'` Stage D changes nothing; only removal counts removed
      rows and only marking counts marked ones. Every row leaves Stage D or is
      counted in `outliersRemoved`; removal keeps the order of the rows it keeps,
      and marking keeps every row. */
  lemma OutlierConservation(host: Host, opts: OutlierOptions, numericCols: seq<string>, rows: Table)
    ensures var d := OutlierStage(host, opts, numericCols, rows);
      && (opts.handle == HandleNone ==> d == StageD(rows, 0, 0))
      && (opts.handle != HandleRemove ==> d.removed == 0)
      && (opts.handle != HandleMark ==> d.marked == 0)
      && |d.rows| + d.removed == |rows|
      && (opts.handle != HandleMark ==> IsSubsequence(d.rows, rows))
      && (opts.handle != HandleRemove ==> |d.rows| == |rows|)
  {
    var cols := TargetColumns(opts, numericCols);
    var t := opts.zThreshold;
    var fl := FlagLists(host, rows, cols, t);
    SubsequenceRefl(rows);
    if opts.handle == HandleRemove && |cols| > 0 && |rows| > 0 {
      RemoveCount(rows, fl, |rows|);
      RemoveKeepsOrder(rows, fl, |rows|);
      assert rows[..|rows|] == rows;
    }
  }

  /** With constant target columns and a non-negative threshold, Stage D changes
      nothing. */
  lemma ConstantTargetsUntouched(host: Host, opts: OutlierOptions, numericCols: seq<string>, rows: Table)
    requires SqrtSpec(host) && opts.zThreshold >= 0.0
    requires forall c :: c in TargetColumns(opts, numericCols) ==> Constant(ColumnValues(host, rows, c))
    ensures OutlierStage(host, opts, numericCols, rows) == StageD(rows, 0, 0)
  {
    var cols := TargetColumns(opts, numericCols);
    var t := opts.zThreshold;
    var fl := FlagLists(host, rows, cols, t);
    forall i | 0 <= i < |rows| ensures |fl[i]| == 0 {
      ConstantTargetsNeverFlag(host, rows, cols, t, i);
    }
    RemoveNothingFlagged(rows, fl, |rows|);
    assert rows[..|rows|] == rows;
    if opts.handle == HandleMark {
      forall i | 0 <= i < |rows| ensures MarkRows(host, rows, cols, t)[i] == rows[i] {
        MarkedCells(host, rows, cols, t, i, OutliersKey);
      }
    }
  }

  /** The loop over `colsToUse` that fills `zMaps`, with `order` the insertion order
      of its keys. */
  method BuildZMaps(host: Host, rows: Table, cols: seq<string>)
    returns (zMaps: map<string, seq<real>>, order: seq<string>)
    ensures zMaps == ZMapsOver(host, rows, cols)
    ensures order == Distinct(cols)
  {
    zMaps, order := map[], [];
    var i := 0;
    while i < |cols|
      invariant i <= |cols|
      invariant zMaps == ZMapsOver(host, rows, cols[..i])
      invariant order == Distinct(cols[..i])
      invariant forall c :: c in zMaps <==> c in cols[..i]
    {
      var c := cols[i];
      ZMapsStep(host, rows, cols, i);
      var values := ColumnValues(host, rows, c);
      var zs := ZScores(host, values);
      if c !in zMaps {
        order := order + [c];
      }
      zMaps := zMaps[c := zs];
      i := i + 1;
    }
    assert cols[..i] == cols;
  }

  lemma ZMapsStep(host: Host, rows: Table, cols: seq<string>, i: nat)
    requires i < |cols|
    ensures ZMapsOver(host, rows, cols[..i + 1]) == ZMapsOver(host, rows, cols[..i])[cols[i] := ColumnZ(host, rows, cols[i])]
    ensures Distinct(cols[..i + 1]) == if cols[i] in Distinct(cols[..i]) then Distinct(cols[..i]) else Distinct(cols[..i]) + [cols[i]]
    ensures forall c :: c in cols[..i + 1] <==> c in cols[..i] || c == cols[i]
  {
    assert cols[..i + 1][..i] == cols[..i];
    assert cols[..i + 1] == cols[..i] + [cols[i]];
  }

  lemma PrefixStep(rows: Table, fl: seq<seq<string>>, i: nat)
    requires i < |rows| == |fl|
    ensures KeepUnflagged(rows, fl, i + 1) ==
              if |fl[i]| > 0 then KeepUnflagged(rows, fl, i) else KeepUnflagged(rows, fl, i) + [rows[i]]
    ensures CountFlagged(fl, i + 1) == CountFlagged(fl, i) + if |fl[i]| > 0 then 1 else 0
    ensures MarkPrefix(rows, fl, i + 1) == MarkPrefix(rows, fl, i) + [MarkRow(rows[i], fl[i])]
  {
    assert KeepUnflagged(rows, fl, i) + [] == KeepUnflagged(rows, fl, i);
  }

  /** Every column of `order` has a score for each of `n` rows. */
  predicate Scored(zMaps: map<string, seq<real>>, order: seq<string>, n: nat)
  {
    forall c :: c in order ==> c in zMaps && |zMaps[c]| == n
  }

  /** `fl` lists, for every row, the columns of `order` that score it beyond `t`. */
  predicate FlagsBy(zMaps: map<string, seq<real>>, order: seq<string>, t: real, fl: seq<seq<string>>)
    requires Scored(zMaps, order, |fl|)
  {
    forall i :: 0 <= i < |fl| ==> fl[i] == FlagsOf(zMaps, order, i, t)
  }

  /** The `filter` of removal, counting `outliersRemoved`; `fl` stands for the
      flags the scores give. */
  method RemoveFlagged(rows: Table, t: real, zMaps: map<string, seq<real>>, order: seq<string>,
                       ghost fl: seq<seq<string>>)
    returns (kept: Table, removed: nat)
    requires |fl| == |rows| && Scored(zMaps, order, |rows|) && FlagsBy(zMaps, order, t, fl)
    ensures kept == KeepUnflagged(rows, fl, |rows|)
    ensures removed == CountFlagged(fl, |rows|)
  {
    kept, removed := [], 0;
    var i := 0;
    while i < |rows|
      invariant i <= |rows|
      invariant kept == KeepUnflagged(rows, fl, i)
      invariant removed == CountFlagged(fl, i)
    {
      var flagged := AnyBeyond(zMaps, order, i, t);
      assert fl[i] == FlagsOf(zMaps, order, i, t);
      PrefixStep(rows, fl, i);
      if flagged {
        removed := removed + 1;
      } else {
        kept := kept + [rows[i]];
      }
      i := i + 1;
    }
  }

  /** `Object.keys(zMaps).some(...)` of removal: some score of row `i` is beyond
      the threshold, which is exactly when the row has flags. */
  function AnyBeyond(zMaps: map<string, seq<real>>, order: seq<string>, i: nat, t: real): (b: bool)
    requires forall c :: c in order ==> c in zMaps && i < |zMaps[c]|
    ensures b <==> |FlagsOf(zMaps, order, i, t)| > 0
  {
    SomeIffFlags(zMaps, order, i, t);
    exists c :: c in order && Abs(zMaps[c][i]) > t
  }

  lemma SomeIffFlags(zMaps: map<string, seq<real>>, order: seq<string>, i: nat, t: real)
    requires forall c :: c in order ==> c in zMaps && i < |zMaps[c]|
    ensures (exists c :: c in order && Abs(zMaps[c][i]) > t) <==> |FlagsOf(zMaps, order, i, t)| > 0
  {
    var f := FlagsOf(zMaps, order, i, t);
    if exists c :: c in order && Abs(zMaps[c][i]) > t {
      var c :| c in order && Abs(zMaps[c][i]) > t;
      FlagsOfMembers(zMaps, order, i, t, c);
    }
    if |f| > 0 {
      FlagsOfMembers(zMaps, order, i, t, f[0]);
    }
  }

  /** The `map` of marking, counting `outliersMarked`; `fl` stands for the flags
      the scores give. */
  method MarkFlagged(rows: Table, t: real, zMaps: map<string, seq<real>>, order: seq<string>,
                     ghost fl: seq<seq<string>>)
    returns (out: Table, marked: nat)
    requires |fl| == |rows| && Scored(zMaps, order, |rows|) && FlagsBy(zMaps, order, t, fl)
    ensures out == MarkPrefix(rows, fl, |rows|)
    ensures marked == CountFlagged(fl, |rows|)
  {
    out, marked := [], 0;
    var i := 0;
    while i < |rows|
      invariant i <= |rows|
      invariant out == MarkPrefix(rows, fl, i)
      invariant marked == CountFlagged(fl, i)
    {
      var r := rows[i];
      var flagged := FlagsOf(zMaps, order, i, t);
      assert fl[i] == flagged;
      PrefixStep(rows, fl, i);
      ghost var count := CountFlagged(fl, i + 1);
      if |flagged| > 0 {
        marked := marked + 1;
      }
      assert marked == count;
      out := out + [MarkRow(r, flagged)];
      i := i + 1;
    }
  }

  /** The scores from `BuildZMaps` give the flags of the specification. */
  lemma ScoresGiveFlags(host: Host, rows: Table, cols: seq<string>, t: real)
    ensures Scored(ZMapsOver(host, rows, cols), Distinct(cols), |rows|)
    ensures FlagsBy(ZMapsOver(host, rows, cols), Distinct(cols), t, FlagLists(host, rows, cols, t))
  {
    ZMapsDomain(host, rows, cols);
  }

  /** Stage D. */
  method HandleOutliers(host: Host, opts: OutlierOptions, numericCols: seq<string>, rows: Table)
    returns (finalRows: Table, removed: nat, marked: nat)
    ensures StageD(finalRows, removed, marked) == OutlierStage(host, opts, numericCols, rows)
  {
    finalRows, removed, marked := rows, 0, 0;
    if opts.handle != HandleNone {
      var colsToUse := TargetColumns(opts, numericCols);
      if |colsToUse| > 0 && |rows| > 0 {
        var zMaps, order := BuildZMaps(host, rows, colsToUse);
        var threshold := opts.zThreshold;
        ghost var fl := FlagLists(host, rows, colsToUse, threshold);
        ScoresGiveFlags(host, rows, colsToUse, threshold);
        if opts.handle == HandleRemove {
          finalRows, removed := RemoveFlagged(rows, threshold, zMaps, order, fl);
        } else if opts.handle == HandleMark {
          finalRows, marked := MarkFlagged(rows, threshold, zMaps, order, fl);
        }
      }
    }
  }
}
