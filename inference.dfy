/** Schema inference (lib/cleaning.ts, `isDateLike` and `inferSchema`): every
    distinct key of the sampled rows gets the type that most of its non-missing
    cells look like. */
module Inference {
  import opened Options
  import opened Seqs
  import opened Text
  import opened Types
  import opened Runtime

  /** The sample size `cleanData` uses. */
  const DefaultMaxRows: int := 200

  predicate IsDigit(c: char)
  {
    '0' <= c <= '9'
  }

  /** `n` decimal digits start at position `i` of `s`. */
  predicate DigitsAt(s: string, i: nat, n: nat)
  {
    i + n <= |s| && forall j :: i <= j < i + n ==> IsDigit(s[j])
  }

  /** The three anchored date shapes: `dddd-dd-dd`, `dd/dd/dddd` and `dd-dd-dddd`.
      Only the start of the string is tested; anything may follow. */
  predicate IsDateLike(s: string)
  {
    || (DigitsAt(s, 0, 4) && DigitsAt(s, 5, 2) && DigitsAt(s, 8, 2) && s[4] == '-' && s[7] == '-')
    || (DigitsAt(s, 0, 2) && DigitsAt(s, 3, 2) && DigitsAt(s, 6, 4) && s[2] == '/' && s[5] == '/')
    || (DigitsAt(s, 0, 2) && DigitsAt(s, 3, 2) && DigitsAt(s, 6, 4) && s[2] == '-' && s[5] == '-')
  }

  /** Whether a string is date-like is decided by its first ten characters. */
  lemma DateLikeByPrefix(s: string)
    ensures IsDateLike(s) <==> |s| >= 10 && IsDateLike(s[..10])
  {
    if |s| >= 10 {
      var p := s[..10];
      assert forall j :: 0 <= j < 10 ==> p[j] == s[j];
    }
  }

  /** Appending text never makes a date-like string stop being date-like. */
  lemma DateLikeExtends(s: string, t: string)
    requires IsDateLike(s)
    ensures IsDateLike(s + t)
  {
    DateLikeByPrefix(s);
    DateLikeByPrefix(s + t);
    assert (s + t)[..10] == s[..10];
  }

  /** The bucket a string cell votes for, after trimming: booleans are recognised
      before numbers, numbers before dates, and everything else is a string. */
  function ClassifyString(host: Host, s: string): (t: ColumnType)
    ensures t != Unknown
    ensures t == Boolean <==> ToLower(Trim(s)) in {"true", "false"}
    ensures t == Number <==> ToLower(Trim(s)) !in {"true", "false"} && host.parseNumber(Trim(s)).Some?
    ensures t == Date <==>
      ToLower(Trim(s)) !in {"true", "false"} && host.parseNumber(Trim(s)).None? && IsDateLike(Trim(s))
    ensures t == String <==>
      ToLower(Trim(s)) !in {"true", "false"} && host.parseNumber(Trim(s)).None? && !IsDateLike(Trim(s))
  {
    var s' := Trim(s);
    if ToLower(s') == "true" || ToLower(s') == "false" then Boolean
    else if host.parseNumber(s').Some? then Number
    else if IsDateLike(s') then Date
    else String
  }

  /** The bucket one cell votes for; `None` for a missing cell, which is skipped.
      Every cell the model can hold falls in one of the first four buckets. */
  function Classify(host: Host, v: Option<Cell>): (b: Option<ColumnType>)
    ensures b.None? <==> IsMissing(v)
    ensures b != Some(Unknown)
    ensures v.Some? && (v.value.Num? || v.value.NaN?) ==> b == Some(Number)
    ensures v.Some? && v.value.Bool? ==> b == Some(Boolean)
    ensures !IsMissing(v) && v.value.Str? ==> b == Some(ClassifyString(host, v.value.s))
  {
    match v
    case None => None
    case Some(c) =>
      match c
      case Null => None
      case Num(_) => Some(Number)
      case NaN => Some(Number)
      case Bool(_) => Some(Boolean)
      case Str(s) => if s == "" then None else Some(ClassifyString(host, s))
  }

  /** The `counts` record, one counter per bucket. */
  datatype Counts = Counts(number: nat, text: nat, boolean: nat, date: nat, unknown: nat)

  const NoCounts := Counts(0, 0, 0, 0, 0)

  function Count(c: Counts, t: ColumnType): nat
  {
    match t
    case Number => c.number
    case String => c.text
    case Boolean => c.boolean
    case Date => c.date
    case Unknown => c.unknown
  }

  /** `counts[t]++`. */
  function Bump(c: Counts, t: ColumnType): (r: Counts)
    ensures Count(r, t) == Count(c, t) + 1
    ensures forall u :: u != t ==> Count(r, u) == Count(c, u)
  {
    match t
    case Number => c.(number := c.number + 1)
    case String => c.(text := c.text + 1)
    case Boolean => c.(boolean := c.boolean + 1)
    case Date => c.(date := c.date + 1)
    case Unknown => c.(unknown := c.unknown + 1)
  }

  function Total(c: Counts): nat
  {
    c.number + c.text + c.boolean + c.date + c.unknown
  }

  /** The order of the entries of the `counts` literal. */
  function Rank(t: ColumnType): nat
  {
    match t
    case Number => 0
    case String => 1
    case Boolean => 2
    case Date => 3
    case Unknown => 4
  }

  /** The first entry after a stable sort by descending count: a bucket with the
      highest count, and of those the earliest in entry order. */
  function PickType(c: Counts): (t: ColumnType)
    ensures forall u :: Count(c, u) <= Count(c, t)
    ensures forall u :: Rank(u) < Rank(t) ==> Count(c, u) < Count(c, t)
  {
    var m := Max(Max(Max(c.number, c.text), Max(c.boolean, c.date)), c.unknown);
    if c.number == m then Number
    else if c.text == m then String
    else if c.boolean == m then Boolean
    else if c.date == m then Date
    else Unknown
  }

  function Max(a: nat, b: nat): nat
  {
    if a >= b then a else b
  }

  /** The two properties of `PickType` determine its result. */
  lemma PickTypeUnique(c: Counts, t: ColumnType)
    requires forall u :: Count(c, u) <= Count(c, t)
    requires forall u :: Rank(u) < Rank(t) ==> Count(c, u) < Count(c, t)
    ensures t == PickType(c)
  {
    var p := PickType(c);
    assert Count(c, p) == Count(c, t);
  }

  /** The counters after scanning column `key` of `sample`. */
  function Tally(host: Host, sample: seq<Row>, key: string): Counts
    decreases |sample|
  {
    if |sample| == 0 then NoCounts
    else
      var c := Tally(host, sample[..|sample| - 1], key);
      var b := Classify(host, Get(sample[|sample| - 1], key));
      if b.Some? then Bump(c, b.value) else c
  }

  /** The number of rows of `sample` whose cell under `key` is not missing. */
  function Present(sample: seq<Row>, key: string): (n: nat)
    ensures n <= |sample|
    decreases |sample|
  {
    if |sample| == 0 then 0
    else Present(sample[..|sample| - 1], key) + (if IsMissing(Get(sample[|sample| - 1], key)) then 0 else 1)
  }

  /** Every present cell is counted exactly once, and never as `unknown`. */
  lemma {:induction false} TallyTotal(host: Host, sample: seq<Row>, key: string)
    ensures Total(Tally(host, sample, key)) == Present(sample, key)
    ensures Tally(host, sample, key).unknown == 0
    decreases |sample|
  {
    if |sample| > 0 {
      TallyTotal(host, sample[..|sample| - 1], key);
    }
  }

  /** The bucket each sampled cell of column `key` votes for. */
  function Ballots(host: Host, sample: seq<Row>, key: string): (bs: seq<Option<ColumnType>>)
    ensures |bs| == |sample|
    ensures forall i :: 0 <= i < |sample| ==> bs[i] == Classify(host, Get(sample[i], key))
  {
    seq(|sample|, i requires 0 <= i < |sample| => Classify(host, Get(sample[i], key)))
  }

  /** Each counter is the number of cells that vote for its bucket. */
  lemma {:induction false} TallyCountsBallots(host: Host, sample: seq<Row>, key: string, t: ColumnType)
    ensures Count(Tally(host, sample, key), t) == multiset(Ballots(host, sample, key))[Some(t)]
    decreases |sample|
  {
    if |sample| > 0 {
      var p := sample[..|sample| - 1];
      TallyCountsBallots(host, p, key, t);
      BallotsSnoc(host, sample, key);
    }
  }

  lemma BallotsSnoc(host: Host, sample: seq<Row>, key: string)
    requires |sample| > 0
    ensures Ballots(host, sample, key)
         == Ballots(host, sample[..|sample| - 1], key) + [Classify(host, Get(sample[|sample| - 1], key))]
  {
  }

  /** A bucket no cell votes for has a zero counter. */
  lemma NoVotes(host: Host, sample: seq<Row>, key: string, u: ColumnType)
    requires forall i :: 0 <= i < |sample| ==> Classify(host, Get(sample[i], key)) != Some(u)
    ensures Count(Tally(host, sample, key), u) == 0
  {
    TallyCountsBallots(host, sample, key, u);
    assert Some(u) !in Ballots(host, sample, key);
  }

  /** A bucket some cell votes for has a positive counter. */
  lemma SomeVote(host: Host, sample: seq<Row>, key: string, i: nat)
    requires i < |sample| && Classify(host, Get(sample[i], key)).Some?
    ensures Count(Tally(host, sample, key), Classify(host, Get(sample[i], key)).value) > 0
  {
    var b := Classify(host, Get(sample[i], key));
    TallyCountsBallots(host, sample, key, b.value);
    assert Ballots(host, sample, key)[i] == b;
  }

  /** When every present cell votes for the same bucket, and at least one cell is
      present, the column gets that type. */
  lemma Unanimous(host: Host, sample: seq<Row>, key: string, t: ColumnType)
    requires forall i :: 0 <= i < |sample| ==> Classify(host, Get(sample[i], key)) in {None, Some(t)}
    requires exists i :: 0 <= i < |sample| && !IsMissing(Get(sample[i], key))
    ensures PickType(Tally(host, sample, key)) == t
  {
    var c := Tally(host, sample, key);
    var i :| 0 <= i < |sample| && !IsMissing(Get(sample[i], key));
    assert Classify(host, Get(sample[i], key)) == Some(t);
    SomeVote(host, sample, key, i);
    forall u | u != t ensures Count(c, u) == 0 {
      forall j | 0 <= j < |sample| ensures Classify(host, Get(sample[j], key)) != Some(u) {
        assert Classify(host, Get(sample[j], key)) in {None, Some(t)};
      }
      NoVotes(host, sample, key, u);
    }
    assert forall u :: Count(c, u) <= Count(c, t);
    PickTypeUnique(c, t);
  }

  /** A column whose sampled cells are all missing is typed `number`: every
      counter is zero and `number` is the first entry. */
  lemma AllMissingIsNumber(host: Host, sample: seq<Row>, key: string)
    requires forall i :: 0 <= i < |sample| ==> IsMissing(Get(sample[i], key))
    ensures PickType(Tally(host, sample, key)) == Number
  {
    forall u: ColumnType ensures Count(Tally(host, sample, key), u) == 0 {
      NoVotes(host, sample, key, u);
    }
  }

  /** `rows.slice(0, maxRows)`: the end index of the slice (a negative bound counts
      from the end). */
  function SliceEnd(n: nat, maxRows: int): (e: nat)
    ensures e <= n
    ensures 0 <= maxRows ==> e == if maxRows < n then maxRows else n
    ensures maxRows < 0 ==> e == if n + maxRows < 0 then 0 else n + maxRows
  {
    if maxRows < 0 then (if n + maxRows < 0 then 0 else n + maxRows)
    else if maxRows < n then maxRows
    else n
  }

  function Sample(rows: seq<Row>, maxRows: int): seq<Row>
  {
    rows[..SliceEnd(|rows|, maxRows)]
  }

  /** `rows.flatMap(r => Object.keys(r))`. */
  function AllKeys(rows: seq<Row>): seq<string>
    decreases |rows|
  {
    if |rows| == 0 then [] else AllKeys(rows[..|rows| - 1]) + rows[|rows| - 1].keys
  }

  lemma {:induction false} AllKeysMembers(rows: seq<Row>, k: string)
    ensures k in AllKeys(rows) <==> exists i :: 0 <= i < |rows| && k in rows[i].keys
    decreases |rows|
  {
    if |rows| > 0 {
      var p := rows[..|rows| - 1];
      AllKeysMembers(p, k);
      assert forall i :: 0 <= i < |p| ==> p[i] == rows[i];
      if k !in rows[|rows| - 1].keys && exists i :: 0 <= i < |rows| && k in rows[i].keys {
        var i :| 0 <= i < |rows| && k in rows[i].keys;
        assert i < |p| && k in p[i].keys;
      }
    }
  }

  function Column(host: Host, sample: seq<Row>, key: string): ColumnEntry
  {
    ColumnEntry(key, PickType(Tally(host, sample, key)))
  }

  /** What `inferSchema(rows, maxRows)` returns. */
  function InferSchemaSpec(host: Host, rows: seq<Row>, maxRows: int): Schema
  {
    var sample := Sample(rows, maxRows);
    var keys := Distinct(AllKeys(sample));
    seq(|keys|, i requires 0 <= i < |keys| => Column(host, sample, keys[i]))
  }

  /** One column per distinct key of the sampled rows, each key once, in the order
      the keys are first seen. */
  lemma InferredColumns(host: Host, rows: seq<Row>, maxRows: int)
    ensures var schema := InferSchemaSpec(host, rows, maxRows);
      && NoDuplicates(Keys(schema))
      && (forall k :: k in Keys(schema) <==>
            exists i :: 0 <= i < |Sample(rows, maxRows)| && k in Sample(rows, maxRows)[i].keys)
      && (forall i, j :: 0 <= i < j < |schema| ==>
            FirstIndex(AllKeys(Sample(rows, maxRows)), schema[i].key)
            < FirstIndex(AllKeys(Sample(rows, maxRows)), schema[j].key))
  {
    var sample := Sample(rows, maxRows);
    var keys := Distinct(AllKeys(sample));
    var schema := InferSchemaSpec(host, rows, maxRows);
    assert Keys(schema) == keys;
    forall k ensures k in keys <==> exists i :: 0 <= i < |sample| && k in sample[i].keys {
      AllKeysMembers(sample, k);
    }
    forall i, j | 0 <= i < j < |schema|
      ensures FirstIndex(AllKeys(sample), schema[i].key) < FirstIndex(AllKeys(sample), schema[j].key)
    {
      DistinctFirstSeenOrder(AllKeys(sample), i, j);
    }
  }

  /** Each column is typed from the votes of its own sampled cells. */
  lemma InferredTypes(host: Host, rows: seq<Row>, maxRows: int, i: nat)
    requires i < |InferSchemaSpec(host, rows, maxRows)|
    ensures var schema := InferSchemaSpec(host, rows, maxRows);
      var c := Tally(host, Sample(rows, maxRows), schema[i].key);
      && schema[i].ctype != Unknown
      && (forall u :: multiset(Ballots(host, Sample(rows, maxRows), schema[i].key))[Some(u)]
                      <= Count(c, schema[i].ctype))
  {
    var schema := InferSchemaSpec(host, rows, maxRows);
    var sample := Sample(rows, maxRows);
    var c := Tally(host, sample, schema[i].key);
    TallyTotal(host, sample, schema[i].key);
    forall u ensures multiset(Ballots(host, sample, schema[i].key))[Some(u)] <= Count(c, schema[i].ctype) {
      TallyCountsBallots(host, sample, schema[i].key, u);
    }
  }

  /** An empty table, or a sample of no rows, has no columns. */
  lemma EmptySample(host: Host, rows: seq<Row>, maxRows: int)
    requires |rows| == 0 || maxRows == 0
    ensures InferSchemaSpec(host, rows, maxRows) == []
  {
    assert Sample(rows, maxRows) == [];
  }

  /** `inferSchema`: the keys of the sample in first-seen order, then for each key a
      scan of the sample that bumps one counter per present cell. */
  method InferSchema(host: Host, rows: seq<Row>, maxRows: int) returns (schema: Schema)
    ensures schema == InferSchemaSpec(host, rows, maxRows)
  {
    var sample := rows[..SliceEnd(|rows|, maxRows)];
    var keys := Distinct(AllKeys(sample));
    schema := [];
    var c := 0;
    while c < |keys|
      invariant c <= |keys|
      invariant |schema| == c
      invariant forall p :: 0 <= p < c ==> schema[p] == Column(host, sample, keys[p])
    {
      var counts := TallyColumn(host, sample, keys[c]);
      schema := schema + [ColumnEntry(keys[c], PickType(counts))];
      c := c + 1;
    }
  }

  lemma TallyStep(host: Host, sample: seq<Row>, key: string, i: nat)
    requires i < |sample|
    ensures var b := Classify(host, Get(sample[i], key));
      Tally(host, sample[..i + 1], key) == if b.Some? then Bump(Tally(host, sample[..i], key), b.value) else Tally(host, sample[..i], key)
  {
    assert sample[..i + 1][..i] == sample[..i];
  }

  /** The counting loop of `inferSchema` for one key. */
  method TallyColumn(host: Host, sample: seq<Row>, key: string) returns (counts: Counts)
    ensures counts == Tally(host, sample, key)
  {
    counts := NoCounts;
    var i := 0;
    while i < |sample|
      invariant i <= |sample|
      invariant counts == Tally(host, sample[..i], key)
    {
      TallyStep(host, sample, key, i);
      var v := Get(sample[i], key);
      if v.Some? && v.value != Null && v.value != Str("") {
        match v.value {
          case Null =>
          case Num(_) => counts := Bump(counts, Number);
          case NaN => counts := Bump(counts, Number);
          case Bool(_) => counts := Bump(counts, Boolean);
          case Str(s) =>
            var t := Trim(s);
            if ToLower(t) == "true" || ToLower(t) == "false" {
              counts := Bump(counts, Boolean);
            } else if host.parseNumber(t).Some? {
              counts := Bump(counts, Number);
            } else if IsDateLike(t) {
              counts := Bump(counts, Date);
            } else {
              counts := Bump(counts, String);
            }
        }
      }
      i := i + 1;
    }
    assert sample[..i] == sample;
  }
}
