/** Stage C of `cleanData` (lib/cleaning.ts): two rows are duplicates when the
    records of their values under the dedupe keys serialize to the same JSON text,
    and only the first row of each such group is kept. */
module Dedupe {
  import opened Options
  import opened Seqs
  import opened Types

  /** One property of the serialized record: `JSON.stringify` leaves out a property
      whose value is `undefined`, and prints both `null` and NaN as `null`. */
  datatype SigValue = Omitted | JNull | JNum(x: real) | JStr(s: string) | JBool(b: bool)

  function SigOf(v: Option<Cell>): (j: SigValue)
    ensures j == Omitted <==> v.None?
    ensures j == JNull <==> v == Some(Null) || v == Some(NaN)
    ensures forall x :: j == JNum(x) <==> v == Some(Num(x))
    ensures forall s :: j == JStr(s) <==> v == Some(Str(s))
    ensures forall b :: j == JBool(b) <==> v == Some(Bool(b))
  {
    match v
    case None => Omitted
    case Some(c) =>
      match c
      case Num(x) => JNum(x)
      case NaN => JNull
      case Str(s) => JStr(s)
      case Bool(b) => JBool(b)
      case Null => JNull
  }

  /** The serialized record, one property per distinct key in first-seen order. */
  type Sig = seq<SigValue>

  function Signature(r: Row, keys: seq<string>): (g: Sig)
    ensures |g| == |Distinct(keys)|
  {
    var d := Distinct(keys);
    seq(|d|, i requires 0 <= i < |d| => SigOf(Get(r, d[i])))
  }

  /** Two rows have the same signature exactly when they serialize alike under
      every dedupe key; a key listed twice counts once. */
  lemma SameSignature(a: Row, b: Row, keys: seq<string>)
    ensures Signature(a, keys) == Signature(b, keys) <==>
              forall k :: k in keys ==> SigOf(Get(a, k)) == SigOf(Get(b, k))
  {
    var d := Distinct(keys);
    if Signature(a, keys) == Signature(b, keys) {
      forall k | k in keys ensures SigOf(Get(a, k)) == SigOf(Get(b, k)) {
        assert k in d;
        var i :| 0 <= i < |d| && d[i] == k;
        assert Signature(a, keys)[i] == Signature(b, keys)[i];
      }
    }
  }

  /** The keys the record is built from: every schema column for `'all'`. */
  function DedupeKeyList(keys: DedupeKeys, schema: Schema): seq<string>
  {
    match keys
    case AllColumns => Keys(schema)
    case KeyList(ks) => ks
  }

  /** The set `seen` after the loop has visited `rows`. */
  function SeenSigs(rows: Table, keys: seq<string>): set<Sig>
    decreases |rows|
  {
    if |rows| == 0 then {}
    else SeenSigs(rows[..|rows| - 1], keys) + {Signature(rows[|rows| - 1], keys)}
  }

  lemma SeenSigsMembers(rows: Table, keys: seq<string>, g: Sig)
    ensures g in SeenSigs(rows, keys) <==> exists i :: 0 <= i < |rows| && Signature(rows[i], keys) == g
  {
    if g in SeenSigs(rows, keys) {
      var i := SeenSigWitness(rows, keys, g);
    }
    if exists i :: 0 <= i < |rows| && Signature(rows[i], keys) == g {
      var i :| 0 <= i < |rows| && Signature(rows[i], keys) == g;
      SeenSigOfRow(rows, keys, i);
    }
  }

  /** A seen signature is the signature of some row. */
  lemma {:induction false} SeenSigWitness(rows: Table, keys: seq<string>, g: Sig) returns (i: nat)
    requires g in SeenSigs(rows, keys)
    ensures i < |rows| && Signature(rows[i], keys) == g
    decreases |rows|
  {
    var p := rows[..|rows| - 1];
    if g == Signature(rows[|rows| - 1], keys) {
      i := |rows| - 1;
    } else {
      i := SeenSigWitness(p, keys, g);
      assert rows[i] == p[i];
    }
  }

  /** The signature of every row is seen. */
  lemma {:induction false} SeenSigOfRow(rows: Table, keys: seq<string>, i: nat)
    requires i < |rows|
    ensures Signature(rows[i], keys) in SeenSigs(rows, keys)
    decreases |rows|
  {
    var p := rows[..|rows| - 1];
    if i < |rows| - 1 {
      SeenSigOfRow(p, keys, i);
      assert p[i] == rows[i];
    }
  }

  lemma SeenSigsSnoc(rows: Table, r: Row, keys: seq<string>)
    ensures SeenSigs(rows + [r], keys) == SeenSigs(rows, keys) + {Signature(r, keys)}
  {
    assert (rows + [r])[..|rows|] == rows;
  }

  /** The rows the loop keeps: a row whose signature was seen before is dropped. */
  function DedupeRows(rows: Table, keys: seq<string>): Table
    decreases |rows|
  {
    if |rows| == 0 then []
    else
      var p := rows[..|rows| - 1];
      var r := rows[|rows| - 1];
      if Signature(r, keys) in SeenSigs(p, keys) then DedupeRows(p, keys) else DedupeRows(p, keys) + [r]
  }

  /** The rows kept are rows of the input, in their original order. */
  lemma {:induction false} DedupeSubsequence(rows: Table, keys: seq<string>)
    ensures IsSubsequence(DedupeRows(rows, keys), rows)
    decreases |rows|
  {
    if |rows| == 0 {
    } else {
      var p := rows[..|rows| - 1];
      var r := rows[|rows| - 1];
      DedupeSubsequence(p, keys);
      assert rows == p + [r];
      if Signature(r, keys) in SeenSigs(p, keys) {
        SubsequenceSkip(DedupeRows(p, keys), p, r);
      } else {
        SubsequenceKeep(DedupeRows(p, keys), p, r);
      }
    }
  }

  /** Every signature of the input survives: no group of duplicates is lost. */
  lemma {:induction false} DedupeKeepsEverySignature(rows: Table, keys: seq<string>)
    ensures SeenSigs(DedupeRows(rows, keys), keys) == SeenSigs(rows, keys)
    decreases |rows|
  {
    if |rows| > 0 {
      var p := rows[..|rows| - 1];
      var r := rows[|rows| - 1];
      DedupeKeepsEverySignature(p, keys);
      SeenSigsSnoc(DedupeRows(p, keys), r, keys);
    }
  }

  /** No two rows of `rows` share a signature. */
  predicate UniqueSigs(rows: Table, keys: seq<string>)
  {
    forall i, j :: 0 <= i < j < |rows| ==> Signature(rows[i], keys) != Signature(rows[j], keys)
  }

  /** No two rows kept share a signature. */
  lemma {:induction false} DedupeUnique(rows: Table, keys: seq<string>)
    ensures UniqueSigs(DedupeRows(rows, keys), keys)
    decreases |rows|
  {
    if |rows| > 0 {
      var p := rows[..|rows| - 1];
      var r := rows[|rows| - 1];
      var outP := DedupeRows(p, keys);
      DedupeUnique(p, keys);
      if Signature(r, keys) !in SeenSigs(p, keys) {
        DedupeKeepsEverySignature(p, keys);
        var out := outP + [r];
        forall i, j | 0 <= i < j < |out| ensures Signature(out[i], keys) != Signature(out[j], keys) {
          assert out[i] == outP[i];
          if j < |outP| {
            assert out[j] == outP[j];
          } else {
            SeenSigsMembers(outP, keys, Signature(outP[i], keys));
          }
        }
      }
    }
  }

  /** As many rows are kept as there are distinct signatures, so
      `removedDuplicates` is the number of rows minus that count. */
  lemma {:induction false} DedupeCount(rows: Table, keys: seq<string>)
    ensures |DedupeRows(rows, keys)| == |SeenSigs(rows, keys)|
    decreases |rows|
  {
    if |rows| > 0 {
      var p := rows[..|rows| - 1];
      var g := Signature(rows[|rows| - 1], keys);
      DedupeCount(p, keys);
      if g !in SeenSigs(p, keys) {
        assert |SeenSigs(p, keys) + {g}| == |SeenSigs(p, keys)| + 1;
      } else {
        assert SeenSigs(p, keys) + {g} == SeenSigs(p, keys);
      }
    }
  }

  /** The row at position `i` is the first of its group. */
  predicate FirstOfGroup(rows: Table, keys: seq<string>, i: nat)
    requires i < |rows|
  {
    forall j :: 0 <= j < i ==> Signature(rows[j], keys) != Signature(rows[i], keys)
  }

  /** Reference definition: the rows that are the first of their group, in order. */
  function FirstOfEachGroup(rows: Table, keys: seq<string>): Table
    decreases |rows|
  {
    if |rows| == 0 then []
    else
      var p := rows[..|rows| - 1];
      FirstOfEachGroup(p, keys) + (if FirstOfGroup(rows, keys, |rows| - 1) then [rows[|rows| - 1]] else [])
  }

  /** The loop keeps exactly the first row of every group. */
  lemma {:induction false} DedupeKeepsFirstOfEachGroup(rows: Table, keys: seq<string>)
    ensures DedupeRows(rows, keys) == FirstOfEachGroup(rows, keys)
    decreases |rows|
  {
    if |rows| > 0 {
      var p := rows[..|rows| - 1];
      var r := rows[|rows| - 1];
      DedupeKeepsFirstOfEachGroup(p, keys);
      SeenSigsMembers(p, keys, Signature(r, keys));
      if FirstOfGroup(rows, keys, |rows| - 1) {
        forall i | 0 <= i < |p| ensures Signature(p[i], keys) != Signature(r, keys) {
          assert p[i] == rows[i];
        }
      } else {
        var j :| 0 <= j < |rows| - 1 && Signature(rows[j], keys) == Signature(r, keys);
        assert p[j] == rows[j];
        assert FirstOfEachGroup(p, keys) + [] == FirstOfEachGroup(p, keys);
      }
    }
  }

  /** Deduplicating twice is deduplicating once. */
  lemma DedupeIdempotent(rows: Table, keys: seq<string>)
    ensures DedupeRows(DedupeRows(rows, keys), keys) == DedupeRows(rows, keys)
  {
    var out := DedupeRows(rows, keys);
    DedupeUnique(rows, keys);
    UniqueUnchanged(out, keys);
  }

  /** A table whose signatures are pairwise distinct is left as it is. */
  lemma {:induction false} UniqueUnchanged(rows: Table, keys: seq<string>)
    requires UniqueSigs(rows, keys)
    ensures DedupeRows(rows, keys) == rows
    decreases |rows|
  {
    if |rows| > 0 {
      var p := rows[..|rows| - 1];
      var r := rows[|rows| - 1];
      UniqueUnchanged(p, keys);
      SeenSigsMembers(p, keys, Signature(r, keys));
      assert rows == p + [r];
    }
  }

  /** The result of Stage C: the rows kept and `removedDuplicates`. */
  datatype StageC = StageC(rows: Table, removed: nat)

  function DedupeStage(opts: DedupeOptions, schema: Schema, rows: Table): (c: StageC)
    ensures !opts.enabled ==> c == StageC(rows, 0)
    ensures |rows| == |c.rows| + c.removed
    ensures IsSubsequence(c.rows, rows)
  {
    if !opts.enabled then
      assert IsSubsequence(rows, rows) by { SubsequenceRefl(rows); }
      StageC(rows, 0)
    else
      var out := DedupeRows(rows, DedupeKeyList(opts.keys, schema));
      DedupeSubsequence(rows, DedupeKeyList(opts.keys, schema));
      SubsequenceLength(out, rows);
      StageC(out, |rows| - |out|)
  }

  /** The loop of Stage C with its `seen` set. */
  method Dedupe(rows: Table, keys: seq<string>) returns (filtered: Table)
    ensures filtered == DedupeRows(rows, keys)
  {
    var seen: set<Sig> := {};
    filtered := [];
    var i := 0;
    while i < |rows|
      invariant i <= |rows|
      invariant seen == SeenSigs(rows[..i], keys)
      invariant filtered == DedupeRows(rows[..i], keys)
    {
      assert rows[..i + 1][..i] == rows[..i];
      var r := rows[i];
      var sig := Signature(r, keys);
      if sig !in seen {
        seen := seen + {sig};
        filtered := filtered + [r];
      }
      i := i + 1;
    }
    assert rows[..i] == rows;
  }
}
