/** Sequence facts shared by the inferencer and the pipeline stages. */
module Seqs {

  predicate NoDuplicates<T(==)>(s: seq<T>)
  {
    forall i, j :: 0 <= i < j < |s| ==> s[i] != s[j]
  }

  /** The elements of `s`, each once, in order of first occurrence: what
      `Array.from(new Set(s))` and the insertion order of a JavaScript Map give. */
  function Distinct<T(==, !new)>(s: seq<T>): (d: seq<T>)
    ensures forall x :: x in d <==> x in s
    ensures NoDuplicates(d)
    ensures |d| <= |s|
    decreases |s|
  {
    if |s| == 0 then []
    else
      var d := Distinct(s[..|s| - 1]);
      if s[|s| - 1] in d then d else d + [s[|s| - 1]]
  }

  /** The position of the first occurrence of `x` in `s`. */
  function FirstIndex<T(==)>(s: seq<T>, x: T): (i: nat)
    requires x in s
    ensures i < |s| && s[i] == x
    ensures forall j :: 0 <= j < i ==> s[j] != x
  {
    if s[0] == x then 0 else 1 + FirstIndex(s[1..], x)
  }

  lemma {:induction false} FirstIndexOfPrefix<T>(s: seq<T>, k: nat, x: T)
    requires k <= |s| && x in s[..k]
    ensures FirstIndex(s, x) == FirstIndex(s[..k], x)
  {
    var i := FirstIndex(s[..k], x);
    var j := FirstIndex(s, x);
    assert s[i] == x;
  }

  /** `Distinct` lists the elements in the order in which they are first seen. */
  lemma {:induction false} DistinctFirstSeenOrder<T(!new)>(s: seq<T>, i: nat, j: nat)
    requires i < j < |Distinct(s)|
    ensures FirstIndex(s, Distinct(s)[i]) < FirstIndex(s, Distinct(s)[j])
    decreases |s|
  {
    var p := s[..|s| - 1];
    var y := s[|s| - 1];
    var d := Distinct(p);
    assert s == p + [y];
    var a, b := Distinct(s)[i], Distinct(s)[j];
    assert a in d by { assert i < |d|; }
    assert a in p;
    FirstIndexOfPrefix(s, |s| - 1, a);
    if j < |d| {
      assert b in p;
      FirstIndexOfPrefix(s, |s| - 1, b);
      DistinctFirstSeenOrder(p, i, j);
    } else {
      assert b == y && y !in d;
      assert y !in p;
      assert FirstIndex(s, b) == |s| - 1 by {
        forall k | 0 <= k < |s| - 1 ensures s[k] != y { assert s[k] == p[k]; }
      }
    }
  }

  /** A sequence without repetitions is its own `Distinct`. */
  lemma {:induction false} DistinctOfNoDuplicates<T(!new)>(s: seq<T>)
    requires NoDuplicates(s)
    ensures Distinct(s) == s
    decreases |s|
  {
    if |s| > 0 {
      var p := s[..|s| - 1];
      assert NoDuplicates(p);
      DistinctOfNoDuplicates(p);
      assert s[|s| - 1] !in p;
      assert p + [s[|s| - 1]] == s;
    }
  }

  /** `xs` is obtained from `ys` by deleting elements, keeping the order of the rest. */
  predicate IsSubsequence<T(==)>(xs: seq<T>, ys: seq<T>)
    decreases |ys|
  {
    if |xs| == 0 then true
    else if |ys| == 0 then false
    else
      (xs[|xs| - 1] == ys[|ys| - 1] && IsSubsequence(xs[..|xs| - 1], ys[..|ys| - 1]))
      || IsSubsequence(xs, ys[..|ys| - 1])
  }

  lemma {:induction false} SubsequenceRefl<T>(s: seq<T>)
    ensures IsSubsequence(s, s)
    decreases |s|
  {
    if |s| > 0 {
      SubsequenceRefl(s[..|s| - 1]);
    }
  }

  lemma {:induction false} SubsequenceSkip<T>(xs: seq<T>, ys: seq<T>, y: T)
    requires IsSubsequence(xs, ys)
    ensures IsSubsequence(xs, ys + [y])
  {
    if |xs| > 0 {
      assert (ys + [y])[..|ys|] == ys;
    }
  }

  lemma {:induction false} SubsequenceKeep<T>(xs: seq<T>, ys: seq<T>, y: T)
    requires IsSubsequence(xs, ys)
    ensures IsSubsequence(xs + [y], ys + [y])
  {
    assert (xs + [y])[..|xs|] == xs;
    assert (ys + [y])[..|ys|] == ys;
  }

  lemma {:induction false} SubsequenceLength<T>(xs: seq<T>, ys: seq<T>)
    requires IsSubsequence(xs, ys)
    ensures |xs| <= |ys|
    decreases |ys|
  {
    if |xs| > 0 {
      if xs[|xs| - 1] == ys[|ys| - 1] && IsSubsequence(xs[..|xs| - 1], ys[..|ys| - 1]) {
        SubsequenceLength(xs[..|xs| - 1], ys[..|ys| - 1]);
      } else {
        SubsequenceLength(xs, ys[..|ys| - 1]);
      }
    }
  }

  /** Every element of a subsequence is an element of the sequence. */
  lemma {:induction false} SubsequenceMembers<T>(xs: seq<T>, ys: seq<T>, x: T)
    requires IsSubsequence(xs, ys) && x in xs
    ensures x in ys
    decreases |ys|
  {
    if xs[|xs| - 1] == ys[|ys| - 1] && IsSubsequence(xs[..|xs| - 1], ys[..|ys| - 1]) {
      if x != xs[|xs| - 1] {
        assert x in xs[..|xs| - 1];
        SubsequenceMembers(xs[..|xs| - 1], ys[..|ys| - 1], x);
      }
    } else {
      SubsequenceMembers(xs, ys[..|ys| - 1], x);
    }
  }

  /** The occurrences of every key in `ks`: the JavaScript record that
      `counts[k] = (counts[k] ?? 0) + 1` builds. */
  function Tallies(ks: seq<string>): (m: map<string, nat>)
  {
    map k | k in ks :: multiset(ks)[k]
  }

  lemma TalliesStep(ks: seq<string>, k: string)
    ensures Tallies(ks + [k]) == Tallies(ks)[k := (if k in Tallies(ks) then Tallies(ks)[k] else 0) + 1]
  {
    var l := Tallies(ks + [k]);
    var r := Tallies(ks)[k := (if k in Tallies(ks) then Tallies(ks)[k] else 0) + 1];
    assert multiset(ks + [k]) == multiset(ks) + multiset{k};
    assert l.Keys == r.Keys;
    forall x | x in l.Keys ensures l[x] == r[x] {
    }
  }

  lemma ConcatAssoc<T>(a: seq<T>, b: seq<T>, c: seq<T>)
    ensures (a + b) + c == a + (b + c)
  {
  }
}
