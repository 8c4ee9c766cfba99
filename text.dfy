/** The JavaScript string operations the core uses: `trim`, `toLowerCase`,
    `toUpperCase`, the `\w` and `\s` regular-expression classes, and `join`.
    Case mapping is modelled on ASCII letters only. */
module Text {
  import Seqs

  /** JavaScript's WhiteSpace and LineTerminator characters: what `trim` removes
      and what `\s` matches. */
  predicate IsSpace(c: char)
  {
    var n := c as int;
    (0x09 <= n <= 0x0D) || n == 0x20 || n == 0xA0 || n == 0x1680 || (0x2000 <= n <= 0x200A)
    || n == 0x2028 || n == 0x2029 || n == 0x202F || n == 0x205F || n == 0x3000 || n == 0xFEFF
  }

  /** The `\w` class of a regular expression without the `u` flag. */
  predicate IsWordChar(c: char)
  {
    ('a' <= c <= 'z') || ('A' <= c <= 'Z') || ('0' <= c <= '9') || c == '_'
  }

  predicate IsTrimmed(s: string)
  {
    |s| == 0 || (!IsSpace(s[0]) && !IsSpace(s[|s| - 1]))
  }

  function TrimStart(s: string): (r: string)
    ensures |r| <= |s| && r == s[|s| - |r|..]
    ensures forall i :: 0 <= i < |s| - |r| ==> IsSpace(s[i])
    ensures |r| > 0 ==> !IsSpace(r[0])
  {
    if |s| > 0 && IsSpace(s[0]) then TrimStart(s[1..]) else s
  }

  function TrimEnd(s: string): (r: string)
    ensures |r| <= |s| && r == s[..|r|]
    ensures forall i :: |r| <= i < |s| ==> IsSpace(s[i])
    ensures |r| > 0 ==> !IsSpace(r[|r| - 1])
  {
    if |s| > 0 && IsSpace(s[|s| - 1]) then TrimEnd(s[..|s| - 1]) else s
  }

  /** `String.prototype.trim`: the longest infix of `s` that neither starts nor ends
      with white space. */
  function Trim(s: string): (r: string)
    ensures IsTrimmed(r)
    ensures |r| <= |s|
    ensures IsTrimmed(s) ==> r == s
    ensures exists i, j ::
      && 0 <= i <= j <= |s| && r == s[i..j]
      && (forall k :: 0 <= k < i || j <= k < |s| ==> IsSpace(s[k]))
  {
    var a := TrimStart(s);
    var b := TrimEnd(a);
    var i := |s| - |a|;
    InfixBetweenSpaces(s, a, b, i);
    assert 0 <= i <= i + |b| <= |s| && b == s[i..i + |b|]
      && (forall k :: 0 <= k < i || i + |b| <= k < |s| ==> IsSpace(s[k]));
    b
  }

  /** `b`, a prefix of the suffix `a` of `s`, is an infix of `s` with white space
      on both sides of it. */
  lemma InfixBetweenSpaces(s: string, a: string, b: string, i: nat)
    requires i + |a| == |s| && a == s[i..] && |b| <= |a| && b == a[..|b|]
    requires forall k :: 0 <= k < i ==> IsSpace(s[k])
    requires forall k :: |b| <= k < |a| ==> IsSpace(a[k])
    ensures b == s[i..i + |b|]
    ensures forall k :: 0 <= k < i || i + |b| <= k < |s| ==> IsSpace(s[k])
  {
    assert s[i..][..|b|] == s[i..i + |b|];
    forall k | 0 <= k < i || i + |b| <= k < |s|
      ensures IsSpace(s[k])
    {
      if i <= k {
        assert s[k] == a[k - i];
      }
    }
  }

  function LowerChar(c: char): char
  {
    if 'A' <= c <= 'Z' then (c as int + 32) as char else c
  }

  function UpperChar(c: char): char
  {
    if 'a' <= c <= 'z' then (c as int - 32) as char else c
  }

  function ToLower(s: string): (r: string)
    ensures |r| == |s|
    ensures forall i :: 0 <= i < |s| ==> r[i] == LowerChar(s[i])
  {
    seq(|s|, i requires 0 <= i < |s| => LowerChar(s[i]))
  }

  function ToUpper(s: string): (r: string)
    ensures |r| == |s|
    ensures forall i :: 0 <= i < |s| ==> r[i] == UpperChar(s[i])
  {
    seq(|s|, i requires 0 <= i < |s| => UpperChar(s[i]))
  }

  /** `toLowerCase` leaves no ASCII capital, leaves every other character as it is,
      and changes letters only in case. */
  lemma ToLowerCharacterised(s: string)
    ensures |ToLower(s)| == |s|
    ensures forall i :: 0 <= i < |s| ==> !('A' <= ToLower(s)[i] <= 'Z')
    ensures forall i :: 0 <= i < |s| && !('A' <= s[i] <= 'Z') ==> ToLower(s)[i] == s[i]
    ensures forall i :: 0 <= i < |s| ==> UpperChar(ToLower(s)[i]) == UpperChar(s[i])
  {
  }

  /** `toUpperCase` leaves no ASCII small letter, leaves every other character as
      it is, and changes letters only in case. */
  lemma ToUpperCharacterised(s: string)
    ensures |ToUpper(s)| == |s|
    ensures forall i :: 0 <= i < |s| ==> !('a' <= ToUpper(s)[i] <= 'z')
    ensures forall i :: 0 <= i < |s| && !('a' <= s[i] <= 'z') ==> ToUpper(s)[i] == s[i]
    ensures forall i :: 0 <= i < |s| ==> LowerChar(ToUpper(s)[i]) == LowerChar(s[i])
  {
  }

  /** The length of the longest prefix of `s` without white space (what `\S*` matches). */
  function NonSpaceRun(s: string): (n: nat)
    ensures n <= |s|
    ensures forall i :: 0 <= i < n ==> !IsSpace(s[i])
    ensures n == |s| || IsSpace(s[n])
  {
    if |s| == 0 || IsSpace(s[0]) then 0 else 1 + NonSpaceRun(s[1..])
  }

  /** Title casing by a global regular-expression replacement: every token that
      starts with a word character and runs up to the next white space gets an
      upper-case first character and a lower-case rest. White space is never
      touched, so token boundaries survive the transformation. */
  function TitleCase(s: string): (r: string)
    ensures |r| == |s|
    decreases |s|
  {
    if |s| == 0 then ""
    else if IsWordChar(s[0]) then
      var n := 1 + NonSpaceRun(s[1..]);
      [UpperChar(s[0])] + ToLower(s[1..n]) + TitleCase(s[n..])
    else
      [s[0]] + TitleCase(s[1..])
  }

  /** `parts.join(sep)`. */
  function Join(parts: seq<string>, sep: string): (r: string)
    ensures |parts| == 1 ==> r == parts[0]
    ensures |parts| == 0 ==> r == ""
  {
    if |parts| == 0 then ""
    else if |parts| == 1 then parts[0]
    else parts[0] + sep + Join(parts[1..], sep)
  }

  /** Joining two or more parts puts the separator between the join of all but
      the last part and the last part. */
  lemma {:induction false} JoinSnoc(parts: seq<string>, sep: string)
    requires |parts| >= 2
    ensures Join(parts, sep) == Join(parts[..|parts| - 1], sep) + sep + parts[|parts| - 1]
    decreases |parts|
  {
    if |parts| > 2 {
      var tail := parts[1..];
      var init := parts[..|parts| - 1];
      JoinSnoc(tail, sep);
      assert tail[|tail| - 1] == parts[|parts| - 1];
      assert init[1..] == tail[..|tail| - 1];
      Seqs.ConcatAssoc(parts[0] + sep, Join(init[1..], sep), sep + parts[|parts| - 1]);
    }
  }

  /** Re-casing starts at the first word character of a token: a leading
      punctuation mark stays in front of the capital. */
  lemma TitleCaseAfterPunctuation()
    ensures TitleCase("(abc") == "(Abc"
  {
    assert NonSpaceRun("bc"[1..]) == 1 + NonSpaceRun("");
    assert NonSpaceRun("bc") == 2;
    assert "abc" == ['a'] + "bc";
    assert "abc"[1..] == "bc";
    assert "abc"[1..3] == "bc";
    assert "abc"[3..] == "";
    assert ToLower("bc") == "bc";
    assert TitleCase("abc") == "Abc";
    assert "(abc"[1..] == "abc";
  }

  /** A leading digit takes the place of the capital, so every letter after it
      is lowered. */
  lemma TitleCaseAfterDigit()
    ensures TitleCase("1AB") == "1ab"
  {
    assert NonSpaceRun("AB"[1..]) == 1 + NonSpaceRun("");
    assert NonSpaceRun("AB") == 2;
    assert "1AB" == ['1'] + "AB";
    assert "1AB"[1..] == "AB";
    assert "1AB"[1..3] == "AB";
    assert "1AB"[3..] == "";
    assert ToLower("AB") == "ab";
  }

  /** Title casing never touches white space and never creates it, so token
      boundaries survive the transformation. */
  lemma {:induction false} TitleCaseKeepsSpaces(s: string)
    ensures forall i :: 0 <= i < |s| ==> (IsSpace(TitleCase(s)[i]) <==> IsSpace(s[i]))
    ensures forall i :: 0 <= i < |s| && IsSpace(s[i]) ==> TitleCase(s)[i] == s[i]
    decreases |s|
  {
    if |s| > 0 {
      var t := TitleCase(s);
      if IsWordChar(s[0]) {
        var n := 1 + NonSpaceRun(s[1..]);
        var low := ToLower(s[1..n]);
        var rest := TitleCase(s[n..]);
        TitleCaseKeepsSpaces(s[n..]);
        assert t == [UpperChar(s[0])] + low + rest;
        WordKeepsSpaces(s, t, n, low, rest);
      } else {
        TitleCaseKeepsSpaces(s[1..]);
        assert t == [s[0]] + TitleCase(s[1..]);
        forall i | 0 <= i < |s| ensures (IsSpace(t[i]) <==> IsSpace(s[i])) && (IsSpace(s[i]) ==> t[i] == s[i])
        {
          if i > 0 {
            assert t[i] == TitleCase(s[1..])[i - 1] && s[i] == s[1..][i - 1];
          }
        }
      }
    }
  }

  /** The spaces of a title-cased leading token and of the rest that follows it. */
  lemma WordKeepsSpaces(s: string, t: string, n: nat, low: string, rest: string)
    requires 1 <= n <= |s| && IsWordChar(s[0]) && (forall i :: 1 <= i < n ==> !IsSpace(s[i]))
    requires low == ToLower(s[1..n]) && |rest| == |s| - n
    requires t == [UpperChar(s[0])] + low + rest
    requires forall i :: 0 <= i < |rest| ==> (IsSpace(rest[i]) <==> IsSpace(s[n..][i]))
    requires forall i :: 0 <= i < |rest| && IsSpace(s[n..][i]) ==> rest[i] == s[n..][i]
    ensures forall i :: 0 <= i < |s| ==> (IsSpace(t[i]) <==> IsSpace(s[i]))
    ensures forall i :: 0 <= i < |s| && IsSpace(s[i]) ==> t[i] == s[i]
  {
    ConsSlices(UpperChar(s[0]), low, rest);
    UpperCharStable(s[0]);
    forall i | 0 <= i < |s| ensures (IsSpace(t[i]) <==> IsSpace(s[i])) && (IsSpace(s[i]) ==> t[i] == s[i])
    {
      if i == 0 {
      } else if i < n {
        assert s[i] == s[1..n][i - 1];
        assert t[i] == low[i - 1] == LowerChar(s[i]);
      } else {
        assert t[i] == rest[i - n] && s[i] == s[n..][i - n];
      }
    }
  }

  lemma {:induction false} TitleCaseIdempotent(s: string)
    ensures TitleCase(TitleCase(s)) == TitleCase(s)
    decreases |s|
  {
    if |s| > 0 {
      var t := TitleCase(s);
      if IsWordChar(s[0]) {
        var n := 1 + NonSpaceRun(s[1..]);
        TitleCaseWordHead(s);
        TitleCaseIdempotent(s[n..]);
        ToLowerIdempotent(s[1..n]);
      } else {
        assert t[1..] == TitleCase(s[1..]);
        TitleCaseIdempotent(s[1..]);
      }
    }
  }

  /** Title casing a leading token leaves a token of the same length that title
      casing rewrites to itself, followed by the title-cased rest. */
  lemma TitleCaseWordHead(s: string)
    requires |s| > 0 && IsWordChar(s[0])
    ensures var n := 1 + NonSpaceRun(s[1..]);
      var t := TitleCase(s);
      && IsWordChar(t[0]) && UpperChar(t[0]) == t[0] && t[0] == UpperChar(s[0])
      && 1 + NonSpaceRun(t[1..]) == n
      && t[1..n] == ToLower(s[1..n])
      && t[n..] == TitleCase(s[n..])
  {
    var n := 1 + NonSpaceRun(s[1..]);
    var rest := TitleCase(s[n..]);
    var low := ToLower(s[1..n]);
    TokenThenSpace(s, n, low, rest);
    UpperCharStable(s[0]);
    HeadParts(TitleCase(s), UpperChar(s[0]), low, rest, n);
  }

  lemma UpperCharStable(c: char)
    requires IsWordChar(c)
    ensures IsWordChar(UpperChar(c)) && UpperChar(UpperChar(c)) == UpperChar(c)
  {
  }

  /** A leading character, a token, then text that starts with white space. */
  lemma HeadParts(t: string, c: char, low: string, rest: string, n: nat)
    requires t == [c] + low + rest && n == 1 + |low|
    requires forall i :: 0 <= i < |low| ==> !IsSpace(low[i])
    requires |rest| == 0 || IsSpace(rest[0])
    ensures t[0] == c && 1 + NonSpaceRun(t[1..]) == n && t[1..n] == low && t[n..] == rest
  {
    ConsSlices(c, low, rest);
    NonSpaceRunOfConcat(low, rest);
  }

  lemma ConsSlices<T>(c: T, a: seq<T>, b: seq<T>)
    ensures var t := [c] + a + b;
      t[0] == c && t[1..] == a + b && t[1..1 + |a|] == a && t[1 + |a|..] == b
  {
  }

  /** The lower-cased token of a word has no white space, and what follows it is
      empty or starts with white space. */
  lemma TokenThenSpace(s: string, n: nat, low: string, rest: string)
    requires |s| > 0 && n == 1 + NonSpaceRun(s[1..])
    requires low == ToLower(s[1..n]) && rest == TitleCase(s[n..])
    ensures forall i :: 0 <= i < |low| ==> !IsSpace(low[i])
    ensures |rest| == 0 || IsSpace(rest[0])
  {
    forall i | 0 <= i < |low| ensures !IsSpace(low[i]) {
      assert low[i] == LowerChar(s[1..][i]);
    }
    if n < |s| {
      TitleCaseKeepsSpaces(s[n..]);
      assert s[n] == s[1..][n - 1];
      assert IsSpace(s[n..][0]);
    }
  }

  lemma {:induction false} NonSpaceRunOfConcat(a: string, b: string)
    requires forall i :: 0 <= i < |a| ==> !IsSpace(a[i])
    requires |b| == 0 || IsSpace(b[0])
    ensures NonSpaceRun(a + b) == |a|
    decreases |a|
  {
    if |a| > 0 {
      assert (a + b)[1..] == a[1..] + b;
      NonSpaceRunOfConcat(a[1..], b);
    } else {
      assert a + b == b;
    }
  }

  lemma ToLowerIdempotent(s: string)
    ensures ToLower(ToLower(s)) == ToLower(s)
  {
  }

  lemma ToUpperIdempotent(s: string)
    ensures ToUpper(ToUpper(s)) == ToUpper(s)
  {
  }

  /** Case mapping touches letters only, so a trimmed string stays trimmed. */
  lemma CaseMapsKeepTrimmed(s: string)
    ensures IsTrimmed(s) ==> IsTrimmed(ToLower(s)) && IsTrimmed(ToUpper(s)) && IsTrimmed(TitleCase(s))
  {
    if IsTrimmed(s) && |s| > 0 {
      CaseCharSpaces(s[0]);
      CaseCharSpaces(s[|s| - 1]);
      TitleCaseKeepsSpaces(s);
    }
  }

  lemma CaseCharSpaces(c: char)
    ensures IsSpace(LowerChar(c)) == IsSpace(c) && IsSpace(UpperChar(c)) == IsSpace(c)
  {
  }
}
