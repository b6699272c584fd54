/** The playlist title of a file name: `formatTrackName` in app.js. */
module AppNames {
  import opened Strings
  import opened Mp3Names

  predicate IsSeparator(c: char)
  {
    c == '-' || c == '_'
  }

  predicate NoSeparators(s: string)
  {
    forall i :: 0 <= i < |s| ==> !IsSeparator(s[i])
  }

  /** The text of `s` that formatting must keep: everything but separators and whitespace. */
  function Letters(s: string): string
  {
    if s == [] then []
    else (if IsSeparator(s[0]) || IsJsWhitespace(s[0]) then [] else [s[0]]) + Letters(s[1..])
  }

  lemma {:induction false} LettersConcat(a: string, b: string)
    ensures Letters(a + b) == Letters(a) + Letters(b)
  {
    if a == [] {
      assert a + b == b;
    } else {
      assert (a + b)[1..] == a[1..] + b;
      LettersConcat(a[1..], b);
    }
  }

  lemma {:induction false} LettersOfWhitespace(s: string)
    requires AllWhitespace(s)
    ensures Letters(s) == []
  {
    if s != [] {
      LettersOfWhitespace(s[1..]);
    }
  }

  /** Drops the run of separators at the front of `s`. */
  function DropSeparators(s: string): (r: string)
    ensures |r| <= |s|
    ensures r == [] || !IsSeparator(r[0])
  {
    if s != [] && IsSeparator(s[0]) then DropSeparators(s[1..]) else s
  }

  /** The separators dropped carry no letters. */
  lemma {:induction false} DropSeparatorsKeepsLetters(s: string)
    ensures Letters(DropSeparators(s)) == Letters(s)
  {
    if s != [] && IsSeparator(s[0]) {
      DropSeparatorsKeepsLetters(s[1..]);
    }
  }

  /** `s.replace(/[\-_]+/g, " ")`: every maximal run of `-` and `_` becomes one space. */
  function CollapseSeparators(s: string): string
    decreases |s|
  {
    if s == [] then []
    else if IsSeparator(s[0]) then
      var rest := DropSeparators(s);
      [' '] + CollapseSeparators(rest)
    else [s[0]] + CollapseSeparators(s[1..])
  }

  /** The collapsed text is no longer, has no separators left, and keeps every letter in order. */
  lemma {:induction false} CollapseSeparatorsSpec(s: string)
    ensures var r := CollapseSeparators(s);
      |r| <= |s| && NoSeparators(r) && Letters(r) == Letters(s)
    decreases |s|
  {
    if s != [] {
      var rest := if IsSeparator(s[0]) then DropSeparators(s) else s[1..];
      CollapseSeparatorsSpec(rest);
      if IsSeparator(s[0]) {
        DropSeparatorsKeepsLetters(s);
      }
      CollapseStep(s, rest);
    }
  }

  lemma CollapseStep(s: string, rest: string)
    requires s != []
    requires rest == if IsSeparator(s[0]) then DropSeparators(s) else s[1..]
    requires Letters(rest) == Letters(s) || !IsSeparator(s[0])
    requires var r := CollapseSeparators(rest);
      |r| <= |rest| && NoSeparators(r) && Letters(r) == Letters(rest)
    ensures var r := CollapseSeparators(s);
      |r| <= |s| && NoSeparators(r) && Letters(r) == Letters(s)
  {
    var c := if IsSeparator(s[0]) then ' ' else s[0];
    var r := CollapseSeparators(rest);
    assert CollapseSeparators(s) == [c] + r;
    LettersConcat([c], r);
    assert ([c] + r)[1..] == r;
    forall i | 0 <= i < |[c] + r|
      ensures !IsSeparator(([c] + r)[i])
    {
      if i > 0 {
        assert ([c] + r)[i] == r[i - 1];
      }
    }
  }

  /** A name without separators is not changed by the collapsing step. */
  lemma {:induction false} CollapseWithoutSeparators(s: string)
    requires NoSeparators(s)
    ensures CollapseSeparators(s) == s
  {
    if s != [] {
      CollapseWithoutSeparators(s[1..]);
    }
  }

  predicate AllSeparators(s: string)
  {
    forall i :: 0 <= i < |s| ==> IsSeparator(s[i])
  }

  /** Putting `a` before `t` does not join a run of separators across the seam. */
  predicate NoRunAcross(a: string, t: string)
  {
    a == [] || t == [] || !IsSeparator(a[|a| - 1]) || !IsSeparator(t[0])
  }

  /** A run of separators is dropped whole, up to the first character after it. */
  lemma {:induction false} DropRun(run: string, b: string)
    requires AllSeparators(run)
    requires b == [] || !IsSeparator(b[0])
    ensures DropSeparators(run + b) == b
  {
    if run == [] {
      assert run + b == b;
    } else {
      assert (run + b)[0] == run[0];
      assert (run + b)[1..] == run[1..] + b;
      forall i | 0 <= i < |run| - 1
        ensures IsSeparator(run[1..][i])
      {
        assert run[1..][i] == run[i + 1];
      }
      DropRun(run[1..], b);
    }
  }

  /** Dropping leading separators of `a + t` stops inside `a` unless a run crosses the seam. */
  lemma {:induction false} DropConcat(a: string, t: string)
    requires a != [] && NoRunAcross(a, t)
    ensures DropSeparators(a + t) == DropSeparators(a) + t
    ensures NoRunAcross(DropSeparators(a), t)
    decreases |a|
  {
    assert (a + t)[0] == a[0];
    if IsSeparator(a[0]) {
      assert (a + t)[1..] == a[1..] + t;
      if |a| == 1 {
        assert a[1..] + t == t;
      } else {
        assert a[1..][|a| - 2] == a[|a| - 1];
        DropConcat(a[1..], t);
      }
    }
  }

  lemma CollapseCons(c: char, s: string)
    requires !IsSeparator(c)
    ensures CollapseSeparators([c] + s) == [c] + CollapseSeparators(s)
  {
    assert ([c] + s)[0] == c && ([c] + s)[1..] == s;
  }

  lemma CollapseSeparatorStart(s: string)
    requires s != [] && IsSeparator(s[0])
    ensures CollapseSeparators(s) == " " + CollapseSeparators(DropSeparators(s))
  {
  }

  /** Collapsing works piece by piece wherever no run of separators crosses the seam. */
  lemma {:induction false} CollapseConcat(a: string, t: string)
    requires NoRunAcross(a, t)
    ensures CollapseSeparators(a + t) == CollapseSeparators(a) + CollapseSeparators(t)
    decreases |a|
  {
    if a == [] {
      assert a + t == t;
    } else if !IsSeparator(a[0]) {
      var tail := a[1..];
      if tail != [] {
        assert tail[|tail| - 1] == a[|a| - 1];
      }
      CollapseConcat(tail, t);
      ConcatStepOther(a[0], tail, t);
      SplitHead(a, t);
    } else {
      var d := DropSeparators(a);
      DropConcat(a, t);
      CollapseConcat(d, t);
      ConcatStepSeparator(a, t, d);
    }
  }

  lemma ConcatStepOther(c: char, tail: string, t: string)
    requires !IsSeparator(c)
    requires CollapseSeparators(tail + t) == CollapseSeparators(tail) + CollapseSeparators(t)
    ensures CollapseSeparators([c] + (tail + t)) == CollapseSeparators([c] + tail) + CollapseSeparators(t)
  {
    CollapseCons(c, tail + t);
    CollapseCons(c, tail);
    ConsAssoc(c, CollapseSeparators([c] + (tail + t)), CollapseSeparators([c] + tail),
      CollapseSeparators(tail), CollapseSeparators(t), CollapseSeparators(tail + t));
  }

  lemma SplitHead(a: string, t: string)
    requires a != []
    ensures a == [a[0]] + a[1..] && a + t == [a[0]] + (a[1..] + t)
  {
  }

  lemma ConsAssoc(c: char, p: string, q: string, x: string, y: string, z: string)
    requires p == [c] + z && z == x + y && q == [c] + x
    ensures p == q + y
  {
  }

  lemma ConcatStepSeparator(a: string, t: string, d: string)
    requires a != [] && IsSeparator(a[0]) && d == DropSeparators(a)
    requires DropSeparators(a + t) == d + t
    requires CollapseSeparators(d + t) == CollapseSeparators(d) + CollapseSeparators(t)
    ensures CollapseSeparators(a + t) == CollapseSeparators(a) + CollapseSeparators(t)
  {
    assert (a + t)[0] == a[0];
    CollapseSeparatorStart(a + t);
    CollapseSeparatorStart(a);
  }

  /** A whole run of `-` and `_` becomes exactly one space. */
  lemma CollapseRun(run: string, b: string)
    requires run != [] && AllSeparators(run)
    requires b == [] || !IsSeparator(b[0])
    ensures CollapseSeparators(run + b) == " " + CollapseSeparators(b)
  {
    assert (run + b)[0] == run[0];
    DropRun(run, b);
  }

  /** A run of separators between two other characters is replaced by a single space. */
  lemma CollapseRunBetween(a: string, run: string, b: string)
    requires run != [] && AllSeparators(run)
    requires a == [] || !IsSeparator(a[|a| - 1])
    requires b == [] || !IsSeparator(b[0])
    ensures CollapseSeparators(a + (run + b)) == CollapseSeparators(a) + (" " + CollapseSeparators(b))
  {
    CollapseConcat(a, run + b);
    CollapseRun(run, b);
  }

  /** Every other character, whitespace included, stays where it is. */
  lemma CollapseKeepsOther(a: string, c: char, b: string)
    requires !IsSeparator(c)
    ensures CollapseSeparators(a + ([c] + b)) == CollapseSeparators(a) + ([c] + CollapseSeparators(b))
  {
    CollapseConcat(a, [c] + b);
    CollapseCons(c, b);
  }

  /** `formatTrackName`: strip a trailing `.mp3`, collapse separators, trim. */
  function FormatTrackName(fileName: string): string
  {
    Trim(CollapseSeparators(StripMp3Suffix(fileName)))
  }

  /** Dropping the first character keeps a separator-free string separator-free. */
  lemma NoSeparatorsTail(s: string)
    requires s != []
    ensures NoSeparators(s) ==> NoSeparators(s[1..])
  {
    if NoSeparators(s) {
      forall i | 0 <= i < |s| - 1
        ensures !IsSeparator(s[1..][i])
      {
        assert s[1..][i] == s[i + 1];
      }
    }
  }

  lemma {:induction false} TrimStartKeepsLetters(s: string)
    ensures Letters(TrimStart(s)) == Letters(s)
    ensures NoSeparators(s) ==> NoSeparators(TrimStart(s))
  {
    if s != [] && IsJsWhitespace(s[0]) {
      var tail := s[1..];
      assert TrimStart(s) == TrimStart(tail);
      assert Letters(s) == Letters(tail);
      TrimStartKeepsLetters(tail);
      NoSeparatorsTail(s);
    }
  }

  lemma {:induction false} TrimEndKeepsLetters(s: string)
    ensures Letters(TrimEnd(s)) == Letters(s)
    ensures NoSeparators(s) ==> NoSeparators(TrimEnd(s))
  {
    if s != [] && IsJsWhitespace(s[|s| - 1]) {
      var init := s[..|s| - 1];
      TrimEndKeepsLetters(init);
      assert s == init + [s[|s| - 1]];
      LettersConcat(init, [s[|s| - 1]]);
    }
  }

  /**
   * The title has no `-` or `_`, no whitespace at either end, and keeps every
   * other character of the name with its extension stripped, in order.
   */
  lemma FormatTrackNameSpec(fileName: string)
    ensures var r := FormatTrackName(fileName);
      && NoSeparators(r)
      && (r == [] || (!IsJsWhitespace(r[0]) && !IsJsWhitespace(r[|r| - 1])))
      && Letters(r) == Letters(StripMp3Suffix(fileName))
  {
    var c := CollapseSeparators(StripMp3Suffix(fileName));
    CollapseSeparatorsSpec(StripMp3Suffix(fileName));
    TrimStartKeepsLetters(c);
    TrimEndKeepsLetters(TrimStart(c));
    TrimIsCentralSlice(c);
  }

  /** A name that is already a clean title comes back unchanged. */
  lemma FormatTrackNameKeepsCleanTitle(title: string)
    requires !HasMp3Suffix(title) && NoSeparators(title)
    requires title == [] || (!IsJsWhitespace(title[0]) && !IsJsWhitespace(title[|title| - 1]))
    ensures FormatTrackName(title) == title
  {
    CollapseWithoutSeparators(title);
    TrimUnchanged(title);
  }

  /** Only the last extension goes: `a.mp3.mp3` is shown as `a.mp3`. */
  lemma FormatTrackNameStripsOnce()
    ensures FormatTrackName("a.mp3.mp3") == "a.mp3"
  {
    assert StripMp3Suffix("a.mp3.mp3") == "a.mp3";
    CollapseWithoutSeparators("a.mp3");
    TrimUnchanged("a.mp3");
  }

  /** A clean title on each side of a run of separators: the title shows one space between them. */
  lemma FormatTrackNameJoinsWords(a: string, run: string, b: string)
    requires a != [] && NoSeparators(a) && !IsJsWhitespace(a[0])
    requires b != [] && NoSeparators(b) && !IsJsWhitespace(b[|b| - 1])
    requires run != [] && AllSeparators(run)
    ensures FormatTrackName(a + (run + b) + ".mp3") == a + (" " + b)
  {
    StripAddedSuffix(a + (run + b));
    CollapseRunBetween(a, run, b);
    CollapseWithoutSeparators(a);
    CollapseWithoutSeparators(b);
    TitleEnds(a, " ", b);
  }

  lemma StripAddedSuffix(x: string)
    ensures StripMp3Suffix(x + ".mp3") == x
  {
    assert (x + ".mp3")[..|x|] == x;
  }

  lemma TitleEnds(a: string, m: string, b: string)
    requires a != [] && !IsJsWhitespace(a[0])
    requires b != [] && !IsJsWhitespace(b[|b| - 1])
    ensures Trim(a + (m + b)) == a + (m + b)
  {
    var t := a + (m + b);
    assert t[0] == a[0] && t[|t| - 1] == b[|b| - 1];
    TrimUnchanged(t);
  }

  /** `a-b.mp3` is shown as `a b`. */
  lemma FormatTrackNameOneDash()
    ensures FormatTrackName("a-b.mp3") == "a b"
  {
    assert "a-b.mp3" == "a" + ("-" + "b") + ".mp3";
    FormatTrackNameJoinsWords("a", "-", "b");
    assert "a" + (" " + "b") == "a b";
  }
}
