/** `extract_text_clean`: the page texts joined into one string, then three
    regular-expression passes: hyphenated line breaks removed, whitespace runs
    collapsed to one space and the result stripped, blank-line runs squeezed. */
module Cleanup {
  import opened PyText

  /** The text one page contributes: its words joined by single spaces and a
      line break, or nothing at all for a page without words. */
  function PageText(words: seq<string>): string
  {
    if |words| == 0 then [] else Join(words, " ") + "\n"
  }

  /** `full_text` before the regular expressions run: the page texts in page order. */
  function RawText(pages: seq<seq<string>>): string
  {
    if |pages| == 0 then [] else RawText(pages[..|pages| - 1]) + PageText(pages[|pages| - 1])
  }

  /** The whitespace run that opens `t` contains a line break: what the part
      `\s*\n\s*` of the pattern on line 39 needs after the hyphen. */
  predicate BreakAfter(t: string)
  {
    '\n' in t[..SpaceRun(t)]
  }

  /** `re.sub(r"-\s*\n\s*", "", s)`: scanning left to right, a hyphen whose
      following whitespace run holds a line break is removed together with that
      whole run (the greedy `\s*` takes all of it); every other character is kept. */
  function Dehyphenate(s: string): string
    decreases |s|
  {
    if |s| == 0 then []
    else if s[0] == '-' && BreakAfter(s[1..]) then Dehyphenate(s[1 + SpaceRun(s[1..])..])
    else [s[0]] + Dehyphenate(s[1..])
  }

  /** No hyphen of `s` is followed by a whitespace run holding a line break:
      the pattern on line 39 finds nothing in `s`. */
  predicate NoBreakHyphen(s: string)
    decreases |s|
  {
    |s| == 0 || ((s[0] == '-' ==> !BreakAfter(s[1..])) && NoBreakHyphen(s[1..]))
  }

  /** A string the pattern does not match is left as it is. */
  lemma {:induction false} DehyphenateFixpoint(s: string)
    requires NoBreakHyphen(s)
    ensures Dehyphenate(s) == s
    decreases |s|
  {
    if |s| > 0 {
      assert Dehyphenate(s) == [s[0]] + Dehyphenate(s[1..]);
      DehyphenateFixpoint(s[1..]);
      assert s == [s[0]] + s[1..];
    }
  }

  /** A character other than a hyphen is copied and the scan moves on. */
  lemma DehyphenateNonHyphen(ch: char, s: string)
    requires ch != '-'
    ensures Dehyphenate([ch] + s) == [ch] + Dehyphenate(s)
  {
    var t := [ch] + s;
    assert t[0] == ch && t[1..] == s;
  }

  /** Whitespace in front of the text is copied unchanged. */
  lemma {:induction false} DehyphenateSpacePrefix(a: string, b: string)
    requires AllSpace(a)
    ensures Dehyphenate(a + b) == a + Dehyphenate(b)
    decreases |a|
  {
    if |a| > 0 {
      var tail := a[1..];
      assert a == [a[0]] + tail;
      assert AllSpace(tail) by {
        assert forall i :: 0 <= i < |tail| ==> tail[i] == a[i + 1];
      }
      assert a[0] != '-' by {
        assert IsSpace(a[0]);
      }
      AppendAssoc([a[0]], tail, b);
      DehyphenateNonHyphen(a[0], tail + b);
      DehyphenateSpacePrefix(tail, b);
      AppendAssoc([a[0]], tail, Dehyphenate(b));
    } else {
      assert a + b == b && a + Dehyphenate(b) == Dehyphenate(b);
    }
  }

  /** A text that does not open with whitespace does not do so after the pass either. */
  lemma {:induction false} DehyphenateKeepsWordStart(s: string)
    requires |s| == 0 || !IsSpace(s[0])
    ensures |Dehyphenate(s)| == 0 || !IsSpace(Dehyphenate(s)[0])
    decreases |s|
  {
    if |s| > 0 && s[0] == '-' && BreakAfter(s[1..]) {
      var k := SpaceRun(s[1..]);
      assert s[1 + k..] == s[1..][k..];
      DehyphenateKeepsWordStart(s[1 + k..]);
    }
  }

  /** A whitespace run without a line break stays one after the pass. */
  lemma NoBreakSurvives(t: string)
    requires !BreakAfter(t)
    ensures !BreakAfter(Dehyphenate(t))
  {
    var k := SpaceRun(t);
    var run := t[..k];
    var rest := t[k..];
    assert t == run + rest;
    DehyphenateSpacePrefix(run, rest);
    DehyphenateKeepsWordStart(rest);
    var d := Dehyphenate(t);
    assert d == run + Dehyphenate(rest);
    assert d[..k] == run;
    assert AllSpace(d[..k]);
    assert k == |d| || !IsSpace(d[k]);
    SpaceRunUnique(d, k);
  }

  /** After the pass the pattern finds nothing. */
  lemma {:induction false} DehyphenateClean(s: string)
    ensures NoBreakHyphen(Dehyphenate(s))
    decreases |s|
  {
    if |s| > 0 {
      if s[0] == '-' && BreakAfter(s[1..]) {
        DehyphenateClean(s[1 + SpaceRun(s[1..])..]);
      } else {
        DehyphenateClean(s[1..]);
        var d := [s[0]] + Dehyphenate(s[1..]);
        assert d[1..] == Dehyphenate(s[1..]);
        if s[0] == '-' {
          NoBreakSurvives(s[1..]);
        }
      }
    }
  }

  /** Running the substitution of line 39 twice gives what running it once gives. */
  lemma DehyphenateIdempotent(s: string)
    ensures Dehyphenate(Dehyphenate(s)) == Dehyphenate(s)
  {
    DehyphenateClean(s);
    DehyphenateFixpoint(Dehyphenate(s));
  }

  /** Prefixing text that opens with whitespace does not move its opening
      whitespace run, as long as the prefix text starts with a
      non-whitespace character. */
  lemma SpaceRunBeforeWord(t: string, x: string)
    requires |x| > 0 && !IsSpace(x[0])
    ensures SpaceRun(t + x) == SpaceRun(t)
    ensures (t + x)[..SpaceRun(t)] == t[..SpaceRun(t)]
  {
    var k := SpaceRun(t);
    assert (t + x)[..k] == t[..k];
    assert k == |t| ==> (t + x)[k] == x[0];
    SpaceRunUnique(t + x, k);
  }

  /** The pass works piecewise across a boundary where a non-whitespace
      character starts the second piece: no match straddles it. */
  lemma {:induction false} DehyphenateSplit(p: string, x: string)
    requires |x| > 0 && !IsSpace(x[0])
    ensures Dehyphenate(p + x) == Dehyphenate(p) + Dehyphenate(x)
    decreases |p|
  {
    if |p| == 0 {
      assert p + x == x;
    } else {
      var t := p + x;
      var tail := p[1..];
      assert t[0] == p[0] && t[1..] == tail + x;
      SpaceRunBeforeWord(tail, x);
      var k := SpaceRun(tail);
      if p[0] == '-' && BreakAfter(tail) {
        assert t[1 + k..] == p[1 + k..] + x;
        DehyphenateSplit(p[1 + k..], x);
      } else {
        DehyphenateSplit(tail, x);
        AppendAssoc([p[0]], Dehyphenate(tail), Dehyphenate(x));
      }
    }
  }

  /** One match of line 39: a hyphen, then a whitespace run holding a line
      break, then text opening with a non-whitespace character (or nothing).
      The hyphen and the run disappear; everything on either side is kept. */
  lemma DehyphenateOneMatch(p: string, run: string, q: string)
    requires AllSpace(run) && '\n' in run
    requires |q| == 0 || !IsSpace(q[0])
    ensures Dehyphenate(p + "-" + run + q) == Dehyphenate(p) + Dehyphenate(q)
  {
    var x := "-" + run + q;
    assert p + "-" + run + q == p + x;
    DehyphenateSplit(p, x);
    DehyphenateMatchFirst(run, q);
  }

  /** The match opening a text is removed, hyphen and run together. */
  lemma {:induction false} DehyphenateMatchFirst(run: string, q: string)
    requires AllSpace(run) && '\n' in run
    requires |q| == 0 || !IsSpace(q[0])
    ensures Dehyphenate("-" + run + q) == Dehyphenate(q)
  {
    var x := "-" + run + q;
    var t := run + q;
    assert x[0] == '-' && x[1..] == t;
    assert t[..|run|] == run;
    SpaceRunUnique(t, |run|);
    assert BreakAfter(t);
    assert x[1 + |run|..] == q;
  }

  /** `re.sub(r"\s+", " ", s)`: every maximal whitespace run becomes one space;
      the characters between the runs are copied. */
  function Collapse(s: string): string
    decreases |s|
  {
    if |s| == 0 then []
    else if IsSpace(s[0]) then " " + Collapse(s[SpaceRun(s)..])
    else
      var w := WordRun(s);
      s[..w] + Collapse(s[w..])
  }

  /** Line 40: collapse, then `strip()`. */
  function Normalize(s: string): string
  {
    Strip(Collapse(s))
  }

  /** The only whitespace is a plain space, each one has a non-whitespace
      character on either side, and the ends are not whitespace. */
  predicate SingleSpaced(r: string)
  {
    && Trimmed(r)
    && forall i :: 0 <= i < |r| && IsSpace(r[i]) ==> r[i] == ' ' && i + 1 < |r| && !IsSpace(r[i + 1])
  }

  /** Words joined by single spaces are single-spaced. */
  lemma {:induction false} JoinedWordsSingleSpaced(words: seq<string>)
    requires forall i :: 0 <= i < |words| ==> |words[i]| > 0 && NoSpace(words[i])
    ensures SingleSpaced(Join(words, " "))
  {
    if |words| == 1 {
      assert NoSpace(words[0]);
    } else if |words| > 1 {
      var w := words[0];
      var rest := Join(words[1..], " ");
      assert SingleSpaced(rest) && |rest| > 0 by {
        JoinedWordsSingleSpaced(words[1..]);
        JoinLength(words[1..], " ");
        assert |words[1..][0]| > 0;
      }
      assert NoSpace(w);
      assert Join(words, " ") == w + " " + rest;
      SpaceJoinSingleSpaced(w, rest);
    }
  }

  /** A word, one space and a single-spaced non-empty text are single-spaced together. */
  lemma SpaceJoinSingleSpaced(w: string, rest: string)
    requires |w| > 0 && NoSpace(w)
    requires |rest| > 0 && SingleSpaced(rest)
    ensures SingleSpaced(w + " " + rest)
  {
    var r := w + " " + rest;
    assert forall i :: 0 <= i < |w| ==> r[i] == w[i] && !IsSpace(r[i]);
    assert r[|w|] == ' ' && r[|w| + 1] == rest[0];
    forall i | |w| < i < |r| && IsSpace(r[i])
      ensures r[i] == ' ' && i + 1 < |r| && !IsSpace(r[i + 1])
    {
      var j := i - |w| - 1;
      assert r[i] == rest[j];
      assert j + 1 < |rest|;
      assert !IsSpace(rest[j + 1]);
      assert r[i + 1] == rest[j + 1];
    }
    assert r[0] == w[0] && r[|r| - 1] == rest[|rest| - 1];
  }

  /** Whitespace-separated words collapse to the words joined by single
      spaces, plus one space if the text ends in whitespace. */
  lemma {:induction false} CollapseIsJoinedWords(s: string)
    requires |s| == 0 || !IsSpace(s[0])
    ensures Collapse(s) == Join(Words(s), " ") + EndSpace(s)
    decreases |s|
  {
    if |s| > 0 {
      var w := WordRun(s);
      var r := s[w..];
      if |r| == 0 {
        CollapseOneWord(s);
      } else {
        var r2 := r[SpaceRun(r)..];
        if |r2| == 0 {
          CollapseWordThenBlank(s);
        } else {
          assert r2 == s[w..][SpaceRun(s[w..])..];
          CollapseIsJoinedWords(r2);
          CollapseWordThenMore(s);
        }
      }
    }
  }

  /** A single word collapses to itself. */
  lemma CollapseOneWord(s: string)
    requires |s| > 0 && !IsSpace(s[0]) && WordRun(s) == |s|
    ensures Collapse(s) == Join(Words(s), " ") + EndSpace(s)
  {
    var w := WordRun(s);
    assert Words(s) == [s[..w]] + Words(s[w..]) by {
      WordsOfWordStart(s);
    }
    assert Words(s[w..]) == [];
    assert EndSpace(s) == [] by {
      assert s[|s| - 1] == s[..w][w - 1];
    }
    assert Collapse(s) == s[..w] + [];
  }

  /** A word followed by whitespace only collapses to the word and one space. */
  lemma CollapseWordThenBlank(s: string)
    requires |s| > 0 && !IsSpace(s[0])
    requires var r := s[WordRun(s)..]; |r| > 0 && SpaceRun(r) == |r|
    ensures Collapse(s) == Join(Words(s), " ") + EndSpace(s)
  {
    var w := WordRun(s);
    var r := s[w..];
    assert Words(s) == [s[..w]] + Words(r) by {
      WordsOfWordStart(s);
    }
    assert Words(r) == [] by {
      WordsSkipSpace(r);
    }
    assert Collapse(r) == " " + Collapse(r[|r|..]);
    assert EndSpace(s) == " " by {
      assert r[..SpaceRun(r)] == r;
      assert IsSpace(r[..SpaceRun(r)][|r| - 1]);
      assert s[|s| - 1] == r[|r| - 1];
    }
    assert Collapse(s) == s[..w] + Collapse(r);
    assert Collapse(s) == s[..w] + " " + [];
  }

  /** A word, a whitespace run and a further word: the collapse of the whole
      follows from the collapse of what comes after the run. */
  lemma CollapseWordThenMore(s: string)
    requires |s| > 0 && !IsSpace(s[0])
    requires var r := s[WordRun(s)..]; var r2 := r[SpaceRun(r)..];
      && |r| > 0 && |r2| > 0
      && Collapse(r2) == Join(Words(r2), " ") + EndSpace(r2)
    ensures Collapse(s) == Join(Words(s), " ") + EndSpace(s)
  {
    var w := WordRun(s);
    var word := s[..w];
    var r := s[w..];
    var r2 := r[SpaceRun(r)..];
    var j := Join(Words(r2), " ");
    assert Collapse(s) == word + (" " + (j + EndSpace(r2))) by {
      assert Collapse(s) == word + Collapse(r);
      assert Collapse(r) == " " + Collapse(r2);
    }
    assert Join(Words(s), " ") == word + " " + j by {
      assert Words(s) == [word] + Words(r) by {
        WordsOfWordStart(s);
      }
      assert Words(r) == Words(r2) by {
        WordsSkipSpace(r);
      }
      WordsOfWordStart(r2);
      JoinCons(word, Words(r2), " ");
    }
    assert EndSpace(s) == EndSpace(r2) by {
      assert s[|s| - 1] == r[|r| - 1] == r2[|r2| - 1];
    }
    AppendAssoc(word, " ", j + EndSpace(s));
    AppendAssoc(word + " ", j, EndSpace(s));
  }

  /** One space when `s` ends in whitespace, nothing otherwise. */
  function EndSpace(s: string): (r: string)
    ensures AllSpace(r)
  {
    if |s| > 0 && IsSpace(s[|s| - 1]) then " " else []
  }

  /** Line 40 turns any text into its `split()` words joined by single spaces. */
  lemma NormalizeIsJoinedWords(s: string)
    ensures Normalize(s) == Join(Words(s), " ")
  {
    if |s| > 0 && IsSpace(s[0]) {
      var t := s[SpaceRun(s)..];
      assert Words(s) == Words(t) by {
        WordsSkipSpace(s);
      }
      assert Collapse(s) == " " + Collapse(t);
      StripCollapsed(" ", t);
    } else {
      assert Collapse(s) == [] + Collapse(s);
      StripCollapsed([], s);
    }
  }

  /** Leading whitespace in front of a collapsed text that opens with a word
      (or is empty) is stripped away together with the closing space. */
  lemma StripCollapsed(pre: string, t: string)
    requires AllSpace(pre) && (|t| == 0 || !IsSpace(t[0]))
    ensures Strip(pre + Collapse(t)) == Join(Words(t), " ")
  {
    var core := Join(Words(t), " ");
    var e := EndSpace(t);
    assert Trimmed(core) by {
      JoinedWordsSingleSpaced(Words(t));
    }
    CollapseIsJoinedWords(t);
    AppendAssoc(pre, core, e);
    StripExact(pre, core, e);
  }

  /** After line 40 the text is single-spaced; in particular it holds no line break. */
  lemma NormalizeSingleSpaced(s: string)
    ensures SingleSpaced(Normalize(s))
    ensures '\n' !in Normalize(s)
  {
    NormalizeIsJoinedWords(s);
    JoinedWordsSingleSpaced(Words(s));
    var r := Normalize(s);
    assert IsSpace('\n');
    forall i | 0 <= i < |r| ensures r[i] != '\n' {
      assert IsSpace(r[i]) ==> r[i] == ' ';
    }
  }

  /** Running line 40 again changes nothing. */
  lemma NormalizeIdempotent(s: string)
    ensures Normalize(Normalize(s)) == Normalize(s)
  {
    var r := Normalize(s);
    NormalizeIsJoinedWords(s);
    NormalizeIsJoinedWords(r);
    JoinedWordsSingleSpaced(Words(s));
    WordsOfJoin(Words(s));
  }

  /** Splitting words joined by single spaces gives the words back. */
  lemma {:induction false} WordsOfJoin(words: seq<string>)
    requires forall i :: 0 <= i < |words| ==> |words[i]| > 0 && NoSpace(words[i])
    ensures Words(Join(words, " ")) == words
  {
    if |words| == 1 {
      WordsOfWord(words[0]);
    } else if |words| > 1 {
      var w := words[0];
      var tail := words[1..];
      var rest := Join(tail, " ");
      assert Words(rest) == tail by {
        WordsOfJoin(tail);
      }
      assert |rest| > 0 && !IsSpace(rest[0]) by {
        JoinLength(tail, " ");
        assert |tail[0]| > 0;
        JoinedWordsSingleSpaced(tail);
      }
      assert Words(Join(words, " ")) == [w] + Words(rest) by {
        assert Join(words, " ") == w + " " + rest;
        WordsOfWordSpaceText(w, rest);
      }
      assert words == [w] + tail;
    }
  }

  /** A single word splits into itself. */
  lemma WordsOfWord(w: string)
    requires |w| > 0 && NoSpace(w)
    ensures Words(w) == [w]
  {
    assert w[..|w|] == w;
    assert WordRun(w) == |w| by {
      WordRunUnique(w, |w|);
    }
    WordsOfWordStart(w);
    assert Words(w[|w|..]) == [];
  }

  /** A word, one space and a text opening with a word split into that word
      and the words of the text. */
  lemma WordsOfWordSpaceText(w: string, rest: string)
    requires |w| > 0 && NoSpace(w)
    requires |rest| > 0 && !IsSpace(rest[0])
    ensures Words(w + " " + rest) == [w] + Words(rest)
  {
    AppendAssoc(w, " ", rest);
    WordsOfWordThenSpace(w, " " + rest);
    WordsOfSpaceThenWord(" ", rest);
  }

  /** A word followed by a text that opens with whitespace splits off that word. */
  lemma WordsOfWordThenSpace(w: string, t: string)
    requires |w| > 0 && NoSpace(w)
    requires |t| > 0 && IsSpace(t[0])
    ensures Words(w + t) == [w] + Words(t)
  {
    var s := w + t;
    assert s[..|w|] == w && s[|w|..] == t;
    assert WordRun(s) == |w| by {
      WordRunUnique(s, |w|);
    }
    WordsOfWordStart(s);
  }

  /** Whitespace in front of a text that opens with a word does not change its words. */
  lemma WordsOfSpaceThenWord(a: string, rest: string)
    requires AllSpace(a)
    requires |rest| > 0 && !IsSpace(rest[0])
    ensures Words(a + rest) == Words(rest)
  {
    var t := a + rest;
    assert SpaceRun(t) == |a| by {
      assert t[..|a|] == a;
      SpaceRunUnique(t, |a|);
    }
    WordsSkipSpace(t);
    assert t[|a|..] == rest;
  }

  /** Position just past the last line break of `r`, or 0 when it has none. */
  function LastBreakEnd(r: string): (k: nat)
    ensures k <= |r|
    ensures '\n' in r ==> k >= 1 && r[k - 1] == '\n'
    ensures '\n' !in r ==> k == 0
    ensures '\n' !in r[k..]
  {
    if |r| == 0 then 0
    else if r[|r| - 1] == '\n' then |r|
    else
      var k := LastBreakEnd(r[..|r| - 1]);
      assert '\n' in r ==> '\n' in r[..|r| - 1];
      assert r[k..] == r[..|r| - 1][k..] + [r[|r| - 1]];
      k
  }

  /** `re.sub(r"\n\s*\n+", "\n\n", s)`: a line break whose following
      whitespace run holds another line break is replaced, together with that
      run up to and including its last line break, by exactly two line breaks. */
  function Squeeze(s: string): string
    decreases |s|
  {
    if |s| == 0 then []
    else if s[0] == '\n' && BreakAfter(s[1..]) then
      "\n\n" + Squeeze(s[1 + LastBreakEnd(s[1..][..SpaceRun(s[1..])])..])
    else [s[0]] + Squeeze(s[1..])
  }

  /** Without a line break there is nothing for line 41 to match. */
  lemma {:induction false} SqueezeWithoutBreak(s: string)
    requires '\n' !in s
    ensures Squeeze(s) == s
    decreases |s|
  {
    if |s| > 0 {
      assert '\n' !in s[1..];
      SqueezeWithoutBreak(s[1..]);
      assert s == [s[0]] + s[1..];
    }
  }

  /** `extract_text_clean` on the words pdfplumber reports for each page. */
  function ExtractTextClean(pages: seq<seq<string>>): string
  {
    Squeeze(Normalize(Dehyphenate(RawText(pages))))
  }

  /** Line 41 never changes the text line 40 produced: the cleaned text is the
      `split()` words of the dehyphenated text joined by single spaces, so it
      is single-spaced and holds no line break. */
  lemma ExtractTextCleanIsJoinedWords(pages: seq<seq<string>>)
    ensures var d := Dehyphenate(RawText(pages));
      && Squeeze(Normalize(d)) == Normalize(d)
      && ExtractTextClean(pages) == Join(Words(d), " ")
      && SingleSpaced(ExtractTextClean(pages))
      && '\n' !in ExtractTextClean(pages)
  {
    var d := Dehyphenate(RawText(pages));
    NormalizeSingleSpaced(d);
    SqueezeWithoutBreak(Normalize(d));
    NormalizeIsJoinedWords(d);
  }
}
