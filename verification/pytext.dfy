/** The pieces of Python `str` and list semantics the chatbot pipeline relies
    on: the whitespace class shared by `str.isspace()`, `str.strip()` and the
    regular-expression class `\s`; `strip()`; slicing with clamped and negative
    bounds; indexing with negative positions; and `sep.join(parts)`. */
module PyText {
  import opened Wrappers

  /** Python's Unicode whitespace: the characters for which `str.isspace()`
      holds, which are also exactly the characters `\s` matches in a `str`
      pattern. */
  predicate IsSpace(c: char) {
    var k := c as int;
    || (0x09 <= k <= 0x0D)
    || (0x1C <= k <= 0x20)
    || k == 0x85 || k == 0xA0 || k == 0x1680
    || (0x2000 <= k <= 0x200A)
    || k == 0x2028 || k == 0x2029 || k == 0x202F || k == 0x205F || k == 0x3000
  }

  predicate AllSpace(s: string) {
    forall i :: 0 <= i < |s| ==> IsSpace(s[i])
  }

  /** No whitespace at either end; the empty string qualifies. */
  predicate Trimmed(s: string) {
    |s| == 0 || (!IsSpace(s[0]) && !IsSpace(s[|s| - 1]))
  }

  /** Python truthiness of a string, and of an optional string (`None` is falsy). */
  predicate Truthy(s: string) { |s| > 0 }

  /** Length of the whitespace run that opens `s`: what `s.lstrip()` removes,
      and what a greedy `\s*` or `\s+` consumes at the start of `s`. */
  function SpaceRun(s: string): (k: nat)
    ensures k <= |s| && AllSpace(s[..k])
    ensures k == |s| || !IsSpace(s[k])
  {
    var k := SpaceEnd(s, 0);
    assert forall j :: 0 <= j < k ==> s[..k][j] == s[j];
    k
  }

  /** Where the whitespace run that starts at position `i` of `s` ends. */
  function SpaceEnd(s: string, i: nat): (k: nat)
    requires i <= |s|
    ensures i <= k <= |s|
    ensures forall j :: i <= j < k ==> IsSpace(s[j])
    ensures k == |s| || !IsSpace(s[k])
    decreases |s| - i
  {
    if i < |s| && IsSpace(s[i]) then SpaceEnd(s, i + 1) else i
  }

  /** Length of the whitespace run that closes `s`: what `s.rstrip()` removes. */
  function TrailingSpaceRun(s: string): (k: nat)
    ensures k <= |s| && AllSpace(s[|s| - k..])
    ensures k == |s| || !IsSpace(s[|s| - k - 1])
  {
    var e := SpaceStart(s, |s|);
    assert forall j :: 0 <= j < |s| - e ==> s[e..][j] == s[e + j];
    |s| - e
  }

  /** Where the whitespace run that ends just before position `e` of `s` starts. */
  function SpaceStart(s: string, e: nat): (k: nat)
    requires e <= |s|
    ensures k <= e
    ensures forall j :: k <= j < e ==> IsSpace(s[j])
    ensures k == 0 || !IsSpace(s[k - 1])
  {
    if e > 0 && IsSpace(s[e - 1]) then SpaceStart(s, e - 1) else e
  }

  predicate NoSpace(s: string) {
    forall i :: 0 <= i < |s| ==> !IsSpace(s[i])
  }

  /** Length of the run of non-whitespace characters that opens `s`. */
  function WordRun(s: string): (k: nat)
    ensures k <= |s| && NoSpace(s[..k])
    ensures k == |s| || IsSpace(s[k])
    ensures |s| > 0 && !IsSpace(s[0]) ==> k >= 1
  {
    var k := WordEnd(s, 0);
    assert forall j :: 0 <= j < k ==> s[..k][j] == s[j];
    k
  }

  /** Where the run of non-whitespace characters that starts at position `i`
      of `s` ends. */
  function WordEnd(s: string, i: nat): (k: nat)
    requires i <= |s|
    ensures i <= k <= |s|
    ensures forall j :: i <= j < k ==> !IsSpace(s[j])
    ensures k == |s| || IsSpace(s[k])
    ensures i < |s| && !IsSpace(s[i]) ==> k > i
    decreases |s| - i
  {
    if i < |s| && !IsSpace(s[i]) then WordEnd(s, i + 1) else i
  }

  /** The opening whitespace run is the only whitespace prefix followed by a
      non-whitespace character (or by the end). */
  lemma SpaceRunUnique(s: string, j: nat)
    requires j <= |s| && AllSpace(s[..j])
    requires j == |s| || !IsSpace(s[j])
    ensures SpaceRun(s) == j
  {
    var k := SpaceRun(s);
    assert forall i :: 0 <= i < k ==> IsSpace(s[..k][i]) && s[..k][i] == s[i];
    assert forall i :: 0 <= i < j ==> IsSpace(s[..j][i]) && s[..j][i] == s[i];
  }

  /** The opening word run is unique in the same way. */
  lemma WordRunUnique(s: string, j: nat)
    requires j <= |s| && NoSpace(s[..j])
    requires j == |s| || IsSpace(s[j])
    ensures WordRun(s) == j
  {
    var k := WordRun(s);
    assert forall i :: 0 <= i < k ==> !IsSpace(s[..k][i]) && s[..k][i] == s[i];
    assert forall i :: 0 <= i < j ==> !IsSpace(s[..j][i]) && s[..j][i] == s[i];
  }

  /** The closing whitespace run is unique in the same way. */
  lemma TrailingSpaceRunUnique(s: string, j: nat)
    requires j <= |s| && AllSpace(s[|s| - j..])
    requires j == |s| || !IsSpace(s[|s| - j - 1])
    ensures TrailingSpaceRun(s) == j
  {
    var k := TrailingSpaceRun(s);
    assert forall i :: |s| - k <= i < |s| ==> IsSpace(s[|s| - k..][i - (|s| - k)]) && s[|s| - k..][i - (|s| - k)] == s[i];
    assert forall i :: |s| - j <= i < |s| ==> IsSpace(s[|s| - j..][i - (|s| - j)]) && s[|s| - j..][i - (|s| - j)] == s[i];
  }

  /** `s.strip()`: `s` without the whitespace at either end. */
  function Strip(s: string): string
  {
    var a := SpaceEnd(s, 0);
    if a == |s| then []
    else s[a..SpaceStart(s, |s|)]
  }

  /** What `strip()` returns is the infix of `s` that starts at the first and
      ends at the last non-whitespace character: only whitespace lies outside it. */
  lemma StripShape(s: string)
    ensures Trimmed(Strip(s))
    ensures SpaceRun(s) + |Strip(s)| <= |s|
    ensures Strip(s) == s[SpaceRun(s)..SpaceRun(s) + |Strip(s)|]
    ensures AllSpace(s[..SpaceRun(s)])
    ensures AllSpace(s[SpaceRun(s) + |Strip(s)|..])
  {
    if SpaceRun(s) < |s| {
      StripInner(s);
    }
  }

  /** For a string that is not all whitespace, `strip()` cuts exactly the two
      whitespace runs. */
  lemma StripInner(s: string)
    requires SpaceRun(s) < |s|
    ensures SpaceRun(s) + TrailingSpaceRun(s) < |s|
    ensures Strip(s) == s[SpaceRun(s)..|s| - TrailingSpaceRun(s)]
    ensures Trimmed(Strip(s))
  {
    var a, e := SpaceRun(s), |s| - TrailingSpaceRun(s);
    assert Strip(s) == s[a..e];
    TrimmedSlice(s, a, e);
  }

  /** A slice that starts and ends on non-whitespace characters is trimmed. */
  lemma TrimmedSlice(s: string, a: int, e: int)
    requires 0 <= a < e <= |s| && !IsSpace(s[a]) && !IsSpace(s[e - 1])
    ensures Trimmed(s[a..e])
  {
    assert s[a..e][0] == s[a] && s[a..e][e - a - 1] == s[e - 1];
  }

  /** `strip()` is determined by its shape: whatever whitespace surrounds a
      trimmed core, stripping yields exactly that core. */
  lemma StripExact(a: string, core: string, b: string)
    requires AllSpace(a) && AllSpace(b) && Trimmed(core)
    ensures Strip(a + core + b) == core
  {
    var s := a + core + b;
    if |core| == 0 {
      assert s == a + b;
      assert AllSpace(s) by {
        forall i | 0 <= i < |s| ensures IsSpace(s[i]) {
          if i < |a| { assert s[i] == a[i]; } else { assert s[i] == b[i - |a|]; }
        }
      }
      assert s[..|s|] == s;
      SpaceRunUnique(s, |s|);
    } else {
      assert s[..|a|] == a;
      assert s[|a|] == core[0];
      SpaceRunUnique(s, |a|);
      assert s[|s| - |b|..] == b;
      assert s[|s| - |b| - 1] == core[|core| - 1];
      TrailingSpaceRunUnique(s, |b|);
      assert s[|a|..|s| - |b|] == core;
    }
  }

  /** Whitespace-only strings strip to the empty string and nothing else does. */
  lemma StripEmptyIffBlank(s: string)
    ensures Strip(s) == [] <==> AllSpace(s)
  {
    StripShape(s);
    if AllSpace(s) {
      assert s == s + [] + [];
      StripExact(s, [], []);
    }
  }

  /** `s.split()`: the maximal runs of non-whitespace characters of `s`, in
      order; never an empty word and never a whitespace character. */
  function Words(s: string): (r: seq<string>)
    ensures forall i :: 0 <= i < |r| ==> |r[i]| > 0 && NoSpace(r[i])
    decreases |s|
  {
    var k := SpaceRun(s);
    if k == |s| then []
    else
      var t := s[k..];
      var w := WordRun(t);
      [t[..w]] + Words(t[w..])
  }

  /** A text that opens with a word splits into that word and the words of
      what follows it. */
  lemma WordsOfWordStart(s: string)
    requires |s| > 0 && !IsSpace(s[0])
    ensures Words(s) == [s[..WordRun(s)]] + Words(s[WordRun(s)..])
  {
    assert SpaceRun(s) == 0;
    assert s[0..] == s;
  }

  /** `split()` ignores the whitespace that opens the text. */
  lemma WordsSkipSpace(s: string)
    ensures Words(s) == Words(s[SpaceRun(s)..])
  {
    var t := s[SpaceRun(s)..];
    assert SpaceRun(t) == 0 by {
      SpaceRunUnique(t, 0);
    }
    assert t[0..] == t;
  }

  /** Python clamps a slice bound into `0..n`, counting a negative bound from the end. */
  function ClampIndex(i: int, n: nat): (r: nat)
    ensures r <= n
    ensures 0 <= i <= n ==> r == i
  {
    if i < 0 then (if i + n < 0 then 0 else i + n)
    else if i > n then n
    else i
  }

  /** `s[lo:hi]` with Python's slicing rules: both bounds clamped, empty when
      they cross. */
  function Slice(s: string, lo: int, hi: int): (r: string)
    ensures |r| <= |s|
  {
    var a := ClampIndex(lo, |s|);
    var b := ClampIndex(hi, |s|);
    if a < b then s[a..b] else []
  }

  /** `s[i]` with Python's indexing rules: a negative `i` counts from the end,
      and anything outside `-len(s) .. len(s)-1` raises `IndexError` (`None` here). */
  function At<T>(s: seq<T>, i: int): (r: Option<T>)
    ensures r.Some? <==> -|s| <= i < |s|
    ensures 0 <= i < |s| ==> r == Some(s[i])
    ensures -|s| <= i < 0 ==> r == Some(s[|s| + i])
  {
    if 0 <= i < |s| then Some(s[i])
    else if -|s| <= i < 0 then Some(s[|s| + i])
    else None
  }

  /** `sep.join(parts)`. */
  function Join(parts: seq<string>, sep: string): string
  {
    if |parts| == 0 then []
    else if |parts| == 1 then parts[0]
    else parts[0] + sep + Join(parts[1..], sep)
  }

  /** A part put in front of a non-empty join is followed by one separator. */
  lemma JoinCons(p: string, parts: seq<string>, sep: string)
    requires |parts| > 0
    ensures Join([p] + parts, sep) == p + sep + Join(parts, sep)
  {
    assert ([p] + parts)[1..] == parts;
  }

  /** Concatenation is associative. */
  lemma AppendAssoc<T>(a: seq<T>, b: seq<T>, c: seq<T>)
    ensures a + (b + c) == a + b + c
  {
  }

  /** Total length of a list of strings. */
  function TotalLength(parts: seq<string>): nat
  {
    if |parts| == 0 then 0 else |parts[0]| + TotalLength(parts[1..])
  }

  /** A join is as long as its parts plus one separator between each
      neighbouring pair. */
  lemma {:induction false} JoinLength(parts: seq<string>, sep: string)
    ensures |parts| > 0 ==> |Join(parts, sep)| == TotalLength(parts) + (|parts| - 1) * |sep|
    ensures |parts| == 0 ==> Join(parts, sep) == []
  {
    if |parts| > 1 {
      JoinLength(parts[1..], sep);
    }
  }

  /** Where part `i` starts in `sep.join(parts)`: the parts before it, each
      followed by one separator. */
  function Offset(parts: seq<string>, sep: string, i: nat): nat
    requires i <= |parts|
  {
    if i == 0 then 0 else |parts[0]| + |sep| + Offset(parts[1..], sep, i - 1)
  }

  /** `x` occurs in `j` starting at offset `o`. */
  predicate SpanAt(j: string, o: int, x: string)
  {
    0 <= o && o + |x| <= |j| && j[o..o + |x|] == x
  }

  /** An occurrence in `b` is one in `a + b`, shifted by `|a|`. */
  lemma SpanShift(a: string, b: string, o: int, x: string)
    requires SpanAt(b, o, x)
    ensures SpanAt(a + b, |a| + o, x)
  {
    assert forall m :: |a| + o <= m < |a| + o + |x| ==> (a + b)[m] == b[m - |a|];
    assert (a + b)[|a| + o..|a| + o + |x|] == b[o..o + |x|];
  }

  /** The first part of a join opens it and is followed by the separator
      when more parts come, or ends it otherwise. */
  lemma JoinFirst(parts: seq<string>, sep: string)
    requires |parts| > 0
    ensures SpanAt(Join(parts, sep), 0, parts[0])
    ensures |parts| > 1 ==> SpanAt(Join(parts, sep), |parts[0]|, sep)
    ensures |parts| == 1 ==> |parts[0]| == |Join(parts, sep)|
  {
    if |parts| > 1 {
      var j := Join(parts, sep);
      assert j == parts[0] + sep + Join(parts[1..], sep);
      assert j[..|parts[0]|] == parts[0];
      assert j[|parts[0]|..|parts[0]| + |sep|] == sep;
    }
  }

  /** Every part of a join sits at its offset and, except the last, is
      followed by the separator; the last part ends the join. */
  lemma {:induction false} JoinAt(parts: seq<string>, sep: string, i: nat)
    requires i < |parts|
    ensures SpanAt(Join(parts, sep), Offset(parts, sep, i), parts[i])
    ensures i < |parts| - 1 ==> SpanAt(Join(parts, sep), Offset(parts, sep, i) + |parts[i]|, sep)
    ensures i == |parts| - 1 ==> Offset(parts, sep, i) + |parts[i]| == |Join(parts, sep)|
  {
    if i == 0 {
      JoinFirst(parts, sep);
    } else {
      var head := parts[0] + sep;
      var rest := parts[1..];
      assert Join(parts, sep) == head + Join(rest, sep);
      assert rest[i - 1] == parts[i];
      JoinAt(rest, sep, i - 1);
      var o := Offset(rest, sep, i - 1);
      SpanShift(head, Join(rest, sep), o, parts[i]);
      if i < |parts| - 1 {
        SpanShift(head, Join(rest, sep), o + |parts[i]|, sep);
      }
    }
  }

  /** `j` is the parts laid end to end with `sep` between neighbours: each
      part at its offset, a separator after every part but the last, and the
      last part ending `j`. */
  predicate PartsAt(j: string, parts: seq<string>, sep: string)
  {
    forall i :: 0 <= i < |parts| ==>
      && SpanAt(j, Offset(parts, sep, i), parts[i])
      && (i < |parts| - 1 ==> SpanAt(j, Offset(parts, sep, i) + |parts[i]|, sep))
      && (i == |parts| - 1 ==> Offset(parts, sep, i) + |parts[i]| == |j|)
  }

  /** A join holds every part at its offset, separated by `sep`. */
  lemma JoinParts(parts: seq<string>, sep: string)
    ensures PartsAt(Join(parts, sep), parts, sep)
  {
    forall i | 0 <= i < |parts|
      ensures SpanAt(Join(parts, sep), Offset(parts, sep, i), parts[i])
      ensures i < |parts| - 1 ==> SpanAt(Join(parts, sep), Offset(parts, sep, i) + |parts[i]|, sep)
      ensures i == |parts| - 1 ==> Offset(parts, sep, i) + |parts[i]| == |Join(parts, sep)|
    {
      JoinAt(parts, sep, i);
    }
  }

  /** The first part opens the join and the last part closes it. */
  lemma {:induction false} JoinEnds(parts: seq<string>, sep: string)
    requires |parts| > 0
    ensures |parts[0]| <= |Join(parts, sep)| && Join(parts, sep)[..|parts[0]|] == parts[0]
    ensures var last := parts[|parts| - 1];
      |last| <= |Join(parts, sep)| && Join(parts, sep)[|Join(parts, sep)| - |last|..] == last
  {
    if |parts| > 1 {
      JoinEnds(parts[1..], sep);
      assert parts[1..][|parts[1..]| - 1] == parts[|parts| - 1];
    }
  }
}
