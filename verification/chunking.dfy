/** The sliding-window text splitter `chunk_text`: windows of `chunkSize`
    characters whose starts are `max(1, chunkSize - overlap)` apart, each
    window cut with Python's clamping slice. */
module Chunking {
  import opened PyText

  /** The window length and overlap `build_index` uses (the defaults of `chunk_text`). */
  const DefaultChunkSize: int := 600
  const DefaultOverlap: int := 120

  function Min(a: int, b: int): int { if a <= b then a else b }

  /** `max(1, chunk_size - overlap)`: the distance between two window starts.
      The floor of 1 is what makes the splitter terminate for every overlap. */
  function Step(chunkSize: int, overlap: int): (r: nat)
    ensures r >= 1
    ensures chunkSize >= 1 && overlap >= 0 ==> r <= chunkSize
    ensures r == 1 || r == chunkSize - overlap
    ensures r >= chunkSize - overlap
  {
    if chunkSize - overlap > 1 then chunkSize - overlap else 1
  }

  /** The values `start` takes at the top of each round of the
      `while start < n` loop, from `start` on: one window opens at each. */
  function Starts(n: nat, step: nat, start: nat): seq<nat>
    requires step >= 1
    decreases n - start
  {
    if start < n then [start] + Starts(n, step, start + step) else []
  }

  /** The window `text[s:s+chunkSize]` for every start `s` in `starts`. */
  function Windows(text: string, chunkSize: int, starts: seq<nat>): (r: seq<string>)
    ensures |r| == |starts|
  {
    seq(|starts|, i requires 0 <= i < |starts| => Slice(text, starts[i], starts[i] + chunkSize))
  }

  /** The list `chunk_text(text, chunkSize, overlap)` returns. */
  function Chunks(text: string, chunkSize: int, overlap: int): seq<string>
  {
    Windows(text, chunkSize, Starts(|text|, Step(chunkSize, overlap), 0))
  }

  /** `chunk_text` as the source writes it: a `while` loop that appends
      `text[start:start+chunk_size]` and advances `start` by
      `max(1, chunk_size - overlap)` until it reaches `len(text)`. It yields
      `ceil(n / step)` windows, window `i` being `text[i*step : i*step + chunkSize]`. */
  method ChunkText(text: string, chunkSize: int, overlap: int) returns (chunks: seq<string>)
    ensures chunks == Chunks(text, chunkSize, overlap)
    ensures |chunks| == (|text| + Step(chunkSize, overlap) - 1) / Step(chunkSize, overlap)
    ensures forall i :: 0 <= i < |chunks| ==>
      chunks[i] == Slice(text, i * Step(chunkSize, overlap), i * Step(chunkSize, overlap) + chunkSize)
  {
    var step := Step(chunkSize, overlap);
    var n := |text|;
    var start := 0;
    chunks := [];
    ghost var done: seq<nat> := [];
    while start < n
      invariant done + Starts(n, step, start) == Starts(n, step, 0)
      invariant chunks == Windows(text, chunkSize, done)
      decreases n - start
    {
      assert done + [start] + Starts(n, step, start + step) == Starts(n, step, 0) by {
        assert Starts(n, step, start) == [start] + Starts(n, step, start + step);
        AppendAssoc(done, [start], Starts(n, step, start + step));
      }
      WindowsSnoc(text, chunkSize, done, start);
      chunks := chunks + [Slice(text, start, start + chunkSize)];
      done := done + [start];
      start := start + step;
    }
    assert chunks == Chunks(text, chunkSize, overlap) by {
      assert done == Starts(n, step, 0);
    }
    ChunkCountIsCeiling(text, chunkSize, overlap);
    ChunksAreWindows(text, chunkSize, overlap);
  }

  /** Opening one more window appends its slice to the list. */
  lemma WindowsSnoc(text: string, chunkSize: int, starts: seq<nat>, s: nat)
    ensures Windows(text, chunkSize, starts + [s])
      == Windows(text, chunkSize, starts) + [Slice(text, s, s + chunkSize)]
  {
  }

  /** Dropping the first start drops the first window. */
  lemma WindowsCons(text: string, chunkSize: int, s: nat, starts: seq<nat>)
    ensures Windows(text, chunkSize, [s] + starts)
      == [Slice(text, s, s + chunkSize)] + Windows(text, chunkSize, starts)
  {
  }

  /** Where window `i` starts, relative to the first: `i` rounds of `start += step`. */
  function Start(i: nat, step: nat): nat
  {
    if i == 0 then 0 else Start(i - 1, step) + step
  }

  /** `i` rounds of `start += step` reach `i * step`. */
  lemma {:induction false} StartIsProduct(i: nat, step: nat)
    ensures Start(i, step) == i * step
  {
    if i > 0 {
      StartIsProduct(i - 1, step);
      assert (i - 1) * step + step == i * step;
    }
  }

  /** Number of loop rounds over the `m` characters still ahead of `start`. */
  function Rounds(m: int, step: nat): nat
    requires step >= 1
    decreases m
  {
    if m <= 0 then 0 else 1 + Rounds(m - step, step)
  }

  /** The `i`-th start visited from `start` is `i` steps further on, and
      it is still inside the text. */
  lemma {:induction false} StartsAt(n: nat, step: nat, start: nat, i: nat)
    requires step >= 1
    requires i < |Starts(n, step, start)|
    ensures Starts(n, step, start)[i] == start + Start(i, step) < n
    decreases i
  {
    if i > 0 {
      StartsAt(n, step, start + step, i - 1);
    }
  }

  /** From `start` the loop runs `Rounds(n - start)` times. */
  lemma {:induction false} StartsLength(n: nat, step: nat, start: nat)
    requires step >= 1
    ensures |Starts(n, step, start)| == Rounds(n - start, step)
    decreases n - start
  {
    if start < n {
      StartsLength(n, step, start + step);
    }
  }

  /** `Rounds(m)` rounds of `step` cover the `m` characters, and one round
      fewer does not. */
  lemma {:induction false} RoundsCover(m: int, step: nat)
    requires step >= 1
    ensures m <= Start(Rounds(m, step), step)
    ensures m > 0 ==> Rounds(m, step) >= 1 && Start(Rounds(m, step) - 1, step) < m
    decreases m
  {
    if m > 0 {
      RoundsCover(m - step, step);
    }
  }

  /** The number of rounds over `m >= 0` characters is `ceil(m / step)`. */
  lemma RoundsIsCeiling(m: nat, step: nat)
    requires step >= 1
    ensures Rounds(m, step) == (m + step - 1) / step
  {
    var r := Rounds(m, step);
    RoundsCover(m, step);
    StartIsProduct(r, step);
    if m > 0 {
      StartIsProduct(r - 1, step);
      assert (r - 1) * step + step == r * step;
    }
    DivUnique(m + step - 1, step, r);
  }

  /** Integer division is pinned down by the interval its dividend lies in. */
  lemma DivUnique(x: int, d: int, q: int)
    requires d >= 1 && q * d <= x < q * d + d
    ensures x / d == q
  {
    var r := x / d;
    assert r * d <= x < r * d + d;
    if r > q {
      MulMono(q + 1, r, d);
    } else if r < q {
      MulMono(r + 1, q, d);
    }
  }

  lemma MulMono(a: int, b: int, d: int)
    requires a <= b && d >= 0
    ensures a * d <= b * d
  {
  }

  /** `chunk_text` returns `ceil(n / step)` windows. */
  lemma ChunkCountIsCeiling(text: string, chunkSize: int, overlap: int)
    ensures var step := Step(chunkSize, overlap);
      |Chunks(text, chunkSize, overlap)| == (|text| + step - 1) / step
  {
    var step := Step(chunkSize, overlap);
    StartsLength(|text|, step, 0);
    RoundsIsCeiling(|text|, step);
  }

  /** Window `i` is the slice that opens `i` steps into the text, and that
      opening lies inside the text. */
  lemma ChunkIsWindow(text: string, chunkSize: int, overlap: int, i: nat)
    requires i < |Chunks(text, chunkSize, overlap)|
    ensures var start := Start(i, Step(chunkSize, overlap));
      && start < |text|
      && Chunks(text, chunkSize, overlap)[i] == Slice(text, start, start + chunkSize)
  {
    var step := Step(chunkSize, overlap);
    var starts := Starts(|text|, step, 0);
    var start := Start(i, step);
    assert starts[i] == start < |text| by {
      StartsAt(|text|, step, 0, i);
    }
    assert Windows(text, chunkSize, starts)[i] == Slice(text, starts[i], starts[i] + chunkSize);
  }

  /** Every window of the list is `text[i*step : i*step + chunkSize]`. */
  lemma ChunksAreWindows(text: string, chunkSize: int, overlap: int)
    ensures var step := Step(chunkSize, overlap);
      forall i :: 0 <= i < |Chunks(text, chunkSize, overlap)| ==>
        Chunks(text, chunkSize, overlap)[i] == Slice(text, i * step, i * step + chunkSize)
  {
    var step := Step(chunkSize, overlap);
    forall i | 0 <= i < |Chunks(text, chunkSize, overlap)|
      ensures Chunks(text, chunkSize, overlap)[i] == Slice(text, i * step, i * step + chunkSize)
    {
      ChunkIsWindow(text, chunkSize, overlap, i);
      StartIsProduct(i, step);
    }
  }

  /** Empty text yields no windows; non-empty text yields at least one. */
  lemma ChunksOfEmpty(text: string, chunkSize: int, overlap: int)
    ensures Chunks(text, chunkSize, overlap) == [] <==> text == []
  {
  }

  /** A window that starts inside the text is the plain slice up to the
      clamped end: never empty, never longer than `chunkSize`. */
  lemma WindowInside(text: string, start: nat, chunkSize: int)
    requires chunkSize >= 1 && start < |text|
    ensures Slice(text, start, start + chunkSize) == text[start .. Min(|text|, start + chunkSize)]
    ensures 0 < |Slice(text, start, start + chunkSize)| <= chunkSize
  {
  }

  /** With a positive window length, window `i` is exactly
      `text[start .. min(n, start + chunkSize)]` for its opening `start`
      below `n`: never empty and never longer than `chunkSize`. */
  lemma ChunkShape(text: string, chunkSize: int, overlap: int, i: nat)
    requires chunkSize >= 1
    requires i < |Chunks(text, chunkSize, overlap)|
    ensures var start := Start(i, Step(chunkSize, overlap));
      && start < |text|
      && Chunks(text, chunkSize, overlap)[i] == text[start .. Min(|text|, start + chunkSize)]
    ensures 0 < |Chunks(text, chunkSize, overlap)[i]| <= chunkSize
  {
    var start := Start(i, Step(chunkSize, overlap));
    var w := Chunks(text, chunkSize, overlap)[i];
    assert start < |text| && w == Slice(text, start, start + chunkSize) by {
      ChunkIsWindow(text, chunkSize, overlap, i);
    }
    WindowInside(text, start, chunkSize);
  }

  /** Once the overlap reaches the window length less one, the step floors at
      1: one window starts at every character. */
  lemma OverlapAtLeastSizeGivesOneWindowPerChar(text: string, chunkSize: int, overlap: int)
    requires overlap >= chunkSize - 1
    ensures |Chunks(text, chunkSize, overlap)| == |text|
  {
    ChunkCountIsCeiling(text, chunkSize, overlap);
  }

  /** Neighbouring windows overlap as intended: what window `i` holds beyond
      its first `step` characters is a prefix of window `i + 1`, and it is
      `chunkSize - step` characters long when window `i` is full. */
  lemma ConsecutiveChunksOverlap(text: string, chunkSize: int, overlap: int, i: nat)
    requires chunkSize >= 1 && overlap >= 0
    requires i + 1 < |Chunks(text, chunkSize, overlap)|
    ensures var step := Step(chunkSize, overlap);
      var c := Chunks(text, chunkSize, overlap);
      && step <= |c[i]|
      && c[i][step..] <= c[i + 1]
      && (|c[i]| == chunkSize ==> |c[i][step..]| == chunkSize - step)
  {
    var step := Step(chunkSize, overlap);
    var n := |text|;
    var lo := Start(i, step);
    var a := Chunks(text, chunkSize, overlap)[i];
    var b := Chunks(text, chunkSize, overlap)[i + 1];
    assert a == text[lo .. Min(n, lo + chunkSize)] by {
      ChunkShape(text, chunkSize, overlap, i);
    }
    assert lo + step < n && b == text[lo + step .. Min(n, lo + step + chunkSize)] by {
      ChunkShape(text, chunkSize, overlap, i + 1);
      assert Start(i + 1, step) == lo + step;
    }
    NeighbourWindows(text, lo, step, chunkSize);
  }

  /** Two windows of `chunkSize` characters opened `step <= chunkSize`
      apart share everything the first one holds past its first `step`
      characters. */
  lemma NeighbourWindows(text: string, lo: nat, step: nat, chunkSize: int)
    requires 1 <= step <= chunkSize && lo + step < |text|
    ensures var a := text[lo .. Min(|text|, lo + chunkSize)];
      var b := text[lo + step .. Min(|text|, lo + step + chunkSize)];
      && step <= |a|
      && a[step..] <= b
      && (|a| == chunkSize ==> |a[step..]| == chunkSize - step)
  {
    var n := |text|;
    var a := text[lo .. Min(n, lo + chunkSize)];
    assert a[step..] == text[lo + step .. Min(n, lo + chunkSize)];
  }

  /** The part of each window that the next window does not repeat: its first
      `min(step, len(window))` characters. */
  function Fresh(chunks: seq<string>, step: nat): (r: seq<string>)
    ensures |r| == |chunks|
  {
    if |chunks| == 0 then []
    else [chunks[0][..Min(step, |chunks[0]|)]] + Fresh(chunks[1..], step)
  }

  /** Gluing the fresh parts of the windows opened from `start` on gives
      back the text from `start` on. */
  lemma {:induction false} FreshFromRebuilds(text: string, chunkSize: int, step: nat, start: nat)
    requires 1 <= step <= chunkSize
    requires start <= |text|
    ensures Join(Fresh(Windows(text, chunkSize, Starts(|text|, step, start)), step), "") == text[start..]
    decreases |text| - start
  {
    var n := |text|;
    if start < n {
      var mid := Min(n, start + step);
      var restParts := Fresh(Windows(text, chunkSize, Starts(n, step, start + step)), step);
      var parts := Fresh(Windows(text, chunkSize, Starts(n, step, start)), step);
      assert parts == [text[start..mid]] + restParts by {
        FreshStep(text, chunkSize, step, start);
      }
      if start + step < n {
        assert |restParts| > 0 && Join(restParts, "") == text[mid..] by {
          FreshFromRebuilds(text, chunkSize, step, start + step);
        }
        GlueFront(text, start, mid, parts, restParts);
      } else {
        assert |restParts| == 0 by {
          assert Starts(n, step, start + step) == [];
        }
        assert mid == n && parts == [text[start..mid]] + [];
        assert text[start..mid] == text[start..];
      }
    }
  }

  /** One more piece glued in front of pieces that rebuild `text[mid..]`
      rebuilds `text[start..]`. */
  lemma {:induction false} GlueFront(text: string, start: nat, mid: nat, parts: seq<string>, restParts: seq<string>)
    requires start <= mid <= |text|
    requires parts == [text[start..mid]] + restParts
    requires |restParts| > 0 && Join(restParts, "") == text[mid..]
    ensures Join(parts, "") == text[start..]
  {
    JoinCons(text[start..mid], restParts, "");
    assert text[start..] == text[start..mid] + text[mid..];
  }

  /** The first fresh part of the windows opened at `start` is
      `text[start : start + step]`, followed by the fresh parts of the
      windows opened from `start + step` on. */
  lemma FreshStep(text: string, chunkSize: int, step: nat, start: nat)
    requires 1 <= step <= chunkSize
    requires start < |text|
    ensures Fresh(Windows(text, chunkSize, Starts(|text|, step, start)), step)
      == [text[start .. Min(|text|, start + step)]]
         + Fresh(Windows(text, chunkSize, Starts(|text|, step, start + step)), step)
  {
    var n := |text|;
    var rest := Windows(text, chunkSize, Starts(n, step, start + step));
    var w := Slice(text, start, start + chunkSize);
    assert Windows(text, chunkSize, Starts(n, step, start)) == [w] + rest by {
      assert Starts(n, step, start) == [start] + Starts(n, step, start + step);
      WindowsCons(text, chunkSize, start, Starts(n, step, start + step));
    }
    assert w[..Min(step, |w|)] == text[start .. Min(n, start + step)] by {
      WindowInside(text, start, chunkSize);
      assert w == text[start .. Min(n, start + chunkSize)];
      assert Min(step, |w|) == Min(n, start + step) - start;
    }
    assert ([w] + rest)[1..] == rest;
  }

  /** No character is lost: with a positive window length and a non-negative
      overlap, concatenating the first `min(step, len(chunk))` characters of
      every window gives back the original text. */
  lemma ChunksRoundTrip(text: string, chunkSize: int, overlap: int)
    requires chunkSize >= 1 && overlap >= 0
    ensures Join(Fresh(Chunks(text, chunkSize, overlap), Step(chunkSize, overlap)), "") == text
  {
    FreshFromRebuilds(text, chunkSize, Step(chunkSize, overlap), 0);
  }
}
