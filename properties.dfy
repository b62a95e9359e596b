/**
 * What `color_chunks` promises about its output, proved about the window
 * specification in ColorChunks (which the loop is proved to follow).
 *
 * Most statements assume the usual configuration `0 <= overlapSize < chunkSize`,
 * where the stride is positive and every slice bound is non-negative. Window `k`
 * then starts at `RangeAt(stride, k) == k * stride` (PyText.RangeAtIsProduct).
 */
module ChunkProperties {
  import opened PyText
  import opened Spans
  import opened ColorChunks

  /** Where the coloured part of window `k` starts in the text: at the window's
      start for the first window, and just past the carried overlap otherwise. */
  function ChunkStart(text: string, chunkSize: int, overlapSize: int, k: nat): (r: nat)
    requires 0 <= overlapSize < chunkSize
    ensures r <= |text|
  {
    RangeAtSign(chunkSize - overlapSize, k);
    if k == 0 then 0 else Min(RangeAt(chunkSize - overlapSize, k) + overlapSize, |text|)
  }

  /** Where window `k`, and so its coloured part, ends in the text. */
  function ChunkEnd(text: string, chunkSize: int, overlapSize: int, k: nat): (r: nat)
    requires 0 <= overlapSize < chunkSize
    ensures r <= |text|
  {
    RangeAtSign(chunkSize - overlapSize, k);
    Min(RangeAt(chunkSize - overlapSize, k) + chunkSize, |text|)
  }

  /** Window `k` is the clamped substring `text[i : i + chunkSize]` at `i = k * stride`. */
  lemma WindowAt(text: string, chunkSize: int, overlapSize: int, k: nat)
    requires 0 <= overlapSize < chunkSize
    ensures var i := RangeAt(chunkSize - overlapSize, k);
            0 <= i && Window(text, chunkSize, overlapSize, k) == text[Min(i, |text|)..Min(i + chunkSize, |text|)]
  {
    var i := RangeAt(chunkSize - overlapSize, k);
    RangeAtSign(chunkSize - overlapSize, k);
    SliceNonNegative(text, i, i + chunkSize);
  }

  /** The overlap carried into window `k >= 1` is the first `overlapSize`
      characters of that window (fewer near the end of the text). */
  lemma OverlapAt(text: string, chunkSize: int, overlapSize: int, k: nat)
    requires 0 <= overlapSize < chunkSize && k >= 1
    ensures var i := RangeAt(chunkSize - overlapSize, k);
            0 <= i && CarriedOverlap(text, chunkSize, overlapSize, k) == text[Min(i, |text|)..Min(i + overlapSize, |text|)]
  {
    var p := RangeAt(chunkSize - overlapSize, k - 1);
    RangeAtSign(chunkSize - overlapSize, k - 1);
    RangeAtSign(chunkSize - overlapSize, k);
    SliceNonNegative(text, p + chunkSize - overlapSize, p + chunkSize);
  }

  /** The coloured part of window `k` is `text[ChunkStart(k) : ChunkEnd(k)]`. */
  lemma ChunkBodyAt(text: string, chunkSize: int, overlapSize: int, k: nat)
    requires 0 <= overlapSize < chunkSize
    ensures ChunkStart(text, chunkSize, overlapSize, k) <= ChunkEnd(text, chunkSize, overlapSize, k)
    ensures ChunkBody(text, chunkSize, overlapSize, k)
            == text[ChunkStart(text, chunkSize, overlapSize, k)..ChunkEnd(text, chunkSize, overlapSize, k)]
  {
    hide *;
    var n := |text|;
    var i := RangeAt(chunkSize - overlapSize, k);
    var w := Window(text, chunkSize, overlapSize, k);
    var o := CarriedOverlap(text, chunkSize, overlapSize, k);
    WindowAt(text, chunkSize, overlapSize, k);
    ChunkBounds(text, chunkSize, overlapSize, k);
    MinCases(i, n);
    MinCases(i + overlapSize, n);
    MinCases(i + chunkSize, n);
    var a := Min(i, n);
    var e := Min(i + chunkSize, n);
    var m := ChunkStart(text, chunkSize, overlapSize, k);
    if k == 0 {
      Start(text, chunkSize, overlapSize);
    } else {
      OverlapAt(text, chunkSize, overlapSize, k);
    }
    assert a <= m <= e && o == text[a..m];
    MinCases(|o|, |w|);
    MinCases(|w|, |w|);
    SliceNonNegative(w, |o|, |w|);
    assert w[|o|..|w|] == text[m..e];
  }

  /** The two ends of a coloured part, unfolded; and the chunk body as a slice of the window. */
  lemma ChunkBounds(text: string, chunkSize: int, overlapSize: int, k: nat)
    requires 0 <= overlapSize < chunkSize
    ensures ChunkStart(text, chunkSize, overlapSize, k)
            == if k == 0 then 0 else Min(RangeAt(chunkSize - overlapSize, k) + overlapSize, |text|)
    ensures ChunkEnd(text, chunkSize, overlapSize, k) == Min(RangeAt(chunkSize - overlapSize, k) + chunkSize, |text|)
    ensures var w := Window(text, chunkSize, overlapSize, k);
            ChunkBody(text, chunkSize, overlapSize, k) == Slice(w, |CarriedOverlap(text, chunkSize, overlapSize, k)|, |w|)
  {
  }

  /** Each window contributes exactly one coloured span, and the gray span (if any)
      that precedes it. */
  lemma WindowSpansByKind(text: string, chunkSize: int, overlapSize: int, k: nat)
    ensures OfKind(WindowSpans(text, chunkSize, overlapSize, k), ChunkKind)
            == [Span(ChunkKind, ChunkColors[k % |ChunkColors|], ChunkBody(text, chunkSize, overlapSize, k))]
    ensures OfKind(WindowSpans(text, chunkSize, overlapSize, k), OverlapKind)
            == OverlapSpans(CarriedOverlap(text, chunkSize, overlapSize, k))
  {
    var g := OverlapSpans(CarriedOverlap(text, chunkSize, overlapSize, k));
    var x := Span(ChunkKind, ChunkColors[k % |ChunkColors|], ChunkBody(text, chunkSize, overlapSize, k));
    OfKindAppend(g, [x], ChunkKind);
    OfKindAppend(g, [x], OverlapKind);
    assert [x][..0] == [];
    if g != [] {
      assert g[..0] == [];
    }
  }

  /** Window `k` adds its spans of each kind after those of the earlier windows. */
  lemma WindowsByKind(text: string, chunkSize: int, overlapSize: int, k: nat, kind: SpanKind)
    ensures OfKind(Windows(text, chunkSize, overlapSize, k + 1), kind)
            == OfKind(Windows(text, chunkSize, overlapSize, k), kind) + OfKind(WindowSpans(text, chunkSize, overlapSize, k), kind)
  {
    OfKindAppend(Windows(text, chunkSize, overlapSize, k), WindowSpans(text, chunkSize, overlapSize, k), kind);
  }

  /** The loop emits exactly one coloured span per window. */
  lemma {:induction false} ChunkSpanCount(text: string, chunkSize: int, overlapSize: int, k: nat)
    ensures |OfKind(Windows(text, chunkSize, overlapSize, k), ChunkKind)| == k
  {
    hide *;
    if k == 0 {
      NoWindows(text, chunkSize, overlapSize);
    } else {
      ChunkSpanCount(text, chunkSize, overlapSize, k - 1);
      WindowsByKind(text, chunkSize, overlapSize, k - 1, ChunkKind);
      WindowSpansByKind(text, chunkSize, overlapSize, k - 1);
    }
  }

  /** The coloured span of window `j` is drawn in palette colour `j mod 6` and
      shows that window's chunk body. */
  lemma {:induction false} ChunkSpanAt(text: string, chunkSize: int, overlapSize: int, k: nat, j: nat)
    requires j < k
    ensures |OfKind(Windows(text, chunkSize, overlapSize, k), ChunkKind)| == k
    ensures OfKind(Windows(text, chunkSize, overlapSize, k), ChunkKind)[j]
            == Span(ChunkKind, ChunkColors[j % |ChunkColors|], ChunkBody(text, chunkSize, overlapSize, j))
  {
    hide *;
    ChunkSpanCount(text, chunkSize, overlapSize, k);
    ChunkSpanCount(text, chunkSize, overlapSize, k - 1);
    WindowsByKind(text, chunkSize, overlapSize, k - 1, ChunkKind);
    WindowSpansByKind(text, chunkSize, overlapSize, k - 1);
    if j < k - 1 {
      ChunkSpanAt(text, chunkSize, overlapSize, k - 1, j);
    }
  }

  lemma NoWindows(text: string, chunkSize: int, overlapSize: int)
    ensures Windows(text, chunkSize, overlapSize, 0) == []
    ensures OfKind(Windows(text, chunkSize, overlapSize, 0), ChunkKind) == []
    ensures OfKind(Windows(text, chunkSize, overlapSize, 0), OverlapKind) == []
    ensures Bodies([]) == []
  {
  }

  lemma ChunkStartsAtZero(text: string, chunkSize: int, overlapSize: int)
    requires 0 <= overlapSize < chunkSize
    ensures ChunkStart(text, chunkSize, overlapSize, 0) == 0
  {
  }

  /** The coloured part of window `k` starts exactly where that of window `k - 1` ended. */
  lemma ChunksAdjoin(text: string, chunkSize: int, overlapSize: int, k: nat)
    requires 0 <= overlapSize < chunkSize && k >= 1
    ensures ChunkStart(text, chunkSize, overlapSize, k) == ChunkEnd(text, chunkSize, overlapSize, k - 1)
  {
  }

  /** The coloured spans of the first `k` windows spell out the text up to the
      end of window `k - 1`. */
  lemma {:induction false} ChunkTextPrefix(text: string, chunkSize: int, overlapSize: int, k: nat)
    requires 0 <= overlapSize < chunkSize && k >= 1
    ensures Bodies(OfKind(Windows(text, chunkSize, overlapSize, k), ChunkKind))
            == text[..ChunkEnd(text, chunkSize, overlapSize, k - 1)]
  {
    hide *;
    Palette();
    var j := k - 1;
    var x := Span(ChunkKind, ChunkColors[j % |ChunkColors|], ChunkBody(text, chunkSize, overlapSize, j));
    WindowsByKind(text, chunkSize, overlapSize, j, ChunkKind);
    WindowSpansByKind(text, chunkSize, overlapSize, j);
    ChunkBodyAt(text, chunkSize, overlapSize, j);
    BodiesSingle(x);
    var before := OfKind(Windows(text, chunkSize, overlapSize, j), ChunkKind);
    BodiesAppend(before, [x]);
    var e := ChunkEnd(text, chunkSize, overlapSize, j);
    if j == 0 {
      NoWindows(text, chunkSize, overlapSize);
      ChunkStartsAtZero(text, chunkSize, overlapSize);
      assert text[..e] == [] + text[0..e];
    } else {
      ChunkTextPrefix(text, chunkSize, overlapSize, j);
      ChunksAdjoin(text, chunkSize, overlapSize, j);
      var a := ChunkStart(text, chunkSize, overlapSize, j);
      assert text[..e] == text[..a] + text[a..e];
    }
  }

  /** Window `k` exists (`k < WindowCount`) exactly when its offset lies inside the text. */
  lemma WindowExists(text: string, chunkSize: int, overlapSize: int, k: nat)
    requires 0 <= overlapSize < chunkSize
    ensures var i := RangeAt(chunkSize - overlapSize, k);
            0 <= i && (k < WindowCount(text, chunkSize, overlapSize) <==> i < |text|)
  {
    RangeAtSign(chunkSize - overlapSize, k);
    RangeLenCounts(|text|, chunkSize - overlapSize, k);
  }

  /** No gray span precedes window 0. Before every later window the gray span
      repeats exactly the first `overlapSize` characters of that window (fewer at
      the end of the text), and there is none at all when `overlapSize == 0`. */
  lemma WindowGray(text: string, chunkSize: int, overlapSize: int, k: nat)
    requires 0 <= overlapSize < chunkSize && k < WindowCount(text, chunkSize, overlapSize)
    ensures var i := RangeAt(chunkSize - overlapSize, k);
            && 0 <= i < |text|
            && OfKind(WindowSpans(text, chunkSize, overlapSize, k), OverlapKind)
               == if k == 0 || overlapSize == 0 then []
                  else [Span(OverlapKind, OverlapColor, text[i..Min(i + overlapSize, |text|)])]
  {
    hide *;
    var i := RangeAt(chunkSize - overlapSize, k);
    var o := CarriedOverlap(text, chunkSize, overlapSize, k);
    WindowExists(text, chunkSize, overlapSize, k);
    WindowSpansByKind(text, chunkSize, overlapSize, k);
    OverlapSpansOf(o);
    if k == 0 {
      Start(text, chunkSize, overlapSize);
    } else {
      OverlapAt(text, chunkSize, overlapSize, k);
      MinCases(i, |text|);
      MinCases(i + overlapSize, |text|);
    }
  }

  /** There is one gray span for each window after the first when the overlap is
      non-zero, and none otherwise. */
  lemma {:induction false} GraySpanCount(text: string, chunkSize: int, overlapSize: int, k: nat)
    requires 0 <= overlapSize < chunkSize && k <= WindowCount(text, chunkSize, overlapSize)
    ensures |OfKind(Windows(text, chunkSize, overlapSize, k), OverlapKind)| == if k == 0 || overlapSize == 0 then 0 else k - 1
  {
    hide *;
    if k == 0 {
      NoWindows(text, chunkSize, overlapSize);
    } else {
      GraySpanCount(text, chunkSize, overlapSize, k - 1);
      WindowsByKind(text, chunkSize, overlapSize, k - 1, OverlapKind);
      WindowGray(text, chunkSize, overlapSize, k - 1);
    }
  }

  /** The `j`-th gray span is the one before window `j + 1`: it holds
      `text[i : i + overlapSize]` (clamped) at that window's offset `i`. */
  lemma {:induction false} GraySpanAt(text: string, chunkSize: int, overlapSize: int, k: nat, j: nat)
    requires 0 < overlapSize < chunkSize && j + 1 < k <= WindowCount(text, chunkSize, overlapSize)
    ensures |OfKind(Windows(text, chunkSize, overlapSize, k), OverlapKind)| == k - 1
    ensures var i := RangeAt(chunkSize - overlapSize, j + 1);
            && 0 <= i < |text|
            && OfKind(Windows(text, chunkSize, overlapSize, k), OverlapKind)[j]
               == Span(OverlapKind, OverlapColor, text[i..Min(i + overlapSize, |text|)])
  {
    hide *;
    GraySpanCount(text, chunkSize, overlapSize, k);
    GraySpanCount(text, chunkSize, overlapSize, k - 1);
    WindowsByKind(text, chunkSize, overlapSize, k - 1, OverlapKind);
    WindowGray(text, chunkSize, overlapSize, k - 1);
    if j + 2 < k {
      GraySpanAt(text, chunkSize, overlapSize, k - 1, j);
    }
  }

  /** With a non-zero stride the result is the spans of all `WindowCount` windows. */
  lemma AllWindows(text: string, chunkSize: int, overlapSize: int)
    requires chunkSize != overlapSize
    ensures WindowCount(text, chunkSize, overlapSize) == RangeLen(|text|, chunkSize - overlapSize)
    ensures ColoredSpans(text, chunkSize, overlapSize)
            == Ok(Windows(text, chunkSize, overlapSize, WindowCount(text, chunkSize, overlapSize)))
  {
  }

  /** The last window reaches the end of the text: the offset after it is out of range. */
  lemma LastChunkEnd(text: string, chunkSize: int, overlapSize: int, k: nat)
    requires 0 <= overlapSize < chunkSize && k >= 1
    requires !InRange(RangeAt(chunkSize - overlapSize, k), |text|, chunkSize - overlapSize)
    ensures ChunkEnd(text, chunkSize, overlapSize, k - 1) == |text|
  {
  }

  /** Reading only the coloured spans, in order, gives back the text exactly:
      the windows' coloured parts tile the input without gap or repetition. */
  lemma ChunkSpansReassemble(text: string, chunkSize: int, overlapSize: int)
    requires 0 <= overlapSize < chunkSize
    ensures ColoredSpans(text, chunkSize, overlapSize).Ok?
    ensures Bodies(OfKind(ColoredSpans(text, chunkSize, overlapSize).value, ChunkKind)) == text
  {
    hide *;
    AllWindows(text, chunkSize, overlapSize);
    var step := chunkSize - overlapSize;
    var count := WindowCount(text, chunkSize, overlapSize);
    RangeLenCounts(|text|, step, 0);
    StartsAtZero(step);
    if count == 0 {
      NoWindows(text, chunkSize, overlapSize);
      assert text == [];
    } else {
      RangeLenCounts(|text|, step, count);
      ChunkTextPrefix(text, chunkSize, overlapSize, count);
      LastChunkEnd(text, chunkSize, overlapSize, count);
      assert text[..|text|] == text;
    }
  }

  /** With a positive stride there are `ceil(len(text) / stride)` windows, one
      coloured span for each, and a gray span for each window after the first
      unless the overlap is zero. */
  lemma SpanCounts(text: string, chunkSize: int, overlapSize: int)
    requires 0 <= overlapSize < chunkSize
    ensures var count := (|text| + (chunkSize - overlapSize) - 1) / (chunkSize - overlapSize);
            && ColoredSpans(text, chunkSize, overlapSize).Ok?
            && WindowCount(text, chunkSize, overlapSize) == count
            && |OfKind(ColoredSpans(text, chunkSize, overlapSize).value, ChunkKind)| == count
            && |OfKind(ColoredSpans(text, chunkSize, overlapSize).value, OverlapKind)|
               == (if count == 0 || overlapSize == 0 then 0 else count - 1)
            && |ColoredSpans(text, chunkSize, overlapSize).value|
               == if count == 0 then 0 else if overlapSize == 0 then count else 2 * count - 1
  {
    hide *;
    AllWindows(text, chunkSize, overlapSize);
    RangeLenCeil(|text|, chunkSize - overlapSize);
    var count := WindowCount(text, chunkSize, overlapSize);
    ChunkSpanCount(text, chunkSize, overlapSize, count);
    GraySpanCount(text, chunkSize, overlapSize, count);
    OfKindPartition(Windows(text, chunkSize, overlapSize, count));
  }

  /** The markup grows window by window: the markup of the first `k + 1` windows
      is that of the first `k` followed by the markup of window `k`'s own spans. */
  lemma MarkupByWindow(text: string, chunkSize: int, overlapSize: int, k: nat)
    ensures RenderAll(Windows(text, chunkSize, overlapSize, k + 1))
            == RenderAll(Windows(text, chunkSize, overlapSize, k)) + RenderAll(WindowSpans(text, chunkSize, overlapSize, k))
  {
    hide *;
    WindowsUnfold(text, chunkSize, overlapSize, k);
    RenderAllAppend(Windows(text, chunkSize, overlapSize, k), WindowSpans(text, chunkSize, overlapSize, k));
  }

  /** A span's colour is decided by its kind: gray for repeated overlap text, a
      palette entry for window text. */
  predicate WellColored(x: Span)
  {
    && (x.kind == OverlapKind ==> x.color == OverlapColor)
    && (x.kind == ChunkKind ==> x.color in ChunkColors)
  }

  lemma WindowColors(text: string, chunkSize: int, overlapSize: int, k: nat)
    ensures forall x | x in WindowSpans(text, chunkSize, overlapSize, k) :: WellColored(x)
  {
  }

  /** Every span of every window is drawn in the colour of its kind. */
  lemma {:induction false} SpanColors(text: string, chunkSize: int, overlapSize: int, k: nat)
    ensures forall x | x in Windows(text, chunkSize, overlapSize, k) :: WellColored(x)
  {
    hide *;
    if k == 0 {
      NoWindows(text, chunkSize, overlapSize);
    } else {
      SpanColors(text, chunkSize, overlapSize, k - 1);
      WindowColors(text, chunkSize, overlapSize, k - 1);
      WindowsUnfold(text, chunkSize, overlapSize, k - 1);
    }
  }

  /** Every gray span of the first `k` windows is non-empty. */
  lemma GrayNonEmpty(text: string, chunkSize: int, overlapSize: int, k: nat)
    requires 0 <= overlapSize < chunkSize && k <= WindowCount(text, chunkSize, overlapSize)
    ensures var gray := OfKind(Windows(text, chunkSize, overlapSize, k), OverlapKind);
            forall j | 0 <= j < |gray| :: gray[j].body != []
  {
    hide *;
    var gray := OfKind(Windows(text, chunkSize, overlapSize, k), OverlapKind);
    GraySpanCount(text, chunkSize, overlapSize, k);
    forall j | 0 <= j < |gray|
      ensures gray[j].body != []
    {
      GrayBodyNonEmpty(text, chunkSize, overlapSize, k, j);
    }
  }

  lemma GrayBodyNonEmpty(text: string, chunkSize: int, overlapSize: int, k: nat, j: nat)
    requires 0 < overlapSize < chunkSize && j + 1 < k <= WindowCount(text, chunkSize, overlapSize)
    ensures |OfKind(Windows(text, chunkSize, overlapSize, k), OverlapKind)| == k - 1
    ensures OfKind(Windows(text, chunkSize, overlapSize, k), OverlapKind)[j].body != []
  {
    hide *;
    GraySpanAt(text, chunkSize, overlapSize, k, j);
    MinCases(RangeAt(chunkSize - overlapSize, j + 1) + overlapSize, |text|);
  }

  /** The text left once all markup is stripped is the input plus every gray
      span's repeated overlap text, so it is strictly longer than the input as
      soon as the overlap is non-zero and there are two windows or more. */
  lemma VisibleLength(text: string, chunkSize: int, overlapSize: int)
    requires 0 <= overlapSize < chunkSize
    ensures ColoredSpans(text, chunkSize, overlapSize).Ok?
    ensures var spans := ColoredSpans(text, chunkSize, overlapSize).value;
            |Bodies(spans)| == |text| + |Bodies(OfKind(spans, OverlapKind))|
    ensures overlapSize > 0 && |text| > chunkSize - overlapSize
            ==> |Bodies(ColoredSpans(text, chunkSize, overlapSize).value)| > |text|
  {
    hide *;
    AllWindows(text, chunkSize, overlapSize);
    ChunkSpansReassemble(text, chunkSize, overlapSize);
    var count := WindowCount(text, chunkSize, overlapSize);
    var spans := Windows(text, chunkSize, overlapSize, count);
    BodiesByKind(spans);
    if overlapSize > 0 && |text| > chunkSize - overlapSize {
      SecondWindow(text, chunkSize, overlapSize);
      GraySpanCount(text, chunkSize, overlapSize, count);
      GrayNonEmpty(text, chunkSize, overlapSize, count);
      BodiesNonEmpty(OfKind(spans, OverlapKind));
    }
  }

  /** There is a second window exactly when the text is longer than one stride. */
  lemma SecondWindow(text: string, chunkSize: int, overlapSize: int)
    requires 0 <= overlapSize < chunkSize
    ensures WindowCount(text, chunkSize, overlapSize) >= 2 <==> |text| > chunkSize - overlapSize
  {
    WindowExists(text, chunkSize, overlapSize, 1);
  }

  /** The markup adds 48 characters per span to the visible text: 41 for the
      tags and 7 for the `#rrggbb` colour. */
  lemma MarkupLength(text: string, chunkSize: int, overlapSize: int)
    requires 0 <= overlapSize < chunkSize
    ensures ColoredSpans(text, chunkSize, overlapSize).Ok?
    ensures var spans := ColoredSpans(text, chunkSize, overlapSize).value;
            |Rendered(ColoredSpans(text, chunkSize, overlapSize)).value|
            == |text| + |Bodies(OfKind(spans, OverlapKind))| + 48 * |spans|
  {
    hide *;
    AllWindows(text, chunkSize, overlapSize);
    var count := WindowCount(text, chunkSize, overlapSize);
    var spans := Windows(text, chunkSize, overlapSize, count);
    VisibleLength(text, chunkSize, overlapSize);
    SpanColors(text, chunkSize, overlapSize, count);
    ColorWidth(spans);
    RenderedLength(spans);
    RenderedOk(spans);
  }

  /** Well-coloured spans carry 7-character colours. */
  lemma ColorWidth(spans: seq<Span>)
    requires forall x | x in spans :: WellColored(x)
    ensures forall x | x in spans :: |x.color| == 7
  {
    Palette();
  }

  lemma RenderedOk(spans: seq<Span>)
    ensures Rendered(Ok(spans)) == Ok(RenderAll(spans))
  {
  }

  /** Windows near the end of the text are cut short: window `k` holds
      `min(chunkSize, len(text) - i)` characters at its offset `i`. */
  lemma ShortWindows(text: string, chunkSize: int, overlapSize: int, k: nat)
    requires 0 <= overlapSize < chunkSize && k < WindowCount(text, chunkSize, overlapSize)
    ensures var i := RangeAt(chunkSize - overlapSize, k);
            |Window(text, chunkSize, overlapSize, k)| == Min(chunkSize, |text| - i)
  {
    WindowExists(text, chunkSize, overlapSize, k);
    WindowAt(text, chunkSize, overlapSize, k);
  }

  /** A coloured span is empty exactly when its window is a later one that the
      carried overlap covers completely, i.e. reaches the end of the text. */
  lemma EmptyChunkSpan(text: string, chunkSize: int, overlapSize: int, k: nat)
    requires 0 <= overlapSize < chunkSize && k < WindowCount(text, chunkSize, overlapSize)
    ensures ChunkBody(text, chunkSize, overlapSize, k) == []
            <==> k >= 1 && RangeAt(chunkSize - overlapSize, k) + overlapSize >= |text|
  {
    WindowExists(text, chunkSize, overlapSize, k);
    ChunkBodyAt(text, chunkSize, overlapSize, k);
  }

  /** Degenerate strides: a zero stride is the error `range()` raises; a negative
      stride (overlap larger than the chunk) and an empty text both give no
      windows and the empty string. Otherwise there is at least one span. */
  lemma DegenerateStrides(text: string, chunkSize: int, overlapSize: int)
    ensures ColoredSpans(text, chunkSize, overlapSize).Err? <==> chunkSize == overlapSize
    ensures chunkSize != overlapSize
            ==> (ColoredSpans(text, chunkSize, overlapSize) == Ok([]) <==> overlapSize > chunkSize || text == [])
    ensures chunkSize != overlapSize && (overlapSize > chunkSize || text == [])
            ==> Rendered(ColoredSpans(text, chunkSize, overlapSize)) == Ok([])
  {
    if chunkSize != overlapSize {
      var step := chunkSize - overlapSize;
      var count := WindowCount(text, chunkSize, overlapSize);
      StartsAtZero(step);
      RangeLenCounts(|text|, step, 0);
      if count > 0 {
        WindowsUnfold(text, chunkSize, overlapSize, count - 1);
      }
    }
  }

  /** Window `k >= 1` given its slices: the window, the overlap carried into it
      (its first `overlapSize` characters) and its coloured remainder. */
  lemma WindowFromSlices(text: string, chunkSize: int, overlapSize: int, k: nat, i: int, window: string, overlap: string, body: string)
    requires k >= 1 && i == RangeAt(chunkSize - overlapSize, k) && 0 <= overlapSize < chunkSize && i >= 0
    requires window == Slice(text, i, i + chunkSize)
    requires overlap == Slice(text, i, i + overlapSize)
    requires body == Slice(window, |overlap|, |window|)
    ensures WindowSpans(text, chunkSize, overlapSize, k) == OverlapSpans(overlap) + [Span(ChunkKind, ChunkColors[k % |ChunkColors|], body)]
  {
    assert i - (chunkSize - overlapSize) == RangeAt(chunkSize - overlapSize, k - 1);
  }

  /** `color_chunks("abcdefgh", 4, 2)`: coloured `abcd`, gray `cd`, coloured `ef`,
      gray `ef`, coloured `gh`, gray `gh`, and a final empty coloured span for
      the window at offset 6, which the carried overlap covers entirely. */
  lemma ExampleOverlapTwo()
    ensures ColoredSpans("abcdefgh", 4, 2) == Ok([
      Span(ChunkKind, "#a8d08d", "abcd"), Span(OverlapKind, "#808080", "cd"),
      Span(ChunkKind, "#c6dbef", "ef"), Span(OverlapKind, "#808080", "ef"),
      Span(ChunkKind, "#e6550d", "gh"), Span(OverlapKind, "#808080", "gh"),
      Span(ChunkKind, "#fd8d3c", "")])
  {
    var t := "abcdefgh";
    assert |t| == 8 && RangeLen(8, 2) == 4;
    assert WindowCount(t, 4, 2) == 4;
    assert Window(t, 4, 2, 0) == "abcd";
    assert ChunkBody(t, 4, 2, 0) == "abcd";
    assert WindowSpans(t, 4, 2, 0) == [Span(ChunkKind, "#a8d08d", "abcd")];
    assert Windows(t, 4, 2, 4) == WindowSpans(t, 4, 2, 0) + WindowSpans(t, 4, 2, 1) + WindowSpans(t, 4, 2, 2) + WindowSpans(t, 4, 2, 3);
    WindowFromSlices(t, 4, 2, 1, 2, "cdef", "cd", "ef");
    WindowFromSlices(t, 4, 2, 2, 4, "efgh", "ef", "gh");
    WindowFromSlices(t, 4, 2, 3, 6, "gh", "gh", "");
    assert OverlapSpans("cd") == [Span(OverlapKind, "#808080", "cd")];
    assert OverlapSpans("ef") == [Span(OverlapKind, "#808080", "ef")];
    assert OverlapSpans("gh") == [Span(OverlapKind, "#808080", "gh")];
    assert ChunkColors[1] == "#c6dbef" && ChunkColors[2] == "#e6550d" && ChunkColors[3] == "#fd8d3c";
    assert WindowSpans(t, 4, 2, 1) == [Span(OverlapKind, "#808080", "cd"), Span(ChunkKind, "#c6dbef", "ef")];
    assert WindowSpans(t, 4, 2, 2) == [Span(OverlapKind, "#808080", "ef"), Span(ChunkKind, "#e6550d", "gh")];
    assert WindowSpans(t, 4, 2, 3) == [Span(OverlapKind, "#808080", "gh"), Span(ChunkKind, "#fd8d3c", "")];
    assert ColoredSpans(t, 4, 2) == Ok(Windows(t, 4, 2, 4));
    var a := Span(ChunkKind, "#a8d08d", "abcd");
    var b := Span(OverlapKind, "#808080", "cd");
    var c := Span(ChunkKind, "#c6dbef", "ef");
    var d := Span(OverlapKind, "#808080", "ef");
    var e := Span(ChunkKind, "#e6550d", "gh");
    var f := Span(OverlapKind, "#808080", "gh");
    var g := Span(ChunkKind, "#fd8d3c", "");
    assert [a] + [b, c] + [d, e] + [f, g] == [a, b, c, d, e, f, g];
  }

  /** `color_chunks("abcdefgh", 4, 3)` has stride 1 and eight windows, of which
      the last three are cut short to 3, 2 and 1 characters. */
  lemma ExampleShortWindows()
    ensures WindowCount("abcdefgh", 4, 3) == 8
    ensures |Window("abcdefgh", 4, 3, 4)| == 4
    ensures |Window("abcdefgh", 4, 3, 5)| == 3
    ensures |Window("abcdefgh", 4, 3, 6)| == 2
    ensures |Window("abcdefgh", 4, 3, 7)| == 1
  {
    var t := "abcdefgh";
    SpanCounts(t, 4, 3);
    assert |t| == 8;
    RangeAtIsProduct(1, 4);
    RangeAtIsProduct(1, 5);
    RangeAtIsProduct(1, 6);
    RangeAtIsProduct(1, 7);
    ShortWindows(t, 4, 3, 4);
    ShortWindows(t, 4, 3, 5);
    ShortWindows(t, 4, 3, 6);
    ShortWindows(t, 4, 3, 7);
  }
}
