/**
 * `color_chunks`: a sliding window of `chunkSize` characters moves over the text
 * with stride `chunkSize - overlapSize`. Each window after the first begins with
 * the overlap carried over from the previous window, shown in gray; the rest of
 * the window is shown in the next colour of a six-colour palette.
 *
 * The specification is given per window (WindowSpans) and the loop is proved
 * against it (ColorChunks).
 */
module ColorChunks {
  import opened PyText
  import opened Spans

  /** The failure `range()` raises when its step is zero (a Python ValueError). */
  datatype Error = ZeroStep

  datatype Result<T> = Ok(value: T) | Err(error: Error)

  /** Window `k` itself: `text[i:i+chunk_size]`. */
  function Window(text: string, chunkSize: int, overlapSize: int, k: nat): string
  {
    var i := RangeAt(chunkSize - overlapSize, k);
    Slice(text, i, i + chunkSize)
  }

  /** The overlap string held when window `k` starts: empty before the first
      window, otherwise the tail that window `k - 1` set aside,
      `text[i+chunk_size-overlap_size:i+chunk_size]` at that window's offset `i`. */
  function CarriedOverlap(text: string, chunkSize: int, overlapSize: int, k: nat): string
  {
    if k == 0 then ""
    else
      var i := RangeAt(chunkSize - overlapSize, k - 1);
      Slice(text, i + chunkSize - overlapSize, i + chunkSize)
  }

  /** What window `k` shows in colour: the window minus as many leading
      characters as the carried overlap holds, `chunk[len(overlap):]`. */
  function ChunkBody(text: string, chunkSize: int, overlapSize: int, k: nat): string
  {
    var overlap := CarriedOverlap(text, chunkSize, overlapSize, k);
    var chunk := Window(text, chunkSize, overlapSize, k);
    Slice(chunk, |overlap|, |chunk|)
  }

  /** The spans window `k` emits: the carried overlap in gray when it is
      non-empty, then the chunk body in palette colour `k mod 6`. */
  function WindowSpans(text: string, chunkSize: int, overlapSize: int, k: nat): seq<Span>
  {
    OverlapSpans(CarriedOverlap(text, chunkSize, overlapSize, k))
    + [Span(ChunkKind, ChunkColors[k % |ChunkColors|], ChunkBody(text, chunkSize, overlapSize, k))]
  }

  /** The spans of the first `k` windows, in order. */
  function Windows(text: string, chunkSize: int, overlapSize: int, k: nat): seq<Span>
  {
    if k == 0 then [] else Windows(text, chunkSize, overlapSize, k - 1) + WindowSpans(text, chunkSize, overlapSize, k - 1)
  }

  /** The number of windows: `len(range(0, len(text), step))`. */
  function WindowCount(text: string, chunkSize: int, overlapSize: int): nat
    requires chunkSize != overlapSize
  {
    RangeLen(|text|, chunkSize - overlapSize)
  }

  /** All spans of `color_chunks(text, chunkSize, overlapSize)`, or the error a
      zero stride raises. */
  function ColoredSpans(text: string, chunkSize: int, overlapSize: int): Result<seq<Span>>
  {
    if chunkSize == overlapSize then Err(ZeroStep)
    else Ok(Windows(text, chunkSize, overlapSize, WindowCount(text, chunkSize, overlapSize)))
  }

  function Rendered(spans: Result<seq<Span>>): Result<string>
  {
    match spans
    case Ok(s) => Ok(RenderAll(s))
    case Err(e) => Err(e)
  }

  lemma WindowsUnfold(text: string, chunkSize: int, overlapSize: int, k: nat)
    ensures Windows(text, chunkSize, overlapSize, k + 1)
            == Windows(text, chunkSize, overlapSize, k) + WindowSpans(text, chunkSize, overlapSize, k)
  {
  }

  /** Window `k`'s spans in terms of the loop's variables at that window. */
  lemma WindowSpansAt(text: string, chunkSize: int, overlapSize: int, k: nat, i: int, overlap: string, colorIndex: nat, body: string)
    requires i == RangeAt(chunkSize - overlapSize, k)
    requires overlap == CarriedOverlap(text, chunkSize, overlapSize, k)
    requires colorIndex == k % |ChunkColors|
    requires var chunk := Slice(text, i, i + chunkSize); body == Slice(chunk, |overlap|, |chunk|)
    ensures WindowSpans(text, chunkSize, overlapSize, k) == OverlapSpans(overlap) + [Span(ChunkKind, ChunkColors[colorIndex], body)]
  {
  }

  /** One pass of the loop body extends the markup of windows `0..k` to that of
      windows `0..k+1`. */
  lemma AdvanceMarkup(text: string, chunkSize: int, overlapSize: int, k: nat, i: int,
                      before: string, overlap: string, colorIndex: nat, grayed: string)
    requires i == RangeAt(chunkSize - overlapSize, k)
    requires before == RenderAll(Windows(text, chunkSize, overlapSize, k))
    requires overlap == CarriedOverlap(text, chunkSize, overlapSize, k)
    requires colorIndex == k % |ChunkColors|
    requires overlap != "" ==> grayed == before + Mark(OverlapColor, overlap)
    requires overlap == "" ==> grayed == before
    ensures var chunk := Slice(text, i, i + chunkSize);
            grayed + Mark(ChunkColors[colorIndex], Slice(chunk, |overlap|, |chunk|))
            == RenderAll(Windows(text, chunkSize, overlapSize, k + 1))
  {
    var chunk := Slice(text, i, i + chunkSize);
    var body := Slice(chunk, |overlap|, |chunk|);
    var prior := Windows(text, chunkSize, overlapSize, k);
    WindowsUnfold(text, chunkSize, overlapSize, k);
    WindowSpansAt(text, chunkSize, overlapSize, k, i, overlap, colorIndex, body);
    RenderStep(prior, before, overlap, grayed, ChunkColors[colorIndex], body);
  }

  /** The loop's bookkeeping from window `k` to window `k + 1`: the offset
      advances by the stride and the tail set aside is the next carried overlap. */
  lemma AdvanceOverlap(text: string, chunkSize: int, overlapSize: int, k: nat, i: int)
    requires i == RangeAt(chunkSize - overlapSize, k)
    ensures i + (chunkSize - overlapSize) == RangeAt(chunkSize - overlapSize, k + 1)
    ensures Slice(text, i + chunkSize - overlapSize, i + chunkSize) == CarriedOverlap(text, chunkSize, overlapSize, k + 1)
  {
  }

  /** Advancing the colour index modulo the palette size keeps it equal to the
      window number modulo the palette size. */
  lemma NextColor(k: nat)
    ensures (k % |ChunkColors| + 1) % |ChunkColors| == (k + 1) % |ChunkColors|
  {
    assert |ChunkColors| == 6;
  }

  /** Once the loop has run through all windows, the markup it holds is the
      rendering of the whole result. */
  lemma Finish(text: string, chunkSize: int, overlapSize: int, k: nat)
    requires chunkSize != overlapSize
    requires k == RangeLen(|text|, chunkSize - overlapSize)
    ensures Rendered(ColoredSpans(text, chunkSize, overlapSize)) == Ok(RenderAll(Windows(text, chunkSize, overlapSize, k)))
  {
  }

  /** Before the first window nothing has been emitted and no overlap is carried. */
  lemma Start(text: string, chunkSize: int, overlapSize: int)
    ensures RangeAt(chunkSize - overlapSize, 0) == 0
    ensures RenderAll(Windows(text, chunkSize, overlapSize, 0)) == ""
    ensures CarriedOverlap(text, chunkSize, overlapSize, 0) == ""
    ensures |ChunkColors| == 6
  {
  }

  /** A zero stride makes `range()` fail before any window is emitted. */
  lemma ZeroStride(text: string, chunkSize: int, overlapSize: int)
    requires chunkSize - overlapSize == 0
    ensures Rendered(ColoredSpans(text, chunkSize, overlapSize)) == Err(ZeroStep)
  {
  }

  /** `color_chunks`: slides the window over the text and accumulates the markup
      of every window, or fails as `range()` does when the stride is zero. */
  method ColorChunks(text: string, chunkSize: int, overlapSize: int) returns (r: Result<string>)
    ensures r == Rendered(ColoredSpans(text, chunkSize, overlapSize))
  {
    hide *;
    if chunkSize - overlapSize == 0 {
      ZeroStride(text, chunkSize, overlapSize);
      return Err(ZeroStep);
    }
    var coloredText := "";
    var overlap := "";
    var colorIndex := 0;
    var i := 0;
    ghost var k: nat := 0;
    Start(text, chunkSize, overlapSize);
    RangeLenCounts(|text|, chunkSize - overlapSize, 0);
    while InRange(i, |text|, chunkSize - overlapSize)
      invariant k <= RangeLen(|text|, chunkSize - overlapSize)
      invariant i == RangeAt(chunkSize - overlapSize, k)
      invariant coloredText == RenderAll(Windows(text, chunkSize, overlapSize, k))
      invariant overlap == CarriedOverlap(text, chunkSize, overlapSize, k)
      invariant 0 <= colorIndex < |ChunkColors| && colorIndex == k % |ChunkColors|
      decreases RangeLen(|text|, chunkSize - overlapSize) - k
    {
      RangeLenCounts(|text|, chunkSize - overlapSize, k);
      ghost var before := coloredText;
      var chunk := Slice(text, i, i + chunkSize);
      if overlap != "" {
        coloredText := coloredText + Mark(OverlapColor, overlap);
      }
      AdvanceMarkup(text, chunkSize, overlapSize, k, i, before, overlap, colorIndex, coloredText);
      chunk := Slice(chunk, |overlap|, |chunk|);
      coloredText := coloredText + Mark(ChunkColors[colorIndex], chunk);
      colorIndex := (colorIndex + 1) % |ChunkColors|;
      NextColor(k);
      AdvanceOverlap(text, chunkSize, overlapSize, k, i);
      overlap := Slice(text, i + chunkSize - overlapSize, i + chunkSize);
      i := i + (chunkSize - overlapSize);
      k := k + 1;
    }
    RangeLenCounts(|text|, chunkSize - overlapSize, k);
    Finish(text, chunkSize, overlapSize, k);
    return Ok(coloredText);
  }
}
