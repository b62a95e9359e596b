# color_chunks, verified

A Dafny model of `color_chunks` from `custom_summarization_sentiana.py`. This
function is the chunk visualiser of the summarisation app. A window of
`chunk_size` characters slides over the text in steps of
`stride = chunk_size - overlap_size`. The windows start at `0, stride,
2*stride, …` and stop below `len(text)`. Each window after the first begins
with the overlap carried over from the previous window, shown in gray
(`#808080`). The rest of the window is shown in the next colour of a
six-colour palette. Every piece is rendered as
`<mark style="background-color: C;">S</mark>`, with `S` inserted verbatim.

The project has four modules:

- `PyText` (`py_text.dfy`) defines the Python semantics the loop relies on:
  - slicing `s[lo:hi]`, where negative bounds count from the end and bounds
    are clamped;
  - iteration over `range(0, stop, step)`, built up one step at a time, with
    its length.
- `Spans` (`spans.dfy`) defines:
  - the output vocabulary: a span has a kind (gray overlap or coloured
    chunk), a colour and a body;
  - the palette and the `<mark>` markup;
  - the visible text (`Bodies`) of a span list.
- `ColorChunks` (`color_chunks.dfy`) holds:
  - the specification: the spans of window `k` (`WindowSpans`) and the
    result of the whole call (`ColoredSpans`). A zero stride is the error
    `ZeroStep`, since Python's `range()` raises `ValueError` for it.
  - the method `ColorChunks`, which mirrors the source loop with its
    variables `colored_text`, `overlap`, `color_index` and `i`. It is proved
    to return exactly the rendering of that specification.
- `ChunkProperties` (`properties.dfy`) proves what the output looks like:
  - the coloured spans alone tile the text;
  - how many spans there are of each kind, and what each one contains;
  - colours and lengths;
  - short and empty windows;
  - degenerate strides;
  - two worked examples.

Stripping the `<mark>` tags from the output does **not** give back the input: the
characters of each carried overlap appear twice, once at the end of a
coloured span and again in the following gray span. What gives back the
input is the coloured spans alone (`ChunkSpansReassemble`). The visible
text is longer than the input by the total length of the gray spans
(`VisibleLength`). For example, `("abcdefgh", 4, 2)` shows
`abcd cd ef ef gh gh` and then an empty coloured span (`ExampleOverlapTwo`).

Two natural expectations of this visualiser do not hold for the code, and
the model follows the code in both cases:

- that the visible text is the input exactly once;
- that only the last window can be shorter than `chunk_size`. In fact every
  window that starts within `chunk_size` of the end is short
  (`ShortWindows`, `ExampleShortWindows`).

The app's sliders (lines 113-114) allow `chunk_overlap == chunk_size`. That
case is the `ZeroStep` error. They also allow `chunk_overlap > chunk_size`,
which gives a negative step: no window is produced and the output is `""`.
Both are modelled, so `ColorChunks` has no precondition.

## Model

| member | source | states |
|---|---|---|
| PyText.SliceBound | custom_summarization_sentiana.py:99 | Normalises one Python slice bound against a string of length `n`: a negative bound counts from the end, and the result is clamped to `[0, n]`. Its ensures bounds the result by `n`; SliceNonNegative gives the clamped form callers use. |
| PyText.Slice | custom_summarization_sentiana.py:99-105 | `s[lo:hi]` with step 1, as used for the window, the chunk remainder and the carried overlap: it never fails, is empty when the normalised bounds cross, and is never longer than `s`. |
| PyText.InRange | custom_summarization_sentiana.py:98 | Whether a value is still produced by `range(0, stop, step)`: below `stop` for a positive step, above it for a negative one. |
| PyText.RangeAt | custom_summarization_sentiana.py:98 | The `k`-th value of `range(0, stop, step)`, built up one step at a time as the loop advances `i`; RangeAtIsProduct shows it is `k * step`. |
| PyText.RangeCount | custom_summarization_sentiana.py:98 | How many values `range(start, stop, step)` produces from `start` on, counted step by step; RangeCountAt shows the `k`-th is produced exactly when it is in range. |
| PyText.RangeLen | custom_summarization_sentiana.py:98 | `len(range(0, stop, step))` for a non-zero step; RangeLenCounts and RangeLenCeil characterise it. |
| Spans.Mark | custom_summarization_sentiana.py:101-103 | One f-string segment `<mark style="background-color: C;">S</mark>` with the body inserted verbatim; MarkShape states its layout and length. |
| Spans.OverlapSpans | custom_summarization_sentiana.py:100-101 | The gray span emitted for a carried overlap: one span when the overlap is non-empty, none otherwise (the `if overlap:` guard). |
| Spans.RenderAll | custom_summarization_sentiana.py:94-103 | The markup of a span list: the segments of its spans appended in order to an initially empty string. |
| ColorChunks.Window | custom_summarization_sentiana.py:99 | Window `k`, `text[i:i+chunk_size]` at the `k`-th range value `i`; WindowAt and ShortWindows characterise it. |
| ColorChunks.CarriedOverlap | custom_summarization_sentiana.py:95-105 | The `overlap` variable when window `k` starts: empty for `k = 0`, otherwise the tail `text[i+chunk_size-overlap_size:i+chunk_size]` set aside by window `k-1`; OverlapAt characterises it. |
| ColorChunks.ChunkBody | custom_summarization_sentiana.py:102 | `chunk[len(overlap):]` for window `k`; ChunkBodyAt characterises it as `text[ChunkStart(k):ChunkEnd(k)]`. |
| ColorChunks.WindowSpans | custom_summarization_sentiana.py:100-104 | The spans window `k` emits: the carried overlap in gray when non-empty, then the chunk body in palette colour `k mod 6`; WindowSpansByKind and WindowGray characterise it. |
| ColorChunks.Windows | custom_summarization_sentiana.py:98-105 | The spans of the first `k` windows in order. |
| ColorChunks.WindowCount | custom_summarization_sentiana.py:98 | The number of loop iterations, `len(range(0, len(text), chunk_size - overlap_size))`; SpanCounts shows it is `ceil(len(text) / stride)` for a positive stride. |
| ColorChunks.ColoredSpans | custom_summarization_sentiana.py:98-107 | The whole call as a span list: the `ZeroStep` error for a zero stride, otherwise the spans of all windows; the ChunkProperties lemmas state its properties. |
| ColorChunks.Rendered | custom_summarization_sentiana.py:107 | The returned string: the markup of the span list, or the error passed through. |
| ChunkProperties.ChunkStart | custom_summarization_sentiana.py:102 | Where the coloured part of window `k` starts in the text (0 for the first window, just past the carried overlap otherwise); never past the end of the text. |
| ChunkProperties.ChunkEnd | custom_summarization_sentiana.py:99 | Where window `k`, and so its coloured part, ends in the text; never past the end of the text. |
| ColorChunks.ColorChunks | custom_summarization_sentiana.py:90-107 | The loop returns exactly the markup of all window spans, in order. It returns the `ZeroStep` error when `chunk_size == overlap_size`. Its invariants keep `color_index == k mod 6` within `[0, 6)` and `overlap` equal to the overlap carried into window `k`. |
| ColorChunks.AdvanceMarkup | custom_summarization_sentiana.py:99-103 | One pass of the loop body does two things. It appends the gray element only when the carried overlap is non-empty. It then appends the window minus `len(overlap)` leading characters in colour `color_index`. Together these extend the markup of windows `0..k` to that of windows `0..k+1`. |
| ColorChunks.AdvanceOverlap | custom_summarization_sentiana.py:98-105 | Loop-proof step (unfolds the specification for the loop proof): The next loop offset is the previous one plus the stride. The tail `text[i+chunk_size-overlap_size : i+chunk_size]` set aside is the overlap that the next window carries. |
| ColorChunks.NextColor | custom_summarization_sentiana.py:104 | Loop-proof step (unfolds the specification for the loop proof): Advancing `color_index` modulo the palette size keeps it equal to the window number modulo 6. |
| ColorChunks.Start | custom_summarization_sentiana.py:94-96 | Loop-proof step (unfolds the specification for the loop proof): Before the first window nothing has been emitted, no overlap is carried, the first offset is 0, and the palette has 6 colours. |
| ColorChunks.ZeroStride | custom_summarization_sentiana.py:98 | Loop-proof step (unfolds the specification for the loop proof): A zero stride is an error and no markup is produced. |
| ColorChunks.Finish | custom_summarization_sentiana.py:98-107 | Loop-proof step (unfolds the specification for the loop proof): After `len(range(...))` windows, the accumulated markup is the whole result. |
| PyText.SliceNonNegative | custom_summarization_sentiana.py:99 | A slice with non-negative ordered bounds is the clamped substring `s[min(lo,n) : min(hi,n)]`, and its length is the difference of the clamped bounds. |
| PyText.RangeAtIsProduct | custom_summarization_sentiana.py:98 | The `k`-th value of `range(0, n, step)` is `k * step`. |
| PyText.RangeLenCounts | custom_summarization_sentiana.py:98 | `range(0, stop, step)` produces its `k`-th value exactly when `k < len(range(...))`, that is, exactly when that value is still below `stop` for a positive step, or above it for a negative step. |
| PyText.RangeLenCeil | custom_summarization_sentiana.py:98 | For a positive step, `len(range(0, n, step)) == ceil(n / step)`. |
| Spans.Palette | custom_summarization_sentiana.py:91-92 | The palette has six entries, and every colour, gray included, is a 7-character code. |
| Spans.MarkShape | custom_summarization_sentiana.py:101-103 | A segment is the opening tag up to the colour, then the colour, then `;">`, then the body verbatim (no escaping), then `</mark>`. It is 41 characters longer than colour plus body. |
| Spans.RenderStep | custom_summarization_sentiana.py:100-103 | Appending the optional gray element and then the coloured element to the markup of earlier spans gives the markup of those spans followed by the window's spans. |
| Spans.RenderedLength | custom_summarization_sentiana.py:101-103 | With 7-character colours, the markup is the visible text plus exactly 48 characters per span. |
| Spans.BodiesByKind | custom_summarization_sentiana.py:101-103 | The visible text's length is the coloured text's length plus the gray text's length. |
| ChunkProperties.WindowAt | custom_summarization_sentiana.py:98-99 | Window `k` is `text[min(i,n) : min(i+chunk_size,n)]`, with `i = k*stride >= 0`. |
| ChunkProperties.WindowExists | custom_summarization_sentiana.py:98 | Window `k` exists (`k < WindowCount`) exactly when its offset lies inside the text. |
| ChunkProperties.OverlapAt | custom_summarization_sentiana.py:105 | The overlap carried into window `k >= 1` is `text[i : i+overlap_size]`, clamped, at that window's own offset `i`: the first characters of the window. |
| ChunkProperties.ChunkBodyAt | custom_summarization_sentiana.py:102 | The coloured part of window `k` is `text[ChunkStart(k) : ChunkEnd(k)]`. The start is 0 for `k = 0` and `min(i+overlap_size, n)` otherwise. The end is `min(i+chunk_size, n)`. |
| ChunkProperties.ChunksAdjoin | custom_summarization_sentiana.py:102-105 | The coloured part of window `k` starts exactly where that of window `k-1` ended. |
| ChunkProperties.ChunkTextPrefix | custom_summarization_sentiana.py:98-105 | The coloured spans of the first `k` windows spell `text[: ChunkEnd(k-1)]`. |
| ChunkProperties.LastChunkEnd | custom_summarization_sentiana.py:98-99 | Once the next offset is past the end, the last window ends at `len(text)`. |
| ChunkProperties.ChunkSpansReassemble | custom_summarization_sentiana.py:98-105 | For `0 <= overlap_size < chunk_size`, the result is not an error. Concatenating only its coloured spans, in order, yields `text` exactly. |
| ChunkProperties.WindowSpansByKind | custom_summarization_sentiana.py:100-103 | Each window emits exactly one coloured span (palette colour `k mod 6`, the chunk body). Its gray spans are exactly the carried overlap's span, if any. |
| ChunkProperties.WindowsByKind | custom_summarization_sentiana.py:98 | Each window's spans of either kind follow those of the earlier windows. |
| ChunkProperties.ChunkSpanCount | custom_summarization_sentiana.py:103 | Exactly one coloured span is emitted per window. |
| ChunkProperties.ChunkSpanAt | custom_summarization_sentiana.py:103-104 | The `j`-th coloured span has colour `chunk_colors[j mod 6]` and holds window `j`'s chunk body. |
| ChunkProperties.WindowGray | custom_summarization_sentiana.py:95-105 | No gray span precedes window 0. No gray span is emitted when `overlap_size == 0`. Otherwise, window `k >= 1` is preceded by exactly one gray span holding `text[i : min(i+overlap_size, n)]`, which is non-empty since `i < n`. |
| ChunkProperties.GraySpanCount | custom_summarization_sentiana.py:100-101 | After `k` windows there are `k - 1` gray spans, or none when `k = 0` or `overlap_size == 0`. |
| ChunkProperties.GraySpanAt | custom_summarization_sentiana.py:100-105 | The `j`-th gray span is `#808080` and holds `text[i : min(i+overlap_size, n)]`, where `i` is the offset of window `j+1`. |
| ChunkProperties.GrayBodyNonEmpty | custom_summarization_sentiana.py:100 | For `overlap_size > 0`, the `j`-th gray span after `k` windows has a non-empty body; GrayNonEmpty lifts this to all gray spans. |
| ChunkProperties.GrayNonEmpty | custom_summarization_sentiana.py:100-105 | Every gray span of the first `k` windows has a non-empty body, as the `if overlap:` guard ensures. |
| ChunkProperties.MarkupByWindow | custom_summarization_sentiana.py:100-103 | The markup of the first `k + 1` windows is that of the first `k` followed by the markup of window `k`'s spans: each iteration only appends. |
| ChunkProperties.SpanCounts | custom_summarization_sentiana.py:98-103 | The number of windows, and so of coloured spans, is `ceil(len(text) / stride)`. The number of gray spans is one less, or zero when the overlap is zero, so there are `2*count - 1` spans in all (or `count` when the overlap is zero). |
| ChunkProperties.SpanColors | custom_summarization_sentiana.py:91-103 | Every gray span is drawn in `#808080` and every coloured span in a palette colour. |
| ChunkProperties.VisibleLength | custom_summarization_sentiana.py:101-103 | The output with the `<mark>` tags stripped (the concatenated span bodies) has length `len(text)` plus the total gray-span length. It is strictly longer than `text` when `overlap_size > 0` and there are two or more windows. |
| ChunkProperties.SecondWindow | custom_summarization_sentiana.py:98 | There are two or more windows exactly when `len(text) > stride`. |
| ChunkProperties.MarkupLength | custom_summarization_sentiana.py:101-103 | The markup's length is `len(text)`, plus the gray text, plus 48 per span. |
| ChunkProperties.ShortWindows | custom_summarization_sentiana.py:99 | Window `k` has `min(chunk_size, len(text) - i)` characters, so every window near the end can be short. |
| ChunkProperties.EmptyChunkSpan | custom_summarization_sentiana.py:102-103 | A coloured span is empty exactly when it belongs to a later window whose offset plus `overlap_size` reaches the end of the text. |
| ChunkProperties.DegenerateStrides | custom_summarization_sentiana.py:98-107 | The result is an error exactly when `chunk_size == overlap_size`. Otherwise, there are no spans exactly when `overlap_size > chunk_size` or the text is empty, and in those cases the output is `""`. |
| ChunkProperties.WindowFromSlices | custom_summarization_sentiana.py:99-105 | For a window `k >= 1` at a non-negative offset, its spans follow from three slices: the window, its first `overlap_size` characters, and its remainder. |
| ChunkProperties.ExampleOverlapTwo | custom_summarization_sentiana.py:90-107 | `("abcdefgh", 4, 2)` gives seven spans: coloured `abcd`, gray `cd`, coloured `ef`, gray `ef`, coloured `gh`, gray `gh`, and an empty coloured span. |
| ChunkProperties.ExampleShortWindows | custom_summarization_sentiana.py:98-99 | `("abcdefgh", 4, 3)` has eight windows, and the last three have 3, 2 and 1 characters. |

## Left out

- The Streamlit UI is left out: `main`, `language_selector` and `print_chat_message` (lines 31-37, 109-228). These are interactive I/O. The sliders only matter as the reason both degenerate strides are reachable.
- Environment setup and the `AzureChatOpenAI` client (lines 21-29) are left out: global side effects and a network client.
- `custom_summary_pdf` and `custom_summary_doc` (lines 39-69) are left out: they wrap a hosted LLM through langchain, whose output is opaque.
- `setup_documents_pdf` and `setup_documents_doc` (lines 71-87) are left out: they load files and call langchain's `RecursiveCharacterTextSplitter`, which is not part of this model.
- The `@st.cache_data` memoisation (lines 71, 80, 89) is left out: it is framework caching and does not change the result.
- `nltk_senana.py`'s `sentiment` is left out: it downloads data over the network and thresholds floating-point scores from the opaque VADER analyser.
- Characters are Dafny `char`s. Python's code-point strings are modelled only through length and slicing, which is all `color_chunks` uses. No HTML escaping is modelled, because the source does none.
