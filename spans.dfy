/**
 * The output vocabulary of the chunk visualiser: highlighted spans, the fixed
 * colours they are drawn in, and their rendering as HTML `<mark>` elements.
 */
module Spans {

  /** A span either repeats the overlap carried from the previous window, or
      shows the current window's own characters. */
  datatype SpanKind = OverlapKind | ChunkKind

  datatype Span = Span(kind: SpanKind, color: string, body: string)

  /** Gray background for repeated overlap text. */
  const OverlapColor: string := "#808080"

  /** The palette the window spans rotate through. */
  const ChunkColors: seq<string> := ["#a8d08d", "#c6dbef", "#e6550d", "#fd8d3c", "#fdae6b", "#fdd0a2"]

  /** Six palette entries; every colour is a 7-character `#rrggbb` code. */
  lemma Palette()
    ensures |ChunkColors| == 6
    ensures |OverlapColor| == 7 && forall c | c in ChunkColors :: |c| == 7
  {
  }

  const MarkOpen: string := "<mark style=\"background-color: "
  const MarkMid: string := ";\">"
  const MarkClose: string := "</mark>"

  /** One highlighted segment; the body is inserted verbatim, without escaping. */
  function Mark(color: string, body: string): string
  {
    MarkOpen + color + MarkMid + body + MarkClose
  }

  /** A `<mark>` element is the opening tag up to the colour, the colour, the
      end of the opening tag, the body verbatim, and the closing tag; the tags
      add 41 characters besides the colour. */
  lemma MarkShape(color: string, body: string)
    ensures var r := Mark(color, body);
            && |r| == |color| + |body| + 41
            && r[..31] == MarkOpen && r[31..31 + |color|] == color
            && r[31 + |color|..34 + |color|] == MarkMid
            && r[34 + |color|..|r| - 7] == body && r[|r| - 7..] == MarkClose
  {
  }

  function Markup(span: Span): string
  {
    Mark(span.color, span.body)
  }

  /** The gray span that repeats a carried overlap, present only when the
      overlap is non-empty. */
  function OverlapSpans(overlap: string): seq<Span>
  {
    if overlap != "" then [Span(OverlapKind, OverlapColor, overlap)] else []
  }

  lemma OverlapSpansOf(overlap: string)
    ensures OverlapSpans(overlap) == if overlap == [] then [] else [Span(OverlapKind, OverlapColor, overlap)]
  {
  }

  /** The markup of a span list: each span's `<mark>` element, in order. */
  function RenderAll(spans: seq<Span>): string
  {
    if spans == [] then "" else RenderAll(spans[..|spans| - 1]) + Markup(spans[|spans| - 1])
  }

  /** The spans of one kind, in their original order. */
  function OfKind(spans: seq<Span>, kind: SpanKind): (r: seq<Span>)
    ensures |r| <= |spans|
  {
    if spans == [] then []
    else OfKind(spans[..|spans| - 1], kind) + (if spans[|spans| - 1].kind == kind then [spans[|spans| - 1]] else [])
  }

  /** The visible text of a span list: its bodies in order, i.e. the rendering
      with the `<mark>` tags stripped. */
  function Bodies(spans: seq<Span>): string
  {
    if spans == [] then "" else Bodies(spans[..|spans| - 1]) + spans[|spans| - 1].body
  }

  lemma RenderSnoc(spans: seq<Span>, x: Span)
    ensures RenderAll(spans + [x]) == RenderAll(spans) + Markup(x)
  {
    assert (spans + [x])[..|spans|] == spans;
  }

  /** Appending the gray element (when the overlap is non-empty) and then a
      coloured element to the markup of `prior` gives the markup of `prior`
      followed by those spans. */
  lemma RenderStep(prior: seq<Span>, before: string, overlap: string, grayed: string, color: string, body: string)
    requires before == RenderAll(prior)
    requires overlap != "" ==> grayed == before + Mark(OverlapColor, overlap)
    requires overlap == "" ==> grayed == before
    ensures grayed + Mark(color, body) == RenderAll(prior + (OverlapSpans(overlap) + [Span(ChunkKind, color, body)]))
  {
    var colored := Span(ChunkKind, color, body);
    var gray := OverlapSpans(overlap);
    assert prior + (gray + [colored]) == (prior + gray) + [colored];
    RenderSnoc(prior + gray, colored);
    if overlap != "" {
      RenderSnoc(prior, gray[0]);
    } else {
      assert prior + gray == prior;
    }
  }

  lemma {:induction false} RenderAllAppend(a: seq<Span>, b: seq<Span>)
    ensures RenderAll(a + b) == RenderAll(a) + RenderAll(b)
    decreases |b|
  {
    if b == [] {
      assert a + b == a;
    } else {
      var b' := b[..|b| - 1];
      assert (a + b)[..|a + b| - 1] == a + b';
      RenderAllAppend(a, b');
    }
  }

  lemma {:induction false} OfKindAppend(a: seq<Span>, b: seq<Span>, kind: SpanKind)
    ensures OfKind(a + b, kind) == OfKind(a, kind) + OfKind(b, kind)
    decreases |b|
  {
    if b == [] {
      assert a + b == a;
    } else {
      var b' := b[..|b| - 1];
      assert (a + b)[..|a + b| - 1] == a + b';
      OfKindAppend(a, b', kind);
    }
  }

  lemma {:induction false} BodiesAppend(a: seq<Span>, b: seq<Span>)
    ensures Bodies(a + b) == Bodies(a) + Bodies(b)
    decreases |b|
  {
    if b == [] {
      assert a + b == a;
    } else {
      var b' := b[..|b| - 1];
      assert (a + b)[..|a + b| - 1] == a + b';
      BodiesAppend(a, b');
    }
  }

  lemma BodiesSingle(x: Span)
    ensures Bodies([x]) == x.body
  {
    assert [x][..0] == [];
  }

  /** Every span is of exactly one kind, so the two filtered lists together are
      as long as the whole list. */
  lemma {:induction false} OfKindPartition(spans: seq<Span>)
    ensures |OfKind(spans, ChunkKind)| + |OfKind(spans, OverlapKind)| == |spans|
  {
    if spans != [] {
      OfKindPartition(spans[..|spans| - 1]);
    }
  }

  /** When no span is empty, the visible text has at least one character per span. */
  lemma {:induction false} BodiesNonEmpty(spans: seq<Span>)
    requires forall j | 0 <= j < |spans| :: spans[j].body != []
    ensures |Bodies(spans)| >= |spans|
  {
    if spans != [] {
      BodiesNonEmpty(spans[..|spans| - 1]);
    }
  }

  /** Every visible character belongs to exactly one span, so the visible text
      splits by kind: its length is that of the window text plus that of the
      repeated overlap text. */
  lemma {:induction false} BodiesByKind(spans: seq<Span>)
    ensures |Bodies(spans)| == |Bodies(OfKind(spans, ChunkKind))| + |Bodies(OfKind(spans, OverlapKind))|
  {
    if spans != [] {
      var init := spans[..|spans| - 1];
      var last := spans[|spans| - 1];
      BodiesByKind(init);
      assert OfKind(spans, ChunkKind) == OfKind(init, ChunkKind) + (if last.kind == ChunkKind then [last] else []);
      assert OfKind(spans, OverlapKind) == OfKind(init, OverlapKind) + (if last.kind == OverlapKind then [last] else []);
      assert Bodies([last]) == last.body;
      if last.kind == ChunkKind {
        assert OfKind(spans, OverlapKind) == OfKind(init, OverlapKind);
        BodiesAppend(OfKind(init, ChunkKind), [last]);
      } else {
        assert OfKind(spans, ChunkKind) == OfKind(init, ChunkKind);
        BodiesAppend(OfKind(init, OverlapKind), [last]);
      }
    }
  }

  /** When every colour is a 7-character `#rrggbb` code, the markup adds a fixed
      48 characters per span to the visible text. */
  lemma {:induction false} RenderedLength(spans: seq<Span>)
    requires forall x | x in spans :: |x.color| == 7
    ensures |RenderAll(spans)| == |Bodies(spans)| + 48 * |spans|
  {
    if spans != [] {
      RenderedLength(spans[..|spans| - 1]);
      MarkShape(spans[|spans| - 1].color, spans[|spans| - 1].body);
    }
  }
}
