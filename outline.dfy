/**
  The heading classifier of the PDF outline extractor (`extract_outline` in
  main.py). It collects the non-blank text spans of a document with their
  font sizes and pages, ranks the distinct font sizes from largest to
  smallest, takes the title from the first span set in the largest size,
  and labels every span whose size is one of the three top-ranked sizes as
  H1, H2 or H3, dropping the others.
 */
module Outline {
  import opened Seqs
  import opened Text

  /** Font sizes are only compared and sorted, never computed with. */
  type FontSize = real

  /** A span as the PDF reader yields it: its raw text, font size and 1-based page. */
  datatype RawSpan = RawSpan(text: string, size: FontSize, page: int)

  /** A collected span, the tuple `(size, text, page)`; its text is stripped. */
  datatype Span = Span(size: FontSize, text: string, page: int)

  datatype Level = H1 | H2 | H3

  /** One outline entry, `{"level", "text", "page"}`. */
  datatype Entry = Entry(level: Level, text: string, page: int)

  /** The result `{"title", "outline"}`. */
  datatype Extraction = Extraction(title: string, outline: seq<Entry>)

  /** Indexing `unique_sizes[0]` when no span was collected. */
  datatype Error = IndexError

  datatype Result<T> = Ok(value: T) | Err(error: Error)

  /** The title used when no span has the title size. */
  const Placeholder: string := "Untitled Document"

  // ---------------------------------------------------------------------
  // Span collection

  /** A raw span is kept, with its text stripped, when that text is not blank. */
  function Keep(r: RawSpan): Option<Span>
  {
    var text := Strip(r.text);
    if text == [] then None else Some(Span(r.size, text, r.page))
  }

  /** The spans collected from `raw`, in reading order. */
  function Collected(raw: seq<RawSpan>): seq<Span>
  {
    FilterMap(raw, Keep)
  }

  /** The font size of each span, position by position. */
  function Sizes(spans: seq<Span>): seq<FontSize>
  {
    seq(|spans|, k requires 0 <= k < |spans| => spans[k].size)
  }

  /**
    The collection loop: `headings` receives every non-blank span, stripped,
    and `fontSizes` receives its size alongside.
   */
  method CollectSpans(raw: seq<RawSpan>) returns (fontSizes: seq<FontSize>, headings: seq<Span>)
    ensures headings == Collected(raw)
    ensures fontSizes == Sizes(headings)
  {
    fontSizes, headings := [], [];
    for i := 0 to |raw|
      invariant headings == Collected(raw[..i])
      invariant fontSizes == Sizes(headings)
    {
      CollectedStep(raw, i);
      var text := Strip(raw[i].text);
      if text != [] {
        var span := Span(raw[i].size, text, raw[i].page);
        SizesAppend(headings, span);
        fontSizes := fontSizes + [span.size];
        headings := headings + [span];
      }
    }
    assert raw[..|raw|] == raw;
  }

  /** One more raw span adds its stripped form, unless that is empty. */
  lemma CollectedStep(raw: seq<RawSpan>, i: nat)
    requires i < |raw|
    ensures var text := Strip(raw[i].text);
      Collected(raw[..i + 1]) == Collected(raw[..i]) + if text == [] then [] else [Span(raw[i].size, text, raw[i].page)]
  {
    assert raw[..i + 1][..i] == raw[..i];
  }

  /** Appending a span appends its size. */
  lemma SizesAppend(spans: seq<Span>, s: Span)
    ensures Sizes(spans + [s]) == Sizes(spans) + [s.size]
  {
  }

  // ---------------------------------------------------------------------
  // Distinct sizes, largest first

  /** Each size is larger than every size after it, so none is repeated. */
  predicate StrictlyDescending(u: seq<FontSize>)
  {
    forall i, j :: 0 <= i < j < |u| ==> u[i] > u[j]
  }

  /** Adds `x` to a strictly descending list unless it is already there. */
  function InsertDescending(x: FontSize, u: seq<FontSize>): (r: seq<FontSize>)
    requires StrictlyDescending(u)
    ensures StrictlyDescending(r)
    ensures forall y :: y in r <==> y == x || y in u
  {
    if u == [] then [x]
    else if x > u[0] then [x] + u
    else if x == u[0] then u
    else
      var rest := InsertDescending(x, u[1..]);
      assert forall y :: y in rest ==> y < u[0] by {
        assert forall y :: y in u[1..] ==> y < u[0];
      }
      assert forall i :: 0 <= i < |rest| ==> rest[i] in rest;
      [u[0]] + rest
  }

  /**
    `sorted(set(sizes), reverse=True)`: the sizes that occur in `sizes`,
    each once, largest first.
   */
  function DistinctDescending(sizes: seq<FontSize>): (u: seq<FontSize>)
    ensures StrictlyDescending(u)
    ensures forall y :: y in u <==> y in sizes
  {
    if sizes == [] then []
    else InsertDescending(sizes[|sizes| - 1], DistinctDescending(sizes[..|sizes| - 1]))
  }

  // ---------------------------------------------------------------------
  // Size tiers

  /** The sizes `title_font`, `h1_font`, `h2_font` and `h3_font`. */
  datatype Tiers = Tiers(title: FontSize, h1: FontSize, h2: FontSize, h3: FontSize)

  /**
    The tiers read off the ranked sizes: title and H1 are the largest size,
    H2 the second largest (the largest when there is only one), H3 the third
    largest (the smallest when there are fewer than three).
   */
  function DeriveTiers(unique: seq<FontSize>): (t: Tiers)
    requires unique != []
    ensures t.title == t.h1 == unique[0]
    ensures t.h2 in unique && t.h3 in unique
    ensures StrictlyDescending(unique) ==>
      && (forall y :: y in unique ==> y <= t.h1)
      && t.h1 >= t.h2 >= t.h3
      && (|unique| == 1 ==> t.h2 == t.h1)
      && (|unique| >= 2 ==> t.h2 < t.h1 && forall y :: y in unique && y < t.h1 ==> y <= t.h2)
      && (|unique| >= 3 ==> t.h3 < t.h2 && forall y :: y in unique && y < t.h2 ==> y <= t.h3)
      && (|unique| < 3 ==> forall y :: y in unique ==> t.h3 <= y)
  {
    var h1 := unique[0];
    var h2 := if |unique| > 1 then unique[1] else unique[0];
    var h3 := if |unique| > 2 then unique[2] else unique[|unique| - 1];
    Tiers(unique[0], h1, h2, h3)
  }

  // ---------------------------------------------------------------------
  // Title

  /** The position of the first span whose size is `size`, if any. */
  function FirstWithSize(spans: seq<Span>, size: FontSize): (r: Option<nat>)
    ensures r.Some? ==> r.value < |spans| && spans[r.value].size == size
    ensures r.Some? ==> forall j :: 0 <= j < r.value ==> spans[j].size != size
    ensures r.None? ==> forall j :: 0 <= j < |spans| ==> spans[j].size != size
  {
    if spans == [] then None
    else if spans[0].size == size then Some(0)
    else match FirstWithSize(spans[1..], size)
      case Some(i) => Some(i + 1)
      case None => None
  }

  /**
    The text of the first span set in `size`, or the placeholder when no
    span is.
   */
  function Title(spans: seq<Span>, size: FontSize): (title: string)
    ensures forall i :: 0 <= i < |spans| && spans[i].size == size && (forall j :: 0 <= j < i ==> spans[j].size != size)
                  ==> title == spans[i].text
    ensures (forall j :: 0 <= j < |spans| ==> spans[j].size != size) ==> title == Placeholder
  {
    match FirstWithSize(spans, size)
    case Some(i) => spans[i].text
    case None => Placeholder
  }

  // ---------------------------------------------------------------------
  // Outline

  /** The `if/elif` chain: the first tier the size equals decides the level. */
  function LevelOf(size: FontSize, t: Tiers): Option<Level>
  {
    if size == t.h1 then Some(H1)
    else if size == t.h2 then Some(H2)
    else if size == t.h3 then Some(H3)
    else None
  }

  /** The outline entry of a span, or nothing when its size matches no tier. */
  function Classify(s: Span, t: Tiers): Option<Entry>
  {
    match LevelOf(s.size, t)
    case Some(level) => Some(Entry(level, s.text, s.page))
    case None => None
  }

  /** Classify with the tiers fixed, as a function value for FilterMap. */
  function Classifier(t: Tiers): Span -> Option<Entry>
  {
    s => Classify(s, t)
  }

  /** The entries of the spans that match a tier, in span order. */
  function OutlineOf(spans: seq<Span>, t: Tiers): seq<Entry>
  {
    FilterMap(spans, Classifier(t))
  }

  /** The outline loop: one entry per span that matches a tier. */
  method BuildOutline(headings: seq<Span>, t: Tiers) returns (outline: seq<Entry>)
    ensures outline == OutlineOf(headings, t)
  {
    outline := [];
    for i := 0 to |headings|
      invariant outline == OutlineOf(headings[..i], t)
    {
      assert headings[..i + 1][..i] == headings[..i];
      var s := headings[i];
      var level;
      if s.size == t.h1 {
        level := H1;
      } else if s.size == t.h2 {
        level := H2;
      } else if s.size == t.h3 {
        level := H3;
      } else {
        continue;
      }
      outline := outline + [Entry(level, s.text, s.page)];
    }
    assert headings[..|headings|] == headings;
  }

  // ---------------------------------------------------------------------
  // The whole classifier

  /** The ranked distinct sizes of the collected spans. */
  function UniqueSizes(spans: seq<Span>): seq<FontSize>
  {
    DistinctDescending(Sizes(spans))
  }

  function TiersOf(spans: seq<Span>): Tiers
    requires spans != []
  {
    assert Sizes(spans)[0] in Sizes(spans);
    DeriveTiers(UniqueSizes(spans))
  }

  /** Title and outline of the collected spans; no spans at all is an error. */
  function Classified(spans: seq<Span>): Result<Extraction>
  {
    if spans == [] then Err(IndexError)
    else
      var t := TiersOf(spans);
      Ok(Extraction(Title(spans, t.title), OutlineOf(spans, t)))
  }

  function ExtractionOf(raw: seq<RawSpan>): Result<Extraction>
  {
    Classified(Collected(raw))
  }

  /**
    `extract_outline` after the PDF has been read: it fails exactly when
    every span of the document is blank.
   */
  method ExtractOutline(raw: seq<RawSpan>) returns (res: Result<Extraction>)
    ensures res == ExtractionOf(raw)
    ensures res.Err? <==> forall j :: 0 <= j < |raw| ==> IsBlank(raw[j].text)
  {
    var fontSizes, headings := CollectSpans(raw);
    CollectedEmptyIffBlank(raw);
    var uniqueSizes := DistinctDescending(fontSizes);
    if |uniqueSizes| == 0 {
      return Err(IndexError);
    }
    var t := DeriveTiers(uniqueSizes);
    var title := Title(headings, t.title);
    var outline := BuildOutline(headings, t);
    res := Ok(Extraction(title, outline));
  }

  /** Nothing is collected exactly when every raw span is blank. */
  lemma CollectedEmptyIffBlank(raw: seq<RawSpan>)
    ensures Collected(raw) == [] <==> forall j :: 0 <= j < |raw| ==> IsBlank(raw[j].text)
  {
    var idx := KeptIndices(raw, Keep);
    KeptIndicesExact(raw, Keep);
    if Collected(raw) != [] {
      assert idx[0] < |raw| && Keep(raw[idx[0]]).Some?;
    } else {
      forall j | 0 <= j < |raw| ensures IsBlank(raw[j].text) {
        assert j !in idx;
      }
    }
  }
}
