/**
  What `extract_outline` promises about its result, proved of the model in
  module Outline: which spans are collected, what the ranked size list is,
  which level each span gets, which spans reach the outline and where the
  title comes from.
 */
module OutlineProperties {
  import opened Seqs
  import opened Text
  import opened Outline

  // ---------------------------------------------------------------------
  // Collection

  /**
    A raw span is collected exactly when its text is not blank; the
    collected spans are those raw spans, in their order, with the text
    stripped and size and page unchanged.
   */
  lemma CollectedSpans(raw: seq<RawSpan>)
    ensures var spans, idx := Collected(raw), KeptIndices(raw, Keep);
      && |idx| == |spans| <= |raw|
      && StrictlyIncreasing(idx)
      && (forall k :: 0 <= k < |spans| ==>
            idx[k] < |raw| && spans[k] == Span(raw[idx[k]].size, Strip(raw[idx[k]].text), raw[idx[k]].page)
            && spans[k].text != [])
      && (forall j :: 0 <= j < |raw| ==> (j in idx <==> !IsBlank(raw[j].text)))
  {
    KeptIndicesExact(raw, Keep);
  }

  /** Collecting a document read in two parts is collecting each part. */
  lemma CollectedAppend(a: seq<RawSpan>, b: seq<RawSpan>)
    ensures Collected(a + b) == Collected(a) + Collected(b)
  {
    FilterMapAppend(a, b, Keep);
  }

  // ---------------------------------------------------------------------
  // Ranked sizes

  /**
    Two strictly descending lists with the same elements are equal, so
    DistinctDescending is `sorted(set(sizes), reverse=True)` whatever way it
    is computed.
   */
  lemma {:induction false} DescendingUnique(u: seq<FontSize>, v: seq<FontSize>)
    requires StrictlyDescending(u) && StrictlyDescending(v)
    requires forall y :: y in u <==> y in v
    ensures u == v
  {
    assert u == [] <==> v == [] by {
      if u != [] { assert u[0] in v; }
      if v != [] { assert v[0] in u; }
    }
    if u != [] {
      assert u[0] == v[0] by {
        assert u[0] in u && v[0] in v;
        var i :| 0 <= i < |v| && v[i] == u[0];
        var j :| 0 <= j < |u| && u[j] == v[0];
      }
      forall y ensures y in u[1..] <==> y in v[1..] {
        if y in u[1..] { assert y < u[0]; assert y in v; }
        if y in v[1..] { assert y < v[0]; assert y in u; }
      }
      DescendingUnique(u[1..], v[1..]);
    }
  }

  /**
    The ranked sizes of the collected spans are exactly the sizes that occur
    among them, each once, largest first.
   */
  lemma UniqueSizesExact(spans: seq<Span>)
    ensures StrictlyDescending(UniqueSizes(spans))
    ensures forall y :: y in UniqueSizes(spans) <==> exists j :: 0 <= j < |spans| && spans[j].size == y
    ensures |UniqueSizes(spans)| <= |spans|
  {
    var sizes := Sizes(spans);
    forall y ensures y in sizes <==> exists j :: 0 <= j < |spans| && spans[j].size == y {
      if y in sizes {
        var j :| 0 <= j < |sizes| && sizes[j] == y;
        assert spans[j].size == y;
      }
      if exists j :: 0 <= j < |spans| && spans[j].size == y {
        var j :| 0 <= j < |spans| && spans[j].size == y;
        assert sizes[j] == y;
      }
    }
    DistinctNoLonger(sizes);
  }

  /** There are never more distinct sizes than sizes. */
  lemma {:induction false} DistinctNoLonger(sizes: seq<FontSize>)
    ensures |DistinctDescending(sizes)| <= |sizes|
  {
    if sizes != [] {
      DistinctNoLonger(sizes[..|sizes| - 1]);
      InsertGrowsByAtMostOne(sizes[|sizes| - 1], DistinctDescending(sizes[..|sizes| - 1]));
    }
  }

  /** Inserting into a ranked list adds at most one size. */
  lemma {:induction false} InsertGrowsByAtMostOne(x: FontSize, u: seq<FontSize>)
    requires StrictlyDescending(u)
    ensures |InsertDescending(x, u)| <= |u| + 1
  {
    if u != [] && x < u[0] {
      InsertGrowsByAtMostOne(x, u[1..]);
    }
  }

  // ---------------------------------------------------------------------
  // Levels

  /**
    The level of a size is decided by its rank among the distinct sizes:
    rank 0 is H1, rank 1 is H2, rank 2 is H3 and any lower rank is
    discarded. With two sizes nothing is H3, because the fallback H3 tier
    is the H2 size, which the chain tests first.
   */
  lemma LevelByRank(unique: seq<FontSize>, k: nat)
    requires StrictlyDescending(unique) && k < |unique|
    ensures LevelOf(unique[k], DeriveTiers(unique)) ==
      if k == 0 then Some(H1) else if k == 1 then Some(H2) else if k == 2 then Some(H3) else None
  {
  }

  /**
    The level of each collected span, by its size: the largest size is H1,
    the second largest H2, the third largest H3, and a span is discarded
    exactly when there are more than three sizes and its size is smaller
    than the third largest.
   */
  lemma SpanLevel(spans: seq<Span>, j: nat)
    requires j < |spans|
    ensures var u, size := UniqueSizes(spans), spans[j].size;
      var level := LevelOf(size, TiersOf(spans));
      && (level == Some(H1) <==> size == u[0])
      && (level == Some(H2) <==> |u| > 1 && size == u[1])
      && (level == Some(H3) <==> |u| > 2 && size == u[2])
      && (level == None <==> |u| > 3 && size < u[2])
  {
    var u, size := UniqueSizes(spans), spans[j].size;
    UniqueSizesExact(spans);
    assert size in u;
    var k :| 0 <= k < |u| && u[k] == size;
    LevelByRank(u, k);
    if |u| > 2 {
      assert size < u[2] <==> k > 2;
    }
  }

  // ---------------------------------------------------------------------
  // Outline

  /**
    The outline is an order-preserving selection of the collected spans:
    entry `k` copies the text and page of span `idx[k]` and carries that
    span's level, and a span is selected exactly when it has a level.
   */
  lemma OutlineIsSelection(spans: seq<Span>, t: Tiers)
    ensures var outline, idx := OutlineOf(spans, t), KeptIndices(spans, Classifier(t));
      && |idx| == |outline| <= |spans|
      && StrictlyIncreasing(idx)
      && (forall k :: 0 <= k < |outline| ==>
            idx[k] < |spans| && LevelOf(spans[idx[k]].size, t) == Some(outline[k].level)
            && outline[k].text == spans[idx[k]].text && outline[k].page == spans[idx[k]].page)
      && (forall j :: 0 <= j < |spans| ==> (j in idx <==> LevelOf(spans[j].size, t).Some?))
  {
    KeptIndicesExact(spans, Classifier(t));
  }

  /**
    Spans smaller than the third largest size never reach the outline; the
    outline keeps the rest.
   */
  lemma SmallSpansDropped(spans: seq<Span>, j: nat)
    requires j < |spans|
    ensures var u := UniqueSizes(spans);
      j in KeptIndices(spans, Classifier(TiersOf(spans))) <==> !(|u| > 3 && spans[j].size < u[2])
  {
    SpanLevel(spans, j);
    OutlineIsSelection(spans, TiersOf(spans));
  }

  /** With at most three distinct sizes every collected span is in the outline. */
  lemma FewSizesKeepAll(spans: seq<Span>)
    requires spans != [] && |UniqueSizes(spans)| <= 3
    ensures |OutlineOf(spans, TiersOf(spans))| == |spans|
  {
    var t := TiersOf(spans);
    forall j | 0 <= j < |spans| ensures Classifier(t)(spans[j]).Some? {
      SpanLevel(spans, j);
    }
    FilterMapKeepsAll(spans, Classifier(t));
  }

  /** With one distinct size, every entry is H1. */
  lemma OneSizeAllH1(spans: seq<Span>)
    requires spans != [] && |UniqueSizes(spans)| == 1
    ensures forall k :: 0 <= k < |OutlineOf(spans, TiersOf(spans))| ==> OutlineOf(spans, TiersOf(spans))[k].level == H1
  {
    var t := TiersOf(spans);
    var outline, idx := OutlineOf(spans, t), KeptIndices(spans, Classifier(t));
    OutlineIsSelection(spans, t);
    forall k | 0 <= k < |outline| ensures outline[k].level == H1 {
      SpanLevel(spans, idx[k]);
    }
  }

  /** With two distinct sizes, no entry is H3. */
  lemma TwoSizesNoH3(spans: seq<Span>)
    requires spans != [] && |UniqueSizes(spans)| == 2
    ensures forall k :: 0 <= k < |OutlineOf(spans, TiersOf(spans))| ==> OutlineOf(spans, TiersOf(spans))[k].level != H3
  {
    var t := TiersOf(spans);
    var outline, idx := OutlineOf(spans, t), KeptIndices(spans, Classifier(t));
    OutlineIsSelection(spans, t);
    forall k | 0 <= k < |outline| ensures outline[k].level != H3 {
      SpanLevel(spans, idx[k]);
    }
  }

  // ---------------------------------------------------------------------
  // Title

  /**
    When spans were collected, the title is the text of the first span set
    in the largest size; the placeholder default is never reached.
   */
  lemma TitleIsFirstLargest(spans: seq<Span>)
    requires spans != []
    ensures FirstWithSize(spans, TiersOf(spans).title).Some?
    ensures var i := FirstWithSize(spans, TiersOf(spans).title).value;
      && Title(spans, TiersOf(spans).title) == spans[i].text
      && (forall j :: 0 <= j < |spans| ==> spans[j].size <= spans[i].size)
      && (forall j :: 0 <= j < i ==> spans[j].size < spans[i].size)
  {
    var u := UniqueSizes(spans);
    UniqueSizesExact(spans);
    var t := TiersOf(spans);
    assert u[0] in u;
    forall j | 0 <= j < |spans| ensures spans[j].size <= u[0] {
      assert spans[j].size in u;
    }
    var i := FirstWithSize(spans, t.title);
  }

  // ---------------------------------------------------------------------
  // The whole classifier

  /**
    The classifier's result: an error exactly when nothing was collected,
    otherwise the title of the first largest span and the outline of the
    spans that matched a tier.
   */
  lemma ClassifiedResult(spans: seq<Span>)
    ensures Classified(spans).Err? <==> spans == []
    ensures spans != [] ==>
      var t := TiersOf(spans);
      var i := FirstWithSize(spans, t.title);
      i.Some? && Classified(spans) == Ok(Extraction(spans[i.value].text, OutlineOf(spans, t)))
  {
    if spans != [] {
      TitleIsFirstLargest(spans);
    }
  }

  /**
    Two spans of sizes 20 and 14 on page 1 give the title of the first and
    an H1 entry followed by an H2 entry.
   */
  lemma TwoSpanExample()
    ensures Classified([Span(20.0, "Report Title", 1), Span(14.0, "Background", 1)])
         == Ok(Extraction("Report Title", [Entry(H1, "Report Title", 1), Entry(H2, "Background", 1)]))
  {
    var spans := [Span(20.0, "Report Title", 1), Span(14.0, "Background", 1)];
    ExampleTiers(spans);
    var t := Tiers(20.0, 20.0, 14.0, 14.0);
    assert FirstWithSize(spans, 20.0) == Some(0);
    assert spans[..1] == [spans[0]];
    assert spans[..1][..0] == [];
    assert OutlineOf(spans[..1], t) == [Entry(H1, "Report Title", 1)];
    assert OutlineOf(spans, t) == OutlineOf(spans[..1], t) + Image(Classifier(t), spans[1]);
    assert Image(Classifier(t), spans[1]) == [Entry(H2, "Background", 1)];
    assert OutlineOf(spans, t) == [Entry(H1, "Report Title", 1), Entry(H2, "Background", 1)];
    assert Title(spans, 20.0) == "Report Title";
    assert Classified(spans) == Ok(Extraction(Title(spans, 20.0), OutlineOf(spans, t)));
  }

  lemma ExampleTiers(spans: seq<Span>)
    requires spans == [Span(20.0, "Report Title", 1), Span(14.0, "Background", 1)]
    ensures spans != [] && TiersOf(spans) == Tiers(20.0, 20.0, 14.0, 14.0)
  {
    assert Sizes(spans) == [20.0, 14.0];
    assert [20.0, 14.0][..1] == [20.0];
    assert DistinctDescending([20.0]) == [20.0] by {
      assert [20.0][..0] == [];
    }
    assert InsertDescending(14.0, [20.0]) == [20.0, 14.0];
    assert UniqueSizes(spans) == [20.0, 14.0];
  }
}
