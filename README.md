# PDF outline extractor: heading classifier

This project models the core of `extract_outline` in `main.py`, the function
that turns the text spans of a PDF document into a title and an outline of
H1/H2/H3 headings, and proves what it guarantees.

The model follows the code in two steps, plus its error case.

1. **Collection.** Each span the PDF reader delivers is a raw text, a font size
   and a 1-based page. A span is kept only when its text, stripped as Python's
   `str.strip()` strips, is not empty. Kept spans are stored as
   `(size, stripped text, page)` in reading order (`Outline.CollectSpans`).
2. **Classification.** The distinct font sizes are sorted largest first
   (`DistinctDescending`). The title and H1 tier is the largest size. The H2
   tier is the second largest, or the largest when there is only one size.
   The H3 tier is the third largest, or the smallest size when there are fewer
   than three (`DeriveTiers`). The title is the text of the first span in the
   title size (`Title`). Each span is then tested against H1, then H2, then H3,
   by exact equality of sizes. A span that matches no tier gets no outline
   entry (`BuildOutline`).
3. **No spans.** When no span is collected, `unique_sizes[0]` raises
   `IndexError`. The model returns `Err(IndexError)` in that case
   (`ExtractOutline`).

Files:
- `seqs.dfy` (module `Seqs`): a generic order-preserving filter-map, which both
  of the source's filtering loops instantiate. It comes with the positions it
  keeps and lemmas about them.
- `text.dfy` (module `Text`): `str.strip()` over the character set of
  `str.isspace()`.
- `outline.dfy` (module `Outline`): the data model, the two loops as methods,
  and the tier, title and level functions.
- `outline_properties.dfy` (module `OutlineProperties`): the lemmas.

Font sizes are `real`. The code only compares and sorts them, so reals lose
nothing.

Two consequences of the code are worth stating:
- When nothing was collected, `unique_sizes[0]` at `main.py:23` raises
  `IndexError`, and the model returns `Err(IndexError)`.
- The `if/elif` chain at `main.py:34-39` gives each span at most one entry.
  So with two distinct sizes, where the H3 tier equals the H2 tier, nothing is
  ever H3 (`TwoSizesNoH3`).

## Model

| member | source | states |
|---|---|---|
| Text.Strip | main.py:16 | The stripped text is empty exactly when the raw text is all white space. Otherwise it neither starts nor ends with white space. |
| Text.StripIsInnerSlice | main.py:16 | The stripped text is the slice of the raw text that follows its longest white-space prefix. Only white space follows that slice. |
| Text.StripIdempotent | main.py:16 | Stripping an already stripped text changes nothing. |
| Seqs.FilterMap | main.py:32-42 | An order-preserving filter-map never yields more elements than its input. |
| Seqs.KeptIndices | main.py:32-42 | The filter's kept positions are strictly increasing. Entry k of the result is the image of the k-th kept position. |
| Seqs.KeptIndicesExact | main.py:17-19 | A position is kept exactly when the filter maps it to a value. |
| Seqs.FilterMapAppend | main.py:11-19 | Filtering a concatenation is the concatenation of the filtered parts. |
| Seqs.FilterMapKeepsAll | main.py:33-42 | When every element maps to a value, the result is as long as the input. |
| Outline.CollectSpans | main.py:16-19 | The loop's `headings` are exactly the collected spans. `font_sizes` holds their sizes, position by position. |
| Outline.CollectedStep | main.py:16-19 | One more raw span appends its stripped form, or nothing when the stripped text is empty. |
| Outline.CollectedEmptyIffBlank | main.py:16-19 | Nothing is collected exactly when every raw span's text is blank. |
| OutlineProperties.CollectedSpans | main.py:16-19 | A raw span is collected exactly when its stripped text is non-empty. The stored text is the stripped text, size and page are unchanged, and collection order is input order. |
| OutlineProperties.CollectedAppend | main.py:11-19 | Collecting spans read in two parts gives the two collections one after the other. |
| Outline.InsertDescending | main.py:22 | Inserting a size into a strictly descending list keeps it strictly descending. The result holds exactly the old sizes plus the new one. |
| Outline.DistinctDescending | main.py:22 | `sorted(set(sizes), reverse=True)` is strictly descending, so free of duplicates. It holds exactly the sizes that occur. |
| OutlineProperties.DescendingUnique | main.py:22 | Two strictly descending lists with the same elements are equal, so the ranked list is uniquely determined by the set of sizes. |
| OutlineProperties.UniqueSizesExact | main.py:22 | The ranked sizes are exactly the sizes of the collected spans, strictly descending. There are no more of them than spans. |
| OutlineProperties.DistinctNoLonger | main.py:22 | There are never more distinct sizes than sizes. |
| OutlineProperties.InsertGrowsByAtMostOne | main.py:22 | Inserting into the ranked list adds at most one size. |
| Outline.DeriveTiers | main.py:23-26 | Title and H1 are the largest size. H2 is the second largest, or the largest when there is one size. H3 is the third largest, or the smallest size when there are fewer than three. |
| Outline.FirstWithSize | main.py:29 | Gives the first position whose span has the given size, or none exactly when no span has it. |
| Outline.Title | main.py:29 | The title is the text of the first span in the title size. It falls back to the placeholder when no span has that size. |
| OutlineProperties.TitleIsFirstLargest | main.py:23-29 | With spans present, the placeholder default is never reached. The title is the text of the earliest span of maximal size. |
| OutlineProperties.LevelByRank | main.py:24-26 | A size's level is set by its rank among the distinct sizes: rank 0 is H1, rank 1 is H2, rank 2 is H3, and lower ranks get no level. |
| OutlineProperties.SpanLevel | main.py:33-41 | A span is H1 iff its size is the largest. It is H2 iff its size is the second largest, and H3 iff the third largest. It is discarded iff there are more than three sizes and its size is below the third largest. |
| Outline.BuildOutline | main.py:32-42 | The loop's outline is the outline of the spans under the given tiers. |
| OutlineProperties.OutlineIsSelection | main.py:32-42 | The outline is an order-preserving subsequence of the spans. Each entry copies its span's text and page and carries the span's level. A span is selected exactly when it has a level. Outline length is at most the span count. |
| OutlineProperties.SmallSpansDropped | main.py:25-26 | A span reaches the outline exactly unless there are more than three sizes and its size is below the third largest. |
| OutlineProperties.FewSizesKeepAll | main.py:25-26 | With at most three distinct sizes, every collected span is in the outline. |
| OutlineProperties.OneSizeAllH1 | main.py:24-26 | With one distinct size, every outline entry is H1. |
| OutlineProperties.TwoSizesNoH3 | main.py:25-26 | With two distinct sizes, no outline entry is H3: the fallback H3 tier equals the H2 tier, which is tested first. |
| OutlineProperties.ClassifiedResult | main.py:22-44 | The result is an error exactly when nothing was collected. Otherwise it is the first largest span's text with the outline. |
| OutlineProperties.TwoSpanExample | main.py:22-44 | Spans of sizes 20 ("Report Title") and 14 ("Background") on page 1 give that title and an H1 entry followed by an H2 entry. |
| Outline.ExtractOutline | main.py:16-44 | The method computes the specified extraction. It fails with `IndexError` exactly when every raw span is blank. |

## Left out

- Reading the PDF (`fitz.open`, `page.get_text("dict")`) and walking its pages, blocks, lines and spans (main.py:6, main.py:11-15) belong to the foreign PDF library. The model takes the spans in reading order, each with the page number that `enumerate(doc, start=1)` gives it.
- `main()` (main.py:46-57) is file-system and JSON I/O: listing the input directory, creating the output directory, renaming `.pdf` to `.json`, writing the file.
- Font sizes are reals, not IEEE floats, so NaN sizes (never equal to themselves) are not modelled.
- `str.isspace()` is modelled by its fixed set of white-space characters. Unicode database versions are not modelled.
- The relevance ranking, the fixed-threshold classifier and the sentence summarizer are not in `main.py`, so they are not part of this model.
