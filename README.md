# Heading extractor: a verified model of the layout-inference pipeline

The heading extractor takes the text spans a PDF layout engine reports. Each span has a text,
a font size, a zero-based page index and a bounding box. From these it infers a document
`{title, outline}`:

1. **Normalisation.** Every span text is stripped. A span is kept only when its text is
   non-empty and has at least two whitespace-separated tokens. Its page and box are copied.
2. **Block merge.** The spans are stably sorted by (page, y). One left-to-right pass then
   extends the current block with the next span when:
   - the span is on the same page;
   - its top is within 4.0 of the block's running bottom;
   - its font size is less than 1 away from the block's (seed) size.
   Otherwise the pass closes the block and starts a new one.
3. **Headings.** Blocks whose text has fewer than 150 characters are headings.
4. **Levels.** The distinct font sizes of the headings are counted and ranked by value, largest
   first. The top three become H1, H2 and H3. Any other size reads as H3.
5. **Title.** The title is the text of the first heading with a maximal score,
   `size*10 - page*2 - y - 0.01*|cx - 300|`, or `""` when there is no heading.
6. **Outline.** The outline is built in heading order. It skips the title and every text already
   seen, marking a text seen before the admission test. A heading is admitted when its text
   starts with a section number `^\d+(\.\d+)*` or its level is H1 or H2.

The multilingual variant changes four things:
- It repairs line-break hyphenation (`(\w+)-\s+(\w+)` → `\1\2`).
- Its merge also requires left edges less than 40 apart.
- It repairs and strips each block's text when the block is sealed.
- It picks the title differently. It takes the heading blocks with font size ≥ 12 on the first
  three pages, sorts them by (page, y) and groups them into runs of adjacent blocks. It scores each run with
  `size0*10 - page0*3 - y0 + 0.1*len(joined) - 0.01*|mean cx - 300|`. The title is the repaired,
  stripped join of the first best run.

The model is split into modules:
- `Text`: strip, token count, the section-number pattern.
- `Hyphenation`: the regex substitution, written as an explicit left-to-right scan.
- `Spans`: records, normalisation, the stable sort, the join, filtering.
- `Grouping`: the greedy pass shared by both merges and the title grouping.
- `Selection`: first-wins arg-max.
- `Levels`: headings, frequency count, level map.
- `Outline`.
- `HeadingExtractor` and `MultilingualExtractor`: the two pipelines.

Each loop of the source is modelled as a method proved equal to a pure function:
- the normalisation loop;
- the merges;
- the frequency count;
- the title grouping;
- the seen-set outline loop.

The properties are then proved about those functions.

Points where the code's behaviour is easy to misread:
- **Empty input.** When no span survives normalisation, `merge_multiline_blocks` reads
  `spans[0]` of an empty list and raises an `IndexError`. The pipeline does not return an empty
  document. The model returns `Failure(IndexError)` in exactly that case.
- **Size ranking.** Sizes are ranked by their value, not by how often they occur. The frequency
  count only decides which sizes occur.
- **Title comparison in the baseline.** The outline compares heading texts against the
  unstripped best text, but the document returns it stripped. The model keeps both. It proves
  that block texts are already trimmed, so the two agree.

## Model

| member | source | states |
|---|---|---|
| Text.Strip | heading_extractor.py:42 | `str.strip()`: the result is a trimmed infix of the input with only whitespace around it. It is empty iff the input is all whitespace. A trimmed input is returned unchanged. |
| Text.TokenCount | heading_extractor.py:43 | `len(s.split())` is zero iff the text is all whitespace. |
| Text.OneWordIsOneToken | heading_extractor.py:43 | A non-empty text without whitespace is exactly one token, so a single word fails the normaliser's test. |
| Text.TokenCountJoin | heading_extractor.py:43 | Joining two texts with one space adds their token counts. |
| Text.TwoWordsAreTwoTokens | heading_extractor.py:43 | Two words joined by a space are exactly two tokens. |
| Text.TokenCountAtLeastTwo | heading_extractor.py:43 | `len(s.split()) >= 2` holds iff s has a non-whitespace character, later a whitespace one, and later again a non-whitespace one. |
| Text.SectionNumberMatchIsDigitTest | heading_extractor.py:90 | `re.match(r"^\d+(\.\d+)*", t)` succeeds iff `t` starts with a digit. |
| Hyphenation.MatchAtSound | heading_extractor_multilingual.py:15 | What the matcher finds at p is an occurrence of the pattern: a non-empty word run, a hyphen, a non-empty whitespace run and a non-empty word run, in that order. The second word run is maximal. |
| Hyphenation.MatchAtComplete | heading_extractor_multilingual.py:15 | The matcher misses nothing: wherever `(\w+)-\s+(\w+)` occurs starting at p, trying p finds a match. |
| Hyphenation.HasLineBreakHyphenIffOccurs | heading_extractor_multilingual.py:15 | The matcher finds a match somewhere in the text iff the pattern occurs somewhere in it. |
| Hyphenation.FixHyphenation | heading_extractor_multilingual.py:14-15 | The repaired text is never longer than the input. |
| Hyphenation.FixHyphenationUnchangedIffNoMatch | heading_extractor_multilingual.py:14-15 | The text is unchanged iff the pattern matches nowhere in it. When it matches, the text gets strictly shorter. |
| Hyphenation.InterPretExample | heading_extractor_multilingual.py:14-15 | `"inter- pret this"` becomes `"interpret this"`. |
| Spans.Normalise | heading_extractor.py:42-53 | There are no more spans than raw spans. Every surviving span has a trimmed text with at least two tokens. Its order and repeats are pinned by `NormaliseAppend` and `NormaliseSingleton`. |
| Spans.NormaliseSingleton | heading_extractor.py:42-53 | One raw span gives its record when its stripped text is informative, and nothing otherwise. |
| Spans.NormaliseAppend | heading_extractor.py:37-53 | The survivors of a concatenation are the survivors of each part in turn. With `NormaliseSingleton` this makes the output the records of the surviving raw spans in extraction order, repeats included. |
| Spans.NormaliseKeepsExactlyKept | heading_extractor.py:42-53 | Exactly the raw spans whose stripped text is informative come through. Each has its stripped text, and its page and box copied unchanged. |
| Spans.CollectSpans | heading_extractor.py:37-53 | The append loop builds exactly the normalised sequence, in extraction order. |
| Spans.NormaliseIdempotent | heading_extractor.py:42-53 | Normalising the output of normalisation again changes nothing. |
| Spans.SortByPosition | heading_extractor.py:15 | The result is sorted by (page, y) and is a permutation of the input. |
| Spans.SortIsStable | heading_extractor.py:15 | Spans that share a (page, y) key keep their relative order, as in Python's stable sort. |
| Spans.SortSortedIsIdentity | heading_extractor.py:15 | Sorting an already sorted sequence returns it unchanged. |
| Spans.Filter | heading_extractor.py:59 | A list comprehension with a test keeps exactly the elements that pass it. |
| Spans.FilterSingleton | heading_extractor.py:59 | A single element is kept iff it passes the test. |
| Spans.FilterAppend | heading_extractor.py:59 | The comprehension of a concatenation is the concatenation of the comprehensions. With `FilterSingleton` this makes the result the passing elements in input order, repeats included. |
| Spans.FilterKeepsOrder | heading_extractor.py:59 | Filtering a (page, y)-sorted sequence leaves it sorted. |
| Spans.FilterNone | heading_extractor_multilingual.py:40-43 | When no element passes the test, the comprehension is empty. |
| Spans.JoinTextTrimmed | heading_extractor.py:25 | Joining trimmed, non-empty texts with single spaces gives a trimmed, non-empty text. |
| Grouping.RunsPartition | heading_extractor.py:16-30 | The greedy pass partitions its input. The groups, laid end to end, are the input. No group is empty. There are at most as many groups as spans, and at least one when there is a span. |
| Grouping.RunsCohere | heading_extractor.py:20-26 | Every span after the first in a group was accepted by the rule against the part of the group before it. |
| Grouping.RunsMaximal | heading_extractor.py:27-29 | A group was closed only because the rule rejected the first span of the next group. |
| Grouping.FirstSpansInOrder | heading_extractor.py:15 | When the grouped spans are (page, y)-sorted, so are the groups' first spans. |
| Selection.FirstArgMax | heading_extractor.py:79-80 | The picked index has a maximal score, and every earlier index scores strictly less (first-wins tie-breaking). |
| Levels.Headings | heading_extractor.py:59 | The headings are exactly the blocks with text shorter than 150 characters. |
| Levels.HeadingsInOrder | heading_extractor.py:59 | The headings keep the blocks' order: those of a concatenation are those of each part in turn, and a single block is a heading iff it is short enough. |
| Levels.CountPositiveIffOccurs | heading_extractor.py:62-64 | A size's count is positive iff some heading has that size. |
| Levels.CountSizes | heading_extractor.py:62-64 | The frequency loop has one key per occurring size. Each key maps to that size's count, which is positive. |
| Levels.RankSizes | heading_extractor.py:65 | The distinct sizes in strictly decreasing order of value, each exactly once. |
| Levels.RankSizesFirst | heading_extractor.py:65 | The ranking starts with the largest size and continues with the ranking of the rest. |
| Levels.LevelMapOfRanked | heading_extractor.py:66 | The map holds exactly the first (at most) three ranked sizes, with the size at rank k mapped to H(k+1). |
| Levels.SizeToLevel | heading_extractor.py:62-66 | The map has at most three keys, all of them occurring sizes. A strictly larger size gets a strictly smaller level number, so the largest size is H1. A size left out is smaller than each of three mapped sizes. |
| Levels.LevelOfRank | heading_extractor.py:89 | The level a heading's size reads through `size_to_level.get(size, "H3")` is H1 when no occurring size is larger, H2 when exactly one is, and H3 otherwise. |
| Levels.LevelOfLargest | heading_extractor.py:89 | A size reads H1 exactly when no occurring size is larger. |
| Outline.OutlineOf | heading_extractor.py:83-95 | Entry texts are pairwise distinct. No entry text is the title. Every entry is admitted. There is an entry for a heading iff that heading is kept: not the title, the first heading with its text, and admitted. |
| Outline.BuildOutline | heading_extractor.py:83-95 | The seen-set loop builds exactly the outline of all headings. |
| Outline.SourceIndices | heading_extractor.py:85-95 | The entries come from strictly increasing heading positions, each with that heading's text, page and level. The outline is therefore an order-preserving subsequence of the headings. |
| Outline.LaterDuplicatesDropped | heading_extractor.py:86-88 | A later heading whose text already appeared is never kept. When the first heading with a text is passed over, no entry has that text. |
| HeadingExtractor.Blocks | heading_extractor.py:14-31 | A non-empty span list gives at least one block, and never more blocks than spans. |
| HeadingExtractor.MergeSorted | heading_extractor.py:16-30 | The loop over the sorted spans yields one block per greedy run, and block k is the block of run k. |
| HeadingExtractor.MergeMultilineBlocks | heading_extractor.py:14-31 | The merge loop, which mutates a current block, returns exactly the blocks of the runs of the sorted spans. |
| HeadingExtractor.BlockOfSnoc | heading_extractor.py:25-26 | Merging a span appends a space and its text, and moves the bottom to the span's bottom. |
| HeadingExtractor.MergeConditions | heading_extractor.py:20-24 | Every span merged into a block is on the seed's page. Its size is less than 1 from the seed's size. Its top is within the threshold of the previous span's bottom. |
| HeadingExtractor.NoCrossPageMerge | heading_extractor.py:20-23 | Two spans in one block are on the same page, and their sizes are less than 2 apart. |
| HeadingExtractor.MergeIsMaximal | heading_extractor.py:27-29 | Consecutive blocks fail the merge test, so no block could have been extended. |
| HeadingExtractor.BlocksPartitionSpans | heading_extractor.py:15-30 | The runs partition the sorted spans. Each block's text is the space join of its run. Its bottom is the run's last bottom. Its page, top, size and edges are the seed's. |
| HeadingExtractor.BlocksSorted | heading_extractor.py:15-30 | The blocks come out in (page, y) order. |
| HeadingExtractor.SortedPermutationsEqual | heading_extractor.py:15 | Two sorted permutations of the same spans are equal when a position identifies a span. |
| HeadingExtractor.MergeDeterministic | heading_extractor.py:14-31 | When a (page, y) position identifies a span, the blocks do not depend on extraction order. |
| HeadingExtractor.TiedPositionsOrderMatters | heading_extractor.py:15-26 | Two different spans at one (page, y) position, given in the two possible orders, give different blocks: the merged text follows the input order. |
| HeadingExtractor.BestTitle | heading_extractor.py:69-80 | The title is `""` when there are no headings. Otherwise it is the text of the first heading with a maximal score. |
| HeadingExtractor.ExtractTitleAndOutline | heading_extractor.py:42-99 | The pipeline fails with an index error iff no span survives normalisation. Otherwise it returns the document of the normalised spans. |
| HeadingExtractor.BlockTextsTrimmed | heading_extractor.py:25-30 | Blocks built from normalised spans have trimmed, non-empty texts. |
| HeadingExtractor.ExtractionGuarantees | heading_extractor.py:80-99 | The title is `""` iff there is no heading. Otherwise it is a heading's text. No outline entry has the title's text. Outline texts are pairwise distinct. |
| MultilingualExtractor.SealText | heading_extractor_multilingual.py:32 | A sealed text is trimmed and no longer than the joined text. |
| MultilingualExtractor.Blocks | heading_extractor_multilingual.py:17-37 | A non-empty span list gives at least one block, and never more blocks than spans. |
| MultilingualExtractor.MergeSorted | heading_extractor_multilingual.py:19-36 | The loop over the sorted spans yields one block per greedy run, and block k is the sealed block of run k. |
| MultilingualExtractor.MergeMultilineBlocks | heading_extractor_multilingual.py:17-37 | The merge loop, which seals each block on closing and the last one at the end, returns exactly the sealed blocks of the runs. |
| MultilingualExtractor.MergeConditions | heading_extractor_multilingual.py:23-28 | Every merged span is on the seed's page. Its size is less than 1 from the seed's. Its left edge is less than 40 from the seed's. Its top is within the threshold of the previous bottom. |
| MultilingualExtractor.MergeIsMaximal | heading_extractor_multilingual.py:23-34 | Consecutive sealed blocks fail the merge test. |
| MultilingualExtractor.BlocksPartitionSpans | heading_extractor_multilingual.py:18-36 | The runs partition the sorted spans. Each block's text is `strip(fix_hyphenation(join of its own run))`, so the repair never crosses a block. Its geometry is the seed's, with the run's last bottom. |
| MultilingualExtractor.BlocksSorted | heading_extractor_multilingual.py:18-36 | The sealed blocks come out in (page, y) order. |
| MultilingualExtractor.MergeDeterministic | heading_extractor_multilingual.py:17-37 | When a position identifies a span, the sealed blocks do not depend on extraction order. |
| MultilingualExtractor.TitleBlocks | heading_extractor_multilingual.py:40-45 | The title blocks are the headings on pages 0-2 with size ≥ 12, repeats included: a permutation of the filtered headings, sorted by (page, y). |
| MultilingualExtractor.TitleGroupsAreAdjacentRuns | heading_extractor_multilingual.py:46-62 | The groups partition the sorted candidates. Consecutive blocks in a group are adjacent: same page, size difference ≤ 1, gap < 6, left edges < 40 apart. A group's last block is not adjacent to the next group's first block. |
| MultilingualExtractor.GroupTitleBlocks | heading_extractor_multilingual.py:46-62 | The grouping loop builds exactly the greedy runs of the candidates. |
| MultilingualExtractor.BestGroup | heading_extractor_multilingual.py:64-70 | `max(groups, key=group_score, default=[])` gives `[]` when there are no groups. Otherwise it gives the first group with a maximal score. |
| MultilingualExtractor.NoCandidateNoTitle | heading_extractor_multilingual.py:40-71 | With no candidate block there are no groups, and the title is `""`. |
| MultilingualExtractor.TitleFromBestGroup | heading_extractor_multilingual.py:64-71 | With a candidate, the title is the repaired, stripped join of a first-best group. |
| MultilingualExtractor.GetBestTitleCandidate | heading_extractor_multilingual.py:39-71 | The title selector returns exactly the grouped title. |
| MultilingualExtractor.ExtractTitleAndOutline | heading_extractor_multilingual.py:82-123 | The pipeline fails with an index error iff no span survives normalisation. Otherwise it returns the document of the normalised spans. |
| MultilingualExtractor.ExtractionGuarantees | heading_extractor_multilingual.py:104-123 | The title is trimmed, and `""` when no heading is a candidate. No outline entry has the title's text. Every entry is numbered or H1/H2. Entry texts are distinct. |

## Left out

- The layout engine (opening the PDF, walking pages, blocks, lines and spans) is a foreign library. The model starts from the sequence of raw spans it reports, in extraction order.
- `round(size, 1)`: a size is taken as already rounded. Float rounding is not modelled.
- Floating point. Coordinates, sizes and scores are exact reals, so IEEE rounding and ties that rounding would break or create are not reproduced. `np.mean` is written as sum divided by count.
- The ONNX session, `encode` and the MiniLM tokenizer are never called by the pipeline. `main.py` (listing, JSON writing) is not part of this model.
- Character classes are limited to ASCII. Whitespace, for `str.strip`, `str.split` and `\s`, is space, tab, line feed, vertical tab, form feed, carriage return and 0x1C-0x1F. Non-ASCII whitespace such as U+0085, U+00A0 and U+2000-U+200A is not modelled. `\w` is ASCII letters, digits and `_`, and `\d` is `0`-`9`. Unicode letters and digits are not modelled.
- HeadingExtractor.MergeMultilineBlocks: builds fresh block values. The source mutates the first span of each block in place, which aliases the caller's dictionaries. That aliasing is not modelled.
- MultilingualExtractor.MergeMultilineBlocks: builds fresh block values too. The in-place mutation of the caller's dictionaries is not modelled.
- HeadingExtractor.MergeDeterministic: independence of extraction order holds only when a (page, y) position identifies a span. The stable sort keeps distinct spans at one position in input order, and `TiedPositionsOrderMatters` shows that their order can change the blocks.
- MultilingualExtractor.MergeDeterministic: the same restriction applies.
- Levels.RankSizes: ranks the set of occurring sizes. The counts paired with them in `sorted_sizes` take no part in the ranking, so they are not carried along.
