# kokokor core in Dafny

A model of the core of kokokor. kokokor rebuilds paragraphs from the output
of Arabic OCR engines, and has two parts.

**Cross-engine typo correction.**
- Arabic text is normalised: one tag, tatweel and diacritics are removed, then the text is trimmed.
- Text is tokenised around preserved symbols.
- Levenshtein distance and a similarity ratio compare tokens.
- A three-valued token score drives a Needleman-Wunsch global alignment of two engines' token lists.
- For each aligned pair, the better token is selected. Echoes and footnote fragments are collapsed.
- Only the text of a line whose reference text mentions a typo symbol is rewritten.

**Geometric reconstruction.**
- Observations (a box plus its text) are clustered into lines by a vertical-gap threshold, or into paragraphs by a short-line rule and a vertical-jump rule.
- The observations are bucketed by their index, and each bucket is sorted by x.
- Each bucket is merged into one observation: the union box, with the texts joined by spaces.
- Boxes are mirrored for right-to-left reading, and x is snapped to the left margin.
- A footer is inserted by its vertical position.
- Pages are tested for centring and for poetic two-column layout.
- The Surya engine's corner boxes are converted.

Modules, one per file:
- `Types`: the records of `src/types.ts`, plus a few helpers.
- `StableSort`: an insertion sort that puts each element after every element not greater than it. It stands for `Array.prototype.sort` and `toSorted`, which are stable.
- `TextUtils`, `Similarity`, `Alignment` and `Typos`: the typo-correction part.
- `Indexing`, `Sorting`, `Grouping`, `Normalization`, `Layout` and `Surya`: the geometric part.

Modelling choices:
- Loops that update variables or arrays are methods. Each is proved equal to a specification function, and the properties are proved about that function:
  - the Levenshtein row loop;
  - the matrix fill, on an `array2`;
  - the backtrack, the line and paragraph taggers, the grouping loop, and the de-duplication loop;
  - the in-place overwrite of the last token, on a `TokenList` class.
- Coordinates and ratios are exact `real`s.
- The comparators follow the source:
  - lines and paragraphs are ordered by y, then by (index, y);
  - groups are ordered by x.

  Because the sort returns a list already in order unchanged, the final re-sort by (index, y) is proved to be the identity.

## Model

| member | source | states |
|---|---|---|
| Types.StripAll | src/utils/grouping.ts:19 | dropping the index keeps each observation's box and text, element by element, and keeps the length |
| StableSort.SortBy | src/utils/indexing.ts:18 | the sort returns a permutation of its input: same length, same multiset |
| StableSort.SortBySorted | src/utils/grouping.ts:38 | for a total preorder comparator the sorted list is ordered |
| StableSort.SortBySortedIsIdentity | src/utils/indexing.ts:43 | a list already in order comes back unchanged |
| TextUtils.BasicTagAt | src/utils/textUtils.ts:3 | a match of `basicTag` starts with `<`, ends with `>` and is at least three characters long |
| TextUtils.HtmlTagAt | src/utils/textUtils.ts:2 | a match of `htmlTag` starts with `<`, ends with `>` and is at least three characters long |
| TextUtils.TrimSpec | src/utils/textUtils.ts:23 | trimming removes exactly a whitespace prefix and suffix; the result has no whitespace at either end, is empty exactly for all-whitespace input, and is the input when the input has none at its ends |
| TextUtils.RemoveSpec | src/utils/textUtils.ts:23 | removing a character class leaves none of it, and changes nothing when there is none |
| TextUtils.NormalizeArabicTextIsClean | src/utils/textUtils.ts:22-24 | normalised text holds no tatweel and no diacritic from the four ranges, has no whitespace at either end, and `''` maps to `''` |
| TextUtils.NormalizeIdempotentWithoutTags | src/utils/textUtils.ts:22-24 | normalising twice equals normalising once when the normalised text has no tag left (only the first tag is removed) |
| TextUtils.FirstDigitSpec | src/utils/textUtils.ts:8 | the scan stops at the first digit: everything before it is a non-digit |
| TextUtils.DigitRunEndSpec | src/utils/textUtils.ts:8 | a digit run is extended to its maximal end |
| TextUtils.ExtractDigitsSpec | src/utils/textUtils.ts:36-39 | the result is `''` exactly when there is no digit; otherwise it is a substring made only of digits, preceded only by non-digits and not followed by a digit (the first maximal run) |
| TextUtils.WordLengthSpec | src/utils/textUtils.ts:63 | a word runs up to the first whitespace |
| TextUtils.Words | src/utils/textUtils.ts:63 | splitting on whitespace and dropping empty pieces yields only non-empty, whitespace-free tokens |
| TextUtils.Tokens | src/utils/textUtils.ts:52-64 | every token is non-empty and whitespace-free; empty or whitespace-only text gives no tokens |
| TextUtils.TokenizeText | src/utils/textUtils.ts:52-64 | the symbol loop computes `Tokens`, with the same two guarantees |
| TextUtils.SpacedSymbolTokens | src/utils/textUtils.ts:58-61 | after spacing a symbol, the words are those of the pieces between its occurrences with the symbol, as its own token, between each pair, in order |
| TextUtils.TokenizeAroundSymbol | src/utils/textUtils.ts:52-64 | with one preserved symbol, each occurrence in the tag-replaced text becomes its own token, in order |
| TextUtils.WordsOfSpaceSymbol | src/utils/textUtils.ts:58-61 | spacing out one symbol in a text splits each of the text's words around that symbol, word by word |
| TextUtils.WordsOfSpaceSymbols | src/utils/textUtils.ts:58-63 | spacing out the symbols one after another splits the words around each symbol in turn, in list order |
| TextUtils.TokensSplitEachSymbolInTurn | src/utils/textUtils.ts:52-64 | for any list of preserved symbols, the tokens are `[]` for blank text and otherwise the words of the tag-replaced text split around the first symbol, then the second, and so on |
| TextUtils.SymbolWordSurvives | src/utils/textUtils.ts:57-61 | a word equal to a preserved symbol stays one token through every pass when no other symbol occurs inside it |
| TextUtils.SeparatedWordsUnchanged | src/utils/textUtils.ts:57-63 | words that are each a symbol or free of every symbol come through all passes unchanged, as in the two-symbol case `بسم ﷽ الله ﷻ الرحمن` |
| TextUtils.OverlappingSymbolsSplitEarlierToken | src/utils/textUtils.ts:58-61 | with symbols `xy` then `y` (two distinct non-whitespace characters), the token `xy` set apart by the first pass is split into `x`, `y` by the second |
| TextUtils.FuseFootnotesKeepsShape | src/utils/textUtils.ts:79-100 | fusion is handled exactly in its two footnote cases; a standalone footnote followed by an embedded one with the same digits overwrites the last slot with the current token, and every other case (the reverse fusion included) leaves the result as it was; the length never changes |
| TextUtils.TokenList.Push | src/utils/typos.ts:121 | pushing appends one token |
| TextUtils.TokenList.SetLast | src/utils/textUtils.ts:90 | writing the last slot replaces it and keeps the length; on an empty list nothing changes |
| TextUtils.HandleFootnoteFusion | src/utils/textUtils.ts:79-100 | the in-place fusion returns the flag and leaves the list exactly as `FuseFootnotes` says, with the same length |
| TextUtils.HandleFootnoteSelection | src/utils/textUtils.ts:114-125 | null exactly when neither token has an embedded footnote; otherwise a singleton input token with one, the shorter of two, ties to the first |
| TextUtils.HandleStandaloneFootnotes | src/utils/textUtils.ts:139-150 | null exactly when neither is a standalone footnote; one footnote gives both tokens, the footnote first; two give the shorter, ties to the first |
| Similarity.NextRow | src/utils/similarity.ts:27-37 | one pass of the inner loop turns row i-1 of prefix edit distances into row i |
| Similarity.CalculateLevenshteinDistance | src/utils/similarity.ts:7-43 | the rolling two-row loop returns the recursive edit distance; it is 0 exactly for equal strings, at most the longer length, and the other length when one string is empty |
| Similarity.EditDistanceSymmetric | src/utils/similarity.ts:7-43 | the edit distance is symmetric |
| Similarity.EditDistanceZero | src/utils/similarity.ts:7-43 | the edit distance is 0 exactly when the strings are equal |
| Similarity.EditDistanceAtMostLonger | src/utils/similarity.ts:7-43 | the edit distance never exceeds the longer length |
| Similarity.MaxLength | src/utils/similarity.ts:49 | the denominator is at least 1 and at least both lengths |
| Similarity.CalculateSimilarity | src/utils/similarity.ts:48-52 | the ratio lies in [0, 1] and is 1 exactly for equal strings, two empty strings included |
| Similarity.SimilaritySymmetric | src/utils/similarity.ts:48-52 | similarity is symmetric |
| Similarity.AreSimilarAfterNormalization | src/utils/similarity.ts:57-61 | texts equal after normalisation are similar for any threshold up to 1; a threshold above 1 rejects all, one at or below 0 accepts all |
| Similarity.SimilarAfterNormalizationSymmetric | src/utils/similarity.ts:57-61 | the test is symmetric |
| Similarity.CalculateAlignmentScore | src/utils/similarity.ts:82-105 | the score is 2, 1 or -2; 2 exactly when the normalised tokens are equal; otherwise 1 exactly when either is a typo symbol or the normalised similarity reaches the threshold |
| Similarity.AlignmentScoreSymmetric | src/utils/similarity.ts:82-105 | the score is symmetric |
| Alignment.Reverse | src/utils/similarity.ts:144 | reversal maps position k to position n-1-k |
| Alignment.ProjectionLengths | src/utils/similarity.ts:126-142 | each side of an alignment has no more tokens than pairs, and without empty pairs the pairs number at most both sides together |
| Alignment.AlignmentLength | src/utils/similarity.ts:117-145 | an alignment of A and B is between max(\|A\|, \|B\|) and \|A\| + \|B\| long |
| Alignment.BacktrackIsAlignment | src/utils/similarity.ts:126-142 | a successful walk back from (i, j) yields pairs whose left column gives A's first i tokens, whose right column gives B's first j tokens, and with no (null, null) pair |
| Alignment.BacktrackAlignment | src/utils/similarity.ts:117-145 | the while loop returns the walk read backwards and then reversed, an alignment of both inputs; it throws "Invalid alignment direction" exactly when the walk meets a cell without a direction |
| Alignment.Max3 | src/utils/similarity.ts:186 | the maximum is one of the three and at least each |
| Alignment.OptimalMatrixFollowsRecurrence | src/utils/similarity.ts:164-190 | the specified matrix has row 0 and column 0 at j·(-1) and i·(-1), with directions left and up, and each inner cell is the best of diagonal, up and left, ties to diagonal then up |
| Alignment.RecurrenceIsConsistent | src/utils/similarity.ts:173-190 | a matrix filled by these rules names, in each cell, a move it equals and scores at least every available move |
| Alignment.RecurrenceDeterminesMatrix | src/utils/similarity.ts:164-190 | the fill rules determine the matrix uniquely |
| Alignment.BacktrackAchievesScore | src/utils/similarity.ts:117-145 | on a consistent matrix the backtrack never fails, and its alignment totals the cell's score |
| Alignment.NoAlignmentScoresHigher | src/utils/similarity.ts:173-190 | no alignment of the prefixes totals more than the cell's score |
| Alignment.Aligned | src/utils/similarity.ts:150-195 | the result aligns both inputs and totals the corner score |
| Alignment.AlignedIsOptimal | src/utils/similarity.ts:150-195 | no other alignment of the same tokens totals more (the Needleman-Wunsch optimum) |
| Alignment.CellScoreBound | src/utils/similarity.ts:173-190 | with pair scores at most 2, a cell scores at most 2 per token of the shorter prefix |
| Alignment.SelfBacktrackIsZip | src/utils/similarity.ts:126-142 | when identical tokens score 2, the walk on a sequence against itself is the diagonal, pairing each token with itself |
| Alignment.AlignedWithItself | src/utils/similarity.ts:150-195 | aligning a token list with itself gives the pairwise zip, and `[]` for two empty lists |
| Alignment.Rows | src/utils/similarity.ts:160-162 | the rows of the 2-D array, cell for cell |
| Alignment.FillRow | src/utils/similarity.ts:174-190 | the inner loop fills row i by the rules and keeps the earlier rows and column 0 |
| Alignment.FillScoringMatrix | src/utils/similarity.ts:159-191 | the filled array equals the specified matrix |
| Alignment.AlignTokenSequences | src/utils/similarity.ts:150-195 | fill then backtrack returns the optimal alignment `Aligned` |
| Typos.FindSymbol | src/utils/typos.ts:73 | `find` gives a typo symbol equal to one of the tokens, and nothing exactly when neither token is a typo symbol |
| Typos.FindSymbolIsFirst | src/utils/typos.ts:73 | `find` yields the symbol at the first position that equals either token |
| Typos.SelectBestTokens | src/utils/typos.ts:45-83 | one or two tokens, each one of the present inputs; a missing side gives the other |
| Typos.SelectBetween | src/utils/typos.ts:58-82 | with both tokens present, one or two tokens, each one of the two |
| Typos.SelectBestTokensKeepsAgreeingOriginal | src/utils/typos.ts:59-61 | tokens equal after normalisation give the original token |
| Typos.SelectBestTokensPrefersEmbeddedFootnote | src/utils/typos.ts:63-65 | an embedded footnote wins: the one token having it, or the shorter of two, ties to the original |
| Typos.SelectBestTokensKeepsStandaloneFootnote | src/utils/typos.ts:67-69 | one standalone footnote keeps both tokens, the footnote first; two keep the shorter |
| Typos.SelectBestTokensPrefersTypoSymbol | src/utils/typos.ts:71-75 | for two (non-empty) tokens, a typo symbol among them gives a single token: the first symbol in `typoSymbols` that equals either token, so the original when only it is a symbol and the Surya token when only that one is |
| Typos.SelectBestTokensEmptySymbolKeepsOriginal | src/utils/typos.ts:73-74 | when the symbol `find` yields is the falsy empty string, the original is kept |
| Typos.SelectBestTokensBySimilarity | src/utils/typos.ts:77-82 | otherwise the original when similarity is strictly above the threshold, else the Surya token |
| Typos.EchoReflexive | src/utils/typos.ts:108 | a token echoes itself exactly when the threshold is at most 1 |
| Typos.DedupStep | src/utils/typos.ts:99-122 | one step adds at most one token, never empties the list, and keeps all but the last kept token |
| Typos.RemoveDuplicateTokens | src/utils/typos.ts:94-125 | the loop with in-place overwrite returns the left fold `Dedup` |
| Typos.DedupDrawsFromInput | src/utils/typos.ts:94-125 | every output token occurs in the input |
| Typos.DedupLength | src/utils/typos.ts:94-125 | the output is no longer than the input and is empty exactly when the input is |
| Typos.DedupKeepsDistinctTokens | src/utils/typos.ts:99-122 | when no two neighbours echo or fuse, nothing is removed |
| Typos.DedupEchoKeepsShorter | src/utils/typos.ts:107-114 | a token echoing the last kept token is not appended; the last slot becomes the shorter of the two |
| Typos.DedupDropsRepeat | src/utils/typos.ts:107-114 | a self-echoing token read twice in a row counts once |
| Typos.ProcessTextAlignment | src/utils/typos.ts:137-160 | no original tokens gives the Surya text; no Surya tokens gives the original text; otherwise the de-duplicated selection over the optimal alignment, joined by spaces |
| Typos.SelectAllDrawsFromPairs | src/utils/typos.ts:154 | every selected token comes from one side of the aligned pairs |
| Typos.MergedTokensFromInputs | src/utils/typos.ts:146-157 | every final token is one of the original or Surya tokens |
| Typos.SelectAllOfZip | src/utils/typos.ts:154 | selecting over self-pairs gives the tokens back |
| Typos.MergedTokensOfAgreeingEngines | src/utils/typos.ts:146-154 | when both engines give the same tokens, the merge gives them back |
| Typos.FixObservation | src/utils/typos.ts:184-195 | the box is kept; a line whose reference mentions no typo symbol is unchanged; otherwise only the text is rewritten by `processTextAlignment` |
| Typos.FindAndFixTypos | src/utils/typos.ts:173-196 | fails with the source's message exactly when the lengths differ; otherwise maps each pair by index |
| Typos.FindAndFixTyposKeepsBoxes | src/utils/typos.ts:184-195 | every output keeps its input box |
| Typos.FindAndFixTyposWithoutSymbols | src/utils/typos.ts:182-189 | with no typo symbol in any reference line, the observations come back unchanged |
| Indexing.ByYIsTotalPreorder | src/utils/indexing.ts:18 | the y comparator is a total preorder |
| Indexing.SortedByY | src/utils/indexing.ts:18 | the y-sorted copy is a permutation of the input |
| Indexing.SortedByYIsOrdered | src/utils/indexing.ts:18 | the copy is ordered by y |
| Indexing.TaggedInOrder | src/utils/indexing.ts:43 | y-ordered observations with non-decreasing indices are ordered by (index, y) |
| Indexing.IndexObservationsAsLines | src/utils/indexing.ts:13-44 | the tagging loop and final sort return the line tagging `IndexedLines` |
| Indexing.MarkedLinesMonotone | src/utils/indexing.ts:21-40 | along y-order the line index never decreases |
| Indexing.MarkedLinesInOrder | src/utils/indexing.ts:43 | the tagged list is already ordered by (index, y) |
| Indexing.IndexedLinesAreMarked | src/utils/indexing.ts:43 | the final sort leaves the tagged y-order unchanged |
| Indexing.IndexedLinesOrdered | src/utils/indexing.ts:43 | the output is ordered by (index, y) |
| Indexing.IndexedLinesKeepObservations | src/utils/indexing.ts:18-43 | without the indices the output is the y-sorted input, a permutation of it |
| Indexing.IndexedLinesSteps | src/utils/indexing.ts:15-40 | the first index is 0 and each step adds 1 exactly when dy > max(h_prev, h_cur)·0.5 + tolerance·dpi/72, else 0 |
| Indexing.SingleObservationIsLineZero | src/utils/indexing.ts:22-24 | a single observation gets line 0 |
| Indexing.MaxWidth | src/utils/indexing.ts:55 | the maximum width bounds every width and is attained |
| Indexing.IndexObservationsAsParagraphs | src/utils/indexing.ts:46-86 | the tagging loop and final sort return the paragraph tagging `IndexedParagraphs` |
| Indexing.NoObservationNoParagraph | src/utils/indexing.ts:52-85 | no observations give no paragraphs |
| Indexing.MarkedParagraphsMonotone | src/utils/indexing.ts:59-82 | along y-order the paragraph index never decreases |
| Indexing.MarkedParagraphsInOrder | src/utils/indexing.ts:85 | the tagged list is already ordered by (index, y) |
| Indexing.IndexedParagraphsAreMarked | src/utils/indexing.ts:85 | the final sort leaves the tagged y-order unchanged |
| Indexing.IndexedParagraphsOrdered | src/utils/indexing.ts:85 | the output is ordered by (index, y) |
| Indexing.IndexedParagraphsKeepObservations | src/utils/indexing.ts:52-85 | without the indices the output is the y-sorted input, a permutation of it |
| Indexing.IndexedParagraphsSteps | src/utils/indexing.ts:59-82 | the first index is 0; each step adds 1 if the previous line is shorter than maxWidth·widthTolerance, plus 1 if, from the third line on, the gap exceeds the previous gap times the factor |
| Indexing.IndexedParagraphsBreaks | src/utils/indexing.ts:65-81 | indices rise by 0 to 2 per line; a short line, or a vertical jump, forces a strictly larger index on the line after it |
| Sorting.MarkObservationsWithIndex | src/utils/sorting.ts:13-44 | the twin loop returns exactly what `indexObservationsAsLines` returns |
| Grouping.GroupObservationsByIndex | src/utils/grouping.ts:11-23 | group k holds, in input order, the box and text of the elements with index k; there are one more groups than the largest index; members total the input length |
| Grouping.BucketEmptyBeyond | src/utils/grouping.ts:11-23 | no group exists past the largest index |
| Grouping.BucketHoldsMember | src/utils/grouping.ts:14-20 | every element lands in the group of its index |
| Grouping.BucketMembersHaveIndex | src/utils/grouping.ts:14-20 | every member of group k comes from an element with index k |
| Grouping.GroupCountBoundsIndices | src/utils/grouping.ts:15-17 | every element's index is below the group count |
| Grouping.ByXIsTotalPreorder | src/utils/grouping.ts:38 | the x comparator is a total preorder |
| Grouping.SortGroupsHorizontally | src/utils/grouping.ts:33-42 | the number of groups is kept; each group becomes a permutation of itself, ordered by x |
| Grouping.MinOfSpec | src/utils/grouping.ts:55-56 | `Math.min` over a non-empty group bounds every value and is attained |
| Grouping.MaxOfSpec | src/utils/grouping.ts:57-58 | `Math.max` over a non-empty group bounds every value and is attained |
| Grouping.MergeGroupedObservations | src/utils/grouping.ts:53-74 | at most one merged observation per group |
| Grouping.MergedBoxIsTightCover | src/utils/grouping.ts:55-66 | the merged box contains every member's box, and each of its four edges is some member's edge |
| Grouping.MergeSingleton | src/utils/grouping.ts:55-68 | a one-member group merges to that member unchanged |
| Grouping.MergedTextSeparatesMembers | src/utils/grouping.ts:68 | the merged text is the members' texts in order, joined by single spaces |
| Grouping.MergeCount | src/utils/grouping.ts:54-71 | one merged observation per non-empty group |
| Grouping.MergeWithoutHoles | src/utils/grouping.ts:53-74 | without holes, output k is the merge of group k |
| Normalization.MapOcrResultToRTLObservations | src/utils/normalization.ts:14-16 | x becomes W - x - w; y, width, height, text and length are unchanged |
| Normalization.FlipIsInvolution | src/utils/normalization.ts:15 | flipping twice about the same width restores the observations |
| Normalization.MinXSpec | src/utils/normalization.ts:32 | the minimum x bounds every x and is attained |
| Normalization.NormalizeObservationsX | src/utils/normalization.ts:30-41 | the length is preserved |
| Normalization.NormalizeChangesOnlyX | src/utils/normalization.ts:30-41 | only x changes: it becomes minX when \|x - minX\| is within (standardDPI/dpi)·5, and the observation is untouched otherwise |
| Normalization.NormalizeKeepsMinX | src/utils/normalization.ts:32-40 | the minimum x is unchanged and nothing ends up left of it |
| Normalization.NormalizeIdempotent | src/utils/normalization.ts:30-41 | a second pass changes nothing |
| Normalization.FindLastAboveSpec | src/utils/normalization.ts:54 | `findLastIndex` gives an element above the footer with none after it, or -1 exactly when none is above |
| Normalization.ApplyFooter | src/utils/normalization.ts:53-66 | the copy-and-splice returns `WithFooter` |
| Normalization.FooterNotFound | src/utils/normalization.ts:54-65 | when nothing is above the footer, the input is returned |
| Normalization.FooterInserted | src/utils/normalization.ts:54-61 | otherwise the length grows by 1; the footer sits right after the last element above it; nothing after it is above it; removing it gives the input in order |
| Layout.CenteredSurvivesFlip | src/utils/layout.ts:3-8 | mirroring the page does not change which observations are centred |
| Layout.ExactCentreIsCentered | src/utils/layout.ts:3-8 | an observation centred on the page is centred for any non-negative tolerance |
| Layout.CenteredExamples | src/utils/layout.test.ts:7-17 | (298, 286) and (103.82, 726) are centred and (73, 716) is not, at width 960 with tolerance 0.05 |
| Layout.PoeticCount | src/utils/layout.ts:20 | the count of poetic rows is at most the row count |
| Layout.PoeticCountAll | src/utils/layout.ts:20 | the count equals the row count exactly when every row has the expected length, and is 0 exactly when none has |
| Layout.PoeticLayoutByCount | src/utils/layout.ts:15-24 | poetic exactly when there are at least 3 rows and the count reaches minPoeticRatio times the rows |
| Layout.ShortPageIsNotPoetic | src/utils/layout.ts:16-18 | fewer than 3 rows are never poetic |
| Layout.PoeticDefaults | src/utils/layout.ts:15-24 | with the defaults 2 and 0.6 and at least 3 rows: a page whose rows all have two segments is poetic, and a page where no row has two is not |
| Surya.MapBoundingBox | src/utils/surya.ts:10-13 | x = x1, y = y1, x + width = x2, y + height = y2; the sizes are non-negative when the corners are ordered |
| Surya.BoundingBoxRoundTrip | src/utils/surya.ts:10-13 | the corner form and the size form convert into each other without loss |
| Surya.MapSuryaPageResultToObservations | src/utils/surya.ts:23-25 | one observation per line, in order, with the text unchanged and the box equal to the line's corners |
| Surya.MapTwoLinesExample | src/utils/surya.test.ts:25-44 | the page test's two lines map to the expected boxes and texts |
| Surya.MapKeepsOrder | src/utils/surya.ts:23-25 | the mapping distributes over concatenation, so line order is kept |

## Left out

- IEEE floating point: coordinates, DPI, tolerances and ratios are exact reals, so rounding and NaN are not modelled. `normalizeObservationsX` with `dpi` 0 is modelled as the JS quotient ±Infinity/NaN, taking `dpi` as +0 (a -0 would flip the sign).
- Indexing.IndexObservationsAsLines: requires at least one observation. On an empty list the source tags an undefined element, which is not a meaningful result.
- Sorting.MarkObservationsWithIndex: requires at least one observation, for the same reason.
- Grouping.MergeGroup: requires a non-empty group. An empty present group gives an Infinity/NaN box in the source. Holes from sparse group arrays are modelled as empty groups, which the merge skips as `flatMap` skips holes.
- Grouping.SortGroupsHorizontally: the source throws on a hole (`undefined.toSorted`). The model sorts an empty group to itself.
- Alignment.BacktrackAlignment: requires a well-formed matrix (the right shape, and no move that leaves it). The source only ever passes the matrix it has just filled, which is well-formed.
- TextUtils.TokenizeAroundSymbol: the every-occurrence-is-its-own-token property is stated for one preserved symbol. For several symbols the model proves the pass-by-pass characterisation (`TokensSplitEachSymbolInTurn`) and the survival of symbol tokens that no other symbol occurs in; symbols that overlap break the property, since a later symbol splits an earlier one's token (`OverlappingSymbolsSplitEarlierToken`).
- Typos.SelectBestTokens: requires at least one present token. For two gaps the source would return `[null]`; an alignment never pairs two gaps, so a present side is required.
- Regular expressions:
  - preserved symbols and typo symbols are matched as literal substrings, on the assumption that they contain no regex metacharacters;
  - an empty typo-symbol list makes the alternation match every string, as in JS;
  - `\s` and `trim` use a fixed whitespace set;
  - string length is sequence length.
- `console.warn('Footer not found')` is a diagnostic side channel and is not modelled.
- `src/index.ts` (a stub that returns nothing) and its test, which reads fixtures from disk, are not part of this model.
- The copy of the Surya mapper in `src/utils/typos.ts:18-33` is the same code as `src/utils/surya.ts` and is modelled once, in `Surya`.
- A Surya box shorter than four numbers (NaN sizes in the source) cannot be expressed: the model's box is a 4-tuple.
- StableSort.SortBy: stability in general (elements that compare equal keep their input order) is not stated as a lemma; the model proves the permutation, the order, and that a list already in order comes back unchanged.
- Two constants of the code, as modelled: the line threshold factor is 0.5 (`src/utils/indexing.ts:31`), and the paragraph jump rule is `gap > prevGap * verticalJumpFactor` with no further condition (`src/utils/indexing.ts:70`).
