# zotero-rag core, modelled in Dafny

This project models the deterministic core of zotero-rag. The system indexes a Zotero
library for retrieval-augmented search. It turns each item's extracted text into
token-bounded chunks with page ranges, embeds them, and upserts them into a vector store.
A query is parsed for `key:value` shorthand filters. The candidates fetched for it are
filtered on the client side and then reranked.

The Dafny modules follow the Python modules:

- `Chunker`, `Separators`, `Pages` and `Tokens` model `src/chunker.py`:
  - fixed token windows;
  - splitting at structural separators, then greedy packing;
  - document classification;
  - document, EPUB and note chunking;
  - the page map and the per-character page array;
  - page assignment by position.
- `Shorthand` and `Search` model `src/search_pipeline.py`:
  - the shorthand parser;
  - filter matching;
  - the argument merge and `top_k` clamp;
  - the over-fetch size;
  - client-side filtering;
  - reranking and truncation.
- `Extractors` models `src/extractors.py`:
  - `preprocess_text`;
  - `select_best_attachment`;
  - `extract_item_metadata`.
- `Zotero` models the post-fetch logic of `src/zotero_client.py`:
  - the collection tree, with paths, archive collections, archive names and visit dates;
  - item filtering and deduplication;
  - enrichment.
- `Indexer` and `Sync` model `src/indexer.py`:
  - the context header and the alias map;
  - `process_item`;
  - the item loop and batch loop of `index_items`;
  - the selection an incremental update makes.
- `VectorDb` models `_clean_metadata` and the batching of `upsert_chunks` in `src/vectordb.py`.
- `Text`, `Records`, `Batches` and `Wrappers` hold shared definitions:
  - Python string operations;
  - the item, metadata and chunk records;
  - consecutive slices and order-keeping filters;
  - `Option` and `Result`.

Where the Python code loops and updates variables, the model has a `method` with a loop. Each method is proved equal to a specification function. The properties the code promises are lemmas about those functions. `_assign_pages_by_position` updates chunks in place, so its model updates an `array`. The tokenizer, the embedder, the vector search and the reranker are parameters.

Consequences of the code worth knowing:

- For `N` tokens, budget `B` and overlap `O`, the token windows number `ceil(N / (B - O))` (`Chunker.WindowCountIsCeiling`). The loop starts a window at every multiple of the step below `N`. Consecutive windows share exactly `O` tokens when the earlier one is full (`Chunker.WindowsOverlap`). When the text ends within `O` tokens of the last window's start, that window lies wholly inside the one before it.
- Segments are packed greedily. Two hearing statements that fit the budget together become one chunk (`Chunker.TwoSegmentsMerge`). They become two chunks only when the combined text is over budget (`Chunker.TwoSegmentsApart`).
- Consider the heading separator `\n(?=[A-Z][A-Z ]{10,})\n`. Its lookahead needs a capital letter at the very position where `\n` must match, so it can never match and never splits (`Separators.CapsHeadingNeverMatches`, `Separators.CapsHeadingNeverSplits`).
- There are only three classes, and `hearing` and `book` are always `long`. The fixed-token-window branch of `chunk_document` is therefore unreachable (`Chunker.Classify`).

## Model

| member | source | states |
|---|---|---|
| Tokens.DefaultsValid | src/config.py:24-26 | The configured chunk size 600, overlap 150 and short threshold 1000 satisfy overlap < size, so the window step is 450 tokens. |
| Chunker.SplitByTokens | src/chunker.py:15-26 | The `while start < len(tokens)` loop returns exactly the decoded windows of the encoded text. |
| Chunker.DecodedStep | src/chunker.py:20-25 | Decoding the window at `start` and advancing to `start + size - overlap` keeps the loop's invariant. |
| Chunker.Decoded | src/chunker.py:23 | Decoding a list of windows gives one text per window, in order, each being the decoder applied to that window. |
| Chunker.WindowCountIsCeiling | src/chunker.py:20-25 | The number of loop iterations for `n` tokens is the least `k` with `k * step >= n`, that is, `ceil(n / step)`. |
| Chunker.WindowsLength | src/chunker.py:20-25 | There are no windows when `start` is at or past the end. Otherwise there are `ceil((len - start) / step)` windows. |
| Chunker.WindowAt | src/chunker.py:21-22 | Window `i` starts at token `start + i * step` inside the text, is exactly `tokens[s:s + size]` truncated at the end, and holds between 1 and `size` tokens. |
| Chunker.WindowsOfTokens | src/chunker.py:15-26 | Empty input gives no windows, and non-empty input gives some. The count is `ceil(len / step)`, and every window has 1 to `size` tokens. |
| Chunker.WindowsCover | src/chunker.py:20-25 | Every token from `start` on appears in some window, at offset `j - i * step` of window `i`. No token is lost. |
| Chunker.WindowsOverlap | src/chunker.py:21-25 | The tail of window `i` after the first `step` tokens is a prefix of window `i + 1`. When window `i` is full, that shared part is exactly `overlap` tokens. |
| Chunker.SplitAtBoundaries | src/chunker.py:29-59 | Returns the segments chosen by the separator pass, packed by the accumulator loop. |
| Chunker.SelectSegments | src/chunker.py:31-39 | The separator loop returns the first separator's non-blank parts that outnumber the current segments. Otherwise it returns the text whole. |
| Chunker.PackSegments | src/chunker.py:41-59 | The packing loop, from an empty accumulator, returns the chunks of the greedy packing. The final non-empty accumulator is flushed. |
| Chunker.PackOne | src/chunker.py:43-55 | One segment either extends the accumulator, or flushes it and then starts anew or emits the segment's token windows. Its output followed by the rest of the packing is the packing of this segment and the rest. |
| Chunker.PackWithinBudget | src/chunker.py:41-57 | Every packed chunk has at most `size` tokens, or is a token window of a segment that is itself over `size`. This requires an accumulator within budget. |
| Chunker.PackCount | src/chunker.py:41-57 | When every segment fits, packing yields at most one chunk per segment plus the flushed accumulator. A non-blank accumulator yields at least one chunk. |
| Chunker.TwoSegmentsMerge | src/chunker.py:44-46 | Two segments whose stripped combination fits become one chunk, the combination. |
| Chunker.TwoSegmentsApart | src/chunker.py:44-53 | Two segments that each fit, but not together, become two chunks in order. |
| Chunker.NonEmptyPack | src/chunker.py:41-57 | Packing at least one non-blank segment yields at least one chunk. |
| Chunker.Classify | src/chunker.py:89-102 | `hearing` and `book` map to long, and only they do. A document is medium exactly when it is over the short threshold and is either a report or document, or over twice the chunk size. Everything else is short. |
| Chunker.ShortDocuments | src/chunker.py:96-102 | With the configured constants, any other type at or under 1000 tokens is short. A type that is neither long nor medium is short up to 1200 tokens and medium above. |
| Chunker.MakeChunkText | src/chunker.py:272-278 | A chunk's text is empty exactly when the input is blank. Otherwise it has no whitespace at either end and occurs inside the input. |
| Chunker.ChunkDocument | src/chunker.py:105-147 | The result contains the class-dependent chunk texts, numbered, with pages assigned. Blank text gives `[]`. A short document gives one chunk, the trimmed form-feed-free text. Every chunk has `chunk_index` equal to its position, `total_chunks` equal to the count, the item metadata, and all three page fields set. |
| Chunker.EpubChunksAppend | src/chunker.py:153-172 | Chunk numbering runs on across a concatenation of pieces: the second part is numbered from the length of the first. |
| Chunker.ChunkEpub | src/chunker.py:150-178 | The result is every non-blank chapter's pieces, numbered consecutively from 0 across chapters, with `total_chunks` backfilled to the overall count. |
| Chunker.EpubLoopStep | src/chunker.py:155-172 | One more chapter appends its chunks, numbered on from the chunks before it. |
| Chunker.EpubTotals | src/chunker.py:174-176 | Setting `total_chunks` on chunks numbered with the placeholder -1 gives the final chunks. |
| Chunker.ChunkChapter | src/chunker.py:156-172 | One chapter yields its pieces numbered from the running index, with placeholder total -1 and the chapter title. |
| Chunker.ChapterChunks | src/chunker.py:170-172 | The sub-chunk loop numbers each sub-chunk from the running index and tags it with the chapter title. |
| Chunker.SetTotals | src/chunker.py:175-176 | The backfill loop changes only `total_chunks`, and changes it on every chunk. |
| Chunker.EpubPiecesConcat | src/chunker.py:155-157 | Chapters contribute their pieces in chapter order: the pieces of a concatenation are the pieces of each part, concatenated. |
| Chunker.EpubSingleChapter | src/chunker.py:156-164 | A blank chapter is skipped. A non-blank chapter within the chunk size is exactly one piece with its title. |
| Chunker.ChunkNote | src/chunker.py:181-194 | A blank note gives no chunks, and a non-blank note gives some. A note within the chunk size gives one chunk, its trimmed text. Every chunk has the source type set and is numbered by position. |
| Chunker.NoteNotEmpty | src/chunker.py:189-194 | A non-blank note over the chunk size splits into at least one chunk. |
| Separators.MatchConsumesDelimiter | src/chunker.py:35 | A separator match consumes exactly its delimiter: one `\n` before a lookahead marker, or `\n\n`. |
| Separators.SplitJoin | src/chunker.py:35 | `re.split` gives at least one part. Joining the parts with the consumed delimiter gives the text back, so the marker stays at the start of the next part. |
| Separators.CapsHeadingNeverMatches | src/chunker.py:70 | The heading pattern matches at no position of any text. The same pattern appears at src/chunker.py:77 and src/chunker.py:85. |
| Separators.CapsHeadingNeverSplits | src/chunker.py:85 | Splitting at the heading pattern always leaves the text whole. |
| Separators.NonBlank | src/chunker.py:36 | The kept parts number no more than the parts, and each is non-blank and one of the parts. |
| Separators.SegmentsFirstWins | src/chunker.py:32-39 | When separator `k` is the first to yield more than one non-blank part, the segments are its parts. The separators after it are never tried. |
| Separators.SegmentsNoneSplit | src/chunker.py:31-39 | When no separator splits, the whole text is the only segment. |
| Separators.SegmentsShape | src/chunker.py:31-39 | There is always at least one segment. The segments are either the text whole or all non-blank. |
| Text.StripShape | src/chunker.py:274 | `strip` gives the empty string exactly for blank text. A non-empty result has no whitespace at either end and is the slice left after blank leading and trailing runs. |
| Text.LStripSpec | src/chunker.py:274 | `lstrip` removes exactly the leading whitespace: the result is a suffix, and what it drops is whitespace. |
| Text.RStripSpec | src/chunker.py:274 | `rstrip` removes exactly the trailing whitespace: the result is a prefix, and what it drops is whitespace. |
| Text.FindSpec | src/chunker.py:253 | `find` returns the first occurrence at or after `start`, or -1 exactly when there is none. |
| Text.SplitParts | src/chunker.py:199 | `split('\f')` parts hold no separator, and joining them with it gives the text back. |
| Text.IsInfixIff | src/search_pipeline.py:75 | The substring test `a in b` holds exactly when `a` occurs in `b` at some index. |
| Text.ParseIntRoundTrip | src/search_pipeline.py:110 | `int()` reads the decimal form of any integer back as that integer. |
| Pages.RemoveFF | src/chunker.py:125 | Removing form feeds leaves no form feed and never lengthens the text. |
| Pages.BuildPageAtOffset | src/chunker.py:235-244 | The counter loop returns the page-at-offset array of the text, starting from page 1. |
| Pages.PageOffsetsShape | src/chunker.py:235-244 | The page array has one entry per non-form-feed character. Entries are non-decreasing and range from the first page to the first page plus the number of form feeds. |
| Pages.PageOffsetsEntry | src/chunker.py:239-243 | The entry for the character at index `j` is 1 plus the number of form feeds before it. It sits at that character's index in the form-feed-free text. |
| Pages.DetectShape | src/chunker.py:202-210 | Detections are in ascending page order. Each detected page's first line is a 1-to-5-digit number, and its detected value is that number. |
| Pages.DetectComplete | src/chunker.py:208-210 | Every page whose first line is a page number is detected. |
| Pages.DetMapHolds | src/chunker.py:210-217 | The `detected` dictionary holds exactly the detected pairs. |
| Pages.NearestIsFirstMinimum | src/chunker.py:223-229 | The nearest-detection scan settles on a detection at minimal distance. Every earlier one is strictly farther, so ties go to the lower page. |
| Pages.DetectPages | src/chunker.py:199-210 | The detection loop returns the detections of the pages' first lines and their dictionary. |
| Pages.NearestOffset | src/chunker.py:223-229 | The inner loop returns `det_pdf - det_printed` of the first nearest detection. |
| Pages.BuildPageMap | src/chunker.py:197-232 | `_build_page_map` returns the page map of the text. |
| Pages.PageMapFrom | src/chunker.py:212-232 | The gate and the loop over PDF pages build the page map from the detections. |
| Pages.PageMapGate | src/chunker.py:212-214 | There is no map exactly when nothing is detected or fewer than 30% of the pages are. |
| Pages.RatioGate | src/chunker.py:213 | The integer test `10 * d < 3 * max(n, 1)` is the ratio test `d / n < 0.3`. |
| Pages.PageMapEntries | src/chunker.py:216-230 | The map covers exactly pages 1 to n. A detected page keeps its detected number. Any other page gets `max(1, p - offset)` from the first nearest detection. |
| Pages.DetectedEntry | src/chunker.py:220-221 | A page whose first line is a number keeps that number. |
| Pages.InterpolatedEntry | src/chunker.py:222-230 | Any other page is interpolated as `max(1, p - (det_pdf - det_printed))` from the first nearest detection. |
| Pages.AssignPagesByPosition | src/chunker.py:247-269 | The array of chunks is updated in place to the chunks with their pages assigned, in order, with the running search cursor. |
| Pages.AssignedStep | src/chunker.py:249-258 | Chunk `i` is placed from the cursor left by the chunks before it and moves the cursor on. |
| Pages.PlaceChunkAt | src/chunker.py:250-269 | The loop body for chunk `i` gives the assigned chunk `i` and the next cursor. |
| Pages.PlaceChunk | src/chunker.py:251-269 | One chunk is located from the cursor and gets its page fields. The cursor is moved on. |
| Pages.AssignedKeeps | src/chunker.py:263-269 | Assignment keeps each chunk's text, numbering, item metadata, chapter and source type, and sets `pdf_page`, `page_start` and `page_end`. |
| Pages.FoundRangeOrdered | src/chunker.py:254-257 | When the needle is found, the start page is at least 1 and no later than the end page. |
| Pages.NotFoundFallsBack | src/chunker.py:259-261 | When the needle is not found, the start page, the end page and the cursor are all the old cursor. |
| Shorthand.KeysPrefixFree | src/search_pipeline.py:22 | No key followed by its colon is a prefix of another one so followed. |
| Shorthand.SpeltOnce | src/search_pipeline.py:55 | At most one key is spelt at any position, so the order of the key alternation never matters. |
| Shorthand.NextQuoteSpec | src/search_pipeline.py:55 | The quoted alternative ends at the first closing quote. |
| Shorthand.NonSpaceRunSpec | src/search_pipeline.py:55 | The `\S+` alternative takes the maximal run of non-whitespace. |
| Shorthand.MatchFromSpelt | src/search_pipeline.py:55 | A match needs its key spelt at the match position. |
| Shorthand.MatchFromKey | src/search_pipeline.py:55 | Whatever the order of the keys, the match is the one for the key spelt there. |
| Shorthand.MatchAtSpec | src/search_pipeline.py:55 | The pattern matches only at a word boundary where a key and colon are spelt. There it is that key's match. |
| Shorthand.ParseShorthand | src/search_pipeline.py:46-66 | Returns the cleaned query and the filters: a left-to-right scan, then collapsing and trimming, with later keys overwriting earlier ones. |
| Shorthand.Replace | src/search_pipeline.py:57-62 | One step of `re.sub`: a match is dropped from the text and recorded, and any other character is kept. |
| Shorthand.AdvanceScan | src/search_pipeline.py:64 | The scan from a position is one step followed by the scan from where that step resumes. |
| Shorthand.StepMatched | src/search_pipeline.py:57-62 | A match contributes nothing to the text and assigns its recorded value to its key. |
| Shorthand.StepKept | src/search_pipeline.py:64 | A position with no match keeps its character and records nothing. |
| Shorthand.ScanStep | src/search_pipeline.py:64 | A match is dropped and recorded, and any other character is kept. |
| Shorthand.ScanKeys | src/search_pipeline.py:58-61 | Every recorded key is a shorthand key. |
| Shorthand.NoShorthand | src/search_pipeline.py:64 | A query in which the pattern matches nowhere is kept whole and gives no filters. |
| Shorthand.FiltersLastWins | src/search_pipeline.py:61 | A key is in the filters exactly when it was recorded, and its value is the last recorded one. |
| Shorthand.NoFilters | src/search_pipeline.py:54-66 | A query with no shorthand gives empty filters and the query text unchanged before cleaning. |
| Shorthand.RecordedUnquoted | src/search_pipeline.py:60-61 | An unquoted value is recorded as it is, behind `=` when the exact form `:=` was used. |
| Shorthand.RecordedQuoted | src/search_pipeline.py:60-61 | A value in double quotes is recorded without them, behind `=` when the exact form was used. |
| Shorthand.CollapseSpec | src/search_pipeline.py:65 | Collapsing whitespace runs leaves no two adjacent whitespace characters and keeps every other character in order. |
| Shorthand.CleanQuerySpec | src/search_pipeline.py:65 | The cleaned query has no edge whitespace and no two adjacent whitespace characters, and keeps the non-whitespace characters in order. |
| Shorthand.CollapseRun | src/search_pipeline.py:65 | Between text ending in a non-whitespace character and text starting with one, a whitespace run of two or more characters becomes exactly one space, and a single whitespace character is kept as it is. |
| Shorthand.CollapseAppend | src/search_pipeline.py:65 | Runs never reach across a non-whitespace character: text that ends in one collapses on its own, whatever follows it. |
| Shorthand.CollapseNoRun | src/search_pipeline.py:65 | Text with no two adjacent whitespace characters is left unchanged. |
| Shorthand.ScanUnmatched | src/search_pipeline.py:64 | A stretch of the query at which no match starts is kept verbatim, and the filters come only from what follows it. |
| Shorthand.WordsAndFilter | src/search_pipeline.py:46-66 | `banking  reform type:hearing` records type=hearing and cleans to the query `banking reform`: the words are kept and the double space becomes one. |
| Shorthand.ScanRender | src/search_pipeline.py:64 | `key:value` tokens separated by single spaces are all recorded, in order, leaving only the spaces. |
| Shorthand.ParseRendered | src/search_pipeline.py:54-66 | Round trip: a query made of rendered `key:value` tokens parses back to exactly those pairs, with an empty cleaned query. |
| Shorthand.LastToken | src/search_pipeline.py:57-62 | A token that ends the query is recorded and leaves nothing. |
| Shorthand.TokenThenSpace | src/search_pipeline.py:57-64 | A token followed by a space is recorded, and the space is kept. |
| Shorthand.NoMatchBeforeLetter | src/search_pipeline.py:55 | No match starts at a character that is not a lower-case letter. |
| Shorthand.FirstToken | src/search_pipeline.py:55-61 | A `key:value` token with a plain value is one inexact match that records the value unchanged. |
| Shorthand.PlainValueLen | src/search_pipeline.py:55 | A plain value followed by whitespace or the end is the whole value group. |
| Shorthand.DocumentedUsage | src/search_pipeline.py:46-66 | `type:hearing by:Volcker` gives the filters type=hearing and by=Volcker in order, with an empty cleaned query. |
| Search.Clamp | src/search_pipeline.py:114 | `top_k` is clamped to between 1 and 20, unchanged inside that range. |
| Search.MergePrecedence | src/search_pipeline.py:100-114 | For each of the seven filter arguments, a set explicit argument is kept and an unset one takes its shorthand key's value (`type`, `by`, `tag`, `collection`, `in`, `from`, `to`). `top:` overrides `top_k` when it parses as an integer and is ignored otherwise. The result is clamped to 1..20. |
| Search.NativeFilter | src/search_pipeline.py:116-119 | There is a native filter exactly when `item_type` is set. Its value is what remains of the type after its leading run of `=` is removed: a suffix of it, everything before which is `=`, and not itself starting with `=`. |
| Search.FetchSize | src/search_pipeline.py:123-124 | The search asks for more than `top_k` results: `5 * top_k` with client filters, otherwise `max(3 * top_k, 30)`. |
| Search.Passages | src/search_pipeline.py:147-150 | Passage `i` has id `i` and the first 1500 characters of candidate `i`'s text. |
| Search.Prefix | src/search_pipeline.py:154 | `ranked[:n]` is the first `min(n, len)` entries; a negative `n` drops entries from the end. |
| Search.Rerank | src/search_pipeline.py:153-158 | The reranking loop returns the reranked candidates. It fails (an `IndexError`) when an id is out of range. |
| Search.ScoredSnoc | src/search_pipeline.py:156 | Writing one more score changes only the candidate it points at, because the results are shared dictionaries. |
| Search.RerankedEntries | src/search_pipeline.py:153-158 | With valid ids, the result lists, in ranker order, the candidates the ids point at, carrying the scores written. |
| Search.RerankedDistinct | src/search_pipeline.py:154-157 | With distinct valid ids, reranking succeeds and result `j` carries the score of ranked entry `j`. |
| Search.RerankedFromCandidates | src/search_pipeline.py:154-158 | A successful rerank has one result per ranked entry. Each is the candidate its id points at, with a `rerank_score` set. |
| Search.RerankedFromKept | src/search_pipeline.py:154-158 | Every reranked hit is one of the candidates, with only its `rerank_score` changed. |
| Search.RerankedBadId | src/search_pipeline.py:155 | A ranked id outside the candidates fails, as the list index does. |
| Search.FilterResults | src/search_pipeline.py:127-144 | The filter loop keeps exactly the candidates that pass every active filter, in order. |
| Search.RunSearch | src/search_pipeline.py:92-160 | `run_search` returns the search result of the merged arguments, with the backend as parameters. |
| Search.MatchFilterSpec | src/search_pipeline.py:69-75 | An empty target never matches. `=value` means case-insensitive equality, and anything else a case-insensitive substring test. |
| Search.MatchFilterCaseBlind | src/search_pipeline.py:74-75 | Matching is blind to the case of the target. |
| Search.MatchArchiveAlias | src/search_pipeline.py:84-86 | When the raw value is an alias, the archive matches exactly when it is non-empty and equals the canonical name ignoring case, exact form or not. |
| Search.MatchArchiveNoAlias | src/search_pipeline.py:87-89 | Without an alias, the archive filter is `_match_filter`. |
| Search.FilterByMembers | src/search_pipeline.py:127-143 | Filtering keeps exactly the candidates that pass and never adds any. |
| Search.FilterByAppend | src/search_pipeline.py:128-143 | Filtering keeps order: it distributes over concatenation. |
| Search.FilteredSpec | src/search_pipeline.py:127-144 | A candidate survives exactly when it passes every active filter. With no client filter, all candidates survive. |
| Search.FinishSpec | src/search_pipeline.py:127-160 | With a ranker there are at most `top_k` results. Every result is a fetched candidate that passed the filters, with only its `rerank_score` changed. Without a ranker the filtered candidates are returned untruncated. |
| Search.SearchResultSpec | src/search_pipeline.py:114-160 | With a ranker, `run_search` returns at most 20 results. |
| Search.AliasTableKeys | src/search_pipeline.py:34 | Every key of the loaded alias table is lower case. The keys are exactly the lower-cased keys of the file. |
| Search.ArchiveAliases | src/search_pipeline.py:41-43 | `get_archive_aliases` returns a copy with the same keys and values. |
| Extractors.SquashNewlinesSpec | src/extractors.py:19 | Collapsing newline runs leaves no three newlines in a row. |
| Extractors.SquashInlineSingle | src/extractors.py:20 | Collapsing inline whitespace leaves every such run a single space. |
| Extractors.SquashInlineTriple | src/extractors.py:20 | Collapsing inline whitespace never creates three newlines in a row. |
| Extractors.SquashNewlinesOnly | src/extractors.py:19 | Collapsing newline runs keeps every character other than newline, in order. |
| Extractors.SquashInlineOnly | src/extractors.py:20 | Collapsing inline whitespace keeps every character that is not inline whitespace, in order. |
| Extractors.StripOnly | src/extractors.py:21 | `strip` keeps every non-whitespace character, in order. |
| Extractors.DehyphenOnly | src/extractors.py:18 | Joining hyphenated lines removes only hyphens and newlines. |
| Extractors.DehyphenJoins | src/extractors.py:18 | A word character, `-`, a newline and a word character become the two word characters. |
| Extractors.DehyphenNoBreak | src/extractors.py:18 | Text with no hyphen before a newline is left unchanged. |
| Extractors.PreprocessTextShape | src/extractors.py:16-21 | The result has no three newlines in a row, single spaces for inline whitespace, and no whitespace at either end. |
| Extractors.StripKeepsShape | src/extractors.py:21 | The final `strip` keeps both shape properties. |
| Extractors.PreprocessTextVisible | src/extractors.py:16-21 | Apart from whitespace, the result is the de-hyphenated text: no visible character is lost or added. |
| Extractors.RewrittenFormFeeds | src/extractors.py:18-20 | The three rewrites keep every form feed, so page breaks survive up to the final strip. |
| Extractors.OfKindStep | src/extractors.py:131-136 | Each attachment joins the end of its kind's list. |
| Extractors.OfKindMembers | src/extractors.py:125-136 | An attachment is in a kind's list exactly when it is in the input and has that kind. |
| Extractors.Classify | src/extractors.py:126-136 | One pass of the loop appends the attachment to exactly the list of its kind. |
| Extractors.ClassifyAll | src/extractors.py:121-136 | The loop returns, in input order, the EPUBs, the PDFs and the snapshots. |
| Extractors.BestPdfUnique | src/extractors.py:141-154 | At most one PDF meets the description of the best one. |
| Extractors.FoldPdfSpec | src/extractors.py:144-153 | After the loop has seen the first `n` PDFs, the best is the earliest non-part PDF with the strictly greatest page count, or the first PDF when no page count is positive. |
| Extractors.BestPdfIsBest | src/extractors.py:141-154 | The loop's choice is the best PDF as described. |
| Extractors.SinglePdf | src/extractors.py:142-143 | A single PDF is chosen whatever its name. |
| Extractors.PickPdf | src/extractors.py:144-154 | The `best`/`best_pages` loop returns the best PDF. |
| Extractors.SelectBestAttachment | src/extractors.py:115-159 | `select_best_attachment` returns the best attachment of the list. |
| Extractors.BestAttachmentSpec | src/extractors.py:138-159 | The first EPUB wins, then the best PDF, then the first snapshot. There is no selection exactly when every attachment is skipped. |
| Extractors.NoneSelected | src/extractors.py:156-159 | All three lists are empty exactly when every attachment is skipped. |
| Extractors.EpubNameWins | src/extractors.py:131 | An `.epub` file name makes an EPUB, even with a PDF content type. |
| Extractors.PartNames | src/extractors.py:149 | `scan_part_2.pdf` and `book_from_1_to_50.pdf` are split-scan names. |
| Extractors.AuthorsSnoc | src/extractors.py:169-178 | One more creator appends its name, if it has one. |
| Extractors.AuthorNameSpec | src/extractors.py:170-178 | A creator has a name exactly when it has a first, last or full name, and the name is non-empty. First and last give "first last"; otherwise the full name is used. |
| Extractors.AuthorsMembers | src/extractors.py:167-178 | The authors are exactly the names of the creators that have one, none empty, at most one per creator. |
| Extractors.AuthorsAligned | src/extractors.py:169-178 | When every creator has a name, author `i` is creator `i`'s name. |
| Extractors.CollectAuthors | src/extractors.py:167-178 | The loop builds the author list. |
| Extractors.NameSetSnoc | src/extractors.py:183-186 | One more collection adds its name and its ancestors. |
| Extractors.CollectNames | src/extractors.py:182-186 | The loop builds the set of collection names and ancestors. |
| Extractors.SortedSetMembers | src/extractors.py:187 | `sorted` lists exactly the set's elements, each once. |
| Extractors.SortedSetSpec | src/extractors.py:187 | `sorted` lists them in strictly increasing string order. |
| Extractors.ExtractItemMetadata | src/extractors.py:162-202 | `extract_item_metadata` returns the item's metadata record. |
| Extractors.ItemMetadataSpec | src/extractors.py:180-187 | The collections are sorted and duplicate-free. They are exactly the item's collection names and their ancestors. The title is stripped. An item without `_rag` has no collections, archive collection or visit date. |
| Zotero.Lookup | src/zotero_client.py:50-57 | The lookup has the discovered keys plus the root, and the root entry has the root's name and no parent. |
| Zotero.GetPath | src/zotero_client.py:60-67 | The walk up, followed by the reverse, returns the collection's path. |
| Zotero.PathExtends | src/zotero_client.py:60-67 | A collection's path is its parent's path followed by its own name. |
| Zotero.UpKeysSpec | src/zotero_client.py:62-65 | The walk visits the key, then each parent in turn, all in the lookup. It stops at an entry whose parent is missing or outside the lookup. |
| Zotero.PathEnds | src/zotero_client.py:60-67 | The path ends with the collection's own name and starts with the name of the topmost reachable ancestor. |
| Zotero.RootWalk | src/zotero_client.py:60-67 | The path of a collection without a parent is its name alone. |
| Zotero.ArchiveKeys | src/zotero_client.py:75-83 | The loop returns the archive collections and their names. |
| Zotero.ArchivesSpec | src/zotero_client.py:75-83 | A collection is an archive exactly when it is a direct child of the root and the parent of some collection. The root itself is not one. |
| Zotero.FindArchive | src/zotero_client.py:89-96 | The walk returns the archive name of the nearest archive ancestor-or-self, or none. |
| Zotero.ArchiveOfSelf | src/zotero_client.py:92-95 | An archive collection is its own archive. |
| Zotero.VisitDateSpec | src/zotero_client.py:99-102 | The visit date is the first `YYYY/MM/DD` in the name, or none exactly when there is no such substring. |
| Zotero.VisitDateExample | src/zotero_client.py:69-70 | "DTRP: 2025/12/17" carries the date 2025/12/17. |
| Zotero.BuildEntries | src/zotero_client.py:85-112 | The result loop gives every collection of the lookup its entry: name, parent, path, archive name and visit date. |
| Zotero.BuildCollectionTree | src/zotero_client.py:34-112 | With no root key the tree is empty. Otherwise there is one entry per collection of the lookup. |
| Zotero.RootEntry | src/zotero_client.py:53-57 | The root entry has the root's name, no parent, the path of its name alone, and no archive. |
| Zotero.FirstsMembers | src/zotero_client.py:123-144 | An item is kept exactly when it is the first top-level item with its key. |
| Zotero.FirstsDistinct | src/zotero_client.py:123-144 | The kept items keep their order and have distinct keys. |
| Zotero.FirstsStep | src/zotero_client.py:130-135 | Attachments, notes and already seen keys are skipped. Any other item is kept and its key marked seen. |
| Zotero.CollectTopLevel | src/zotero_client.py:123-144 | The fetch loops with `seen_keys` return the first top-level item of each key, in order. |
| Zotero.Enrich | src/zotero_client.py:147-170 | An item gets its `_rag` entry, and nothing else changes. |
| Zotero.GetAllItems | src/zotero_client.py:115-172 | `get_all_items` returns the deduplicated top-level items, each enriched. |
| Zotero.EnrichedSpec | src/zotero_client.py:146-170 | Enrichment changes only `_rag`, item by item. |
| Zotero.CollsOfSpec | src/zotero_client.py:153-160 | `zotero_collections` lists exactly the item's collections that are in the tree, with their names and paths, in item order. |
| Zotero.FirstFieldSpec | src/zotero_client.py:161-164 | The archive collection, or the visit date, is the first non-empty value in collection order. It is empty exactly when there is none. |
| Indexer.BuildContextHeader | src/indexer.py:24-41 | The loop builds the header of the set fields. |
| Indexer.ContextHeaderEmpty | src/indexer.py:39-40 | The header is empty exactly when none of the six fields is set. |
| Indexer.ContextHeaderTitleFirst | src/indexer.py:27-28 | A header with a title starts with the title line. |
| Indexer.ContextHeaderLines | src/indexer.py:26-41 | Split at newlines, a non-empty header is its lines in the fixed order, then `---`, then an empty tail. |
| Indexer.AcronymIff | src/indexer.py:51-53 | The acronym found is exactly the group `^([A-Z]{2,})\s*:` matches. |
| Indexer.BuildArchiveAliases | src/indexer.py:44-57 | The loop builds the alias map of the tree's entries, keeping the first mapping for each acronym. |
| Indexer.AliasesKeys | src/indexer.py:52-57 | An acronym is mapped exactly when some entry's name has it and the entry's archive name is set. |
| Indexer.AliasesFirstWins | src/indexer.py:56-57 | The first entry that offers an acronym decides its archive. |
| Indexer.ProcessItem | src/indexer.py:75-132 | `process_item` returns the chunks of the selected attachment's branch, or of the fallback branch. |
| Indexer.ProcessPdf | src/indexer.py:88-98 | A non-blank PDF text is chunked as a document, tagged with the attachment key, the `pdf` type and the page count. A blank or failed PDF gives no chunks. |
| Indexer.ProcessEpub | src/indexer.py:100-109 | Non-empty chapters are chunked as an EPUB, tagged with key and type. An empty or failed EPUB gives no chunks. |
| Indexer.ProcessSnapshot | src/indexer.py:111-118 | A non-blank page text is chunked as a document. |
| Indexer.ProcessFallback | src/indexer.py:120-130 | The abstract is chunked as a document; without one, there is a single metadata chunk. |
| Indexer.TitledMetaSpec | src/indexer.py:77-81 | The title is never empty: the stripped title, or `[Untitled type, date]`. Nothing else of the metadata changes. |
| Indexer.DocChunksNumbered | src/chunker.py:144-147 | Document chunks are numbered by position, carry the total, and keep the metadata apart from the page fields. |
| Indexer.EpubDocChunksNumbered | src/chunker.py:150-178 | EPUB chunks are numbered by position, carry the total, and keep the metadata apart from the chapter, which is set. |
| Indexer.ItemChunksNumbered | src/indexer.py:75-132 | Every chunk of an item is numbered by position, carries the total, and has the item's titled metadata. |
| Indexer.FallbackSingleChunk | src/indexer.py:120-130 | With no attachment and no abstract, the item gives exactly one chunk. It has index 0, total 1 and the titled metadata, and its text starts with the title. |
| Indexer.FallbackTextTitle | src/indexer.py:125 | The metadata text starts with the title and a full stop. |
| Indexer.FailedAttachmentSkips | src/indexer.py:88-118 | A selected attachment whose extraction failed gives no chunks. It does not fall back to the abstract. |
| Indexer.PdfChunksTagged | src/indexer.py:92-96 | Chunks of a selected PDF record its key, the type `pdf` and the page count. |
| Indexer.FlatMetaText | src/indexer.py:173 | The stored text is the chunk's first 2000 characters. |
| Indexer.FlatMetaSourceType | src/indexer.py:171-186 | The stored source type is the chunk's own, defaulting to `document`. |
| Indexer.FlatMetaAttachmentKey | src/indexer.py:192-193 | The attachment key is stored exactly when the chunk has one. |
| Indexer.BatchIds | src/indexer.py:168-199 | When the embedder returns one embedding per text, the vectors of a batch carry the ids of its chunks, in order. |
| Indexer.UpsertsIds | src/indexer.py:160-201 | Across all batches, the upserted ids are the chunk ids, in order. |
| Indexer.IndexedIds | src/indexer.py:160-201 | Every chunk of `index_items` is upserted exactly once, under `{zotero_key}_c{chunk_index}`, in order. |
| Indexer.IndexItems | src/indexer.py:135-201 | processed + skipped is the number of items. `all_chunks` is the items' chunks concatenated in order. The upserts are those of the consecutive batches. |
| Indexer.ChunkItems | src/indexer.py:141-151 | The item loop counts items with and without chunks and concatenates the chunks in item order. |
| Indexer.EmbedAll | src/indexer.py:160-201 | The batch loop sends the upserts of the consecutive `batch_size` slices. |
| Indexer.EmbedBatch | src/indexer.py:161-201 | One batch keeps the batch loop's invariant. |
| Indexer.EmbedAndUpsert | src/indexer.py:162-199 | One batch is embedded with its context headers, zipped with its chunks and upserted. |
| Batches.BatchAt | src/vectordb.py:50-51 | Batch `k` is the slice from `k * size` to `(k + 1) * size`, truncated at the end. |
| Batches.BatchesShape | src/indexer.py:160-161 | Every batch is non-empty and at most `size` long, and only the last may be shorter. |
| Batches.BatchesConcat | src/indexer.py:161 | The batches together are the whole sequence, in order. |
| Batches.ZipWith | src/indexer.py:169 | A loop over `zip` pairs elements by position and stops at the shorter list. |
| Sync.LoadState | src/indexer.py:246-248 | A missing file or missing key reads as version 0 and no indexed keys. Otherwise it reads the saved version and the saved keys as a set. |
| Sync.SelectChanged | src/indexer.py:270-274 | The selection loop returns the items that need indexing, in fetch order. |
| Sync.SelectRedeleted | src/indexer.py:276-280 | The deletion loop returns the selected items' keys that were indexed. |
| Sync.IncrementalUpdate | src/indexer.py:242-289 | Removed keys are the indexed keys no current item has. Selected items need indexing. Re-deleted keys are the selected items' indexed keys. The saved state is the reported version with the current keys. |
| Sync.ChangedAppend | src/indexer.py:270-274 | Selection keeps order: it distributes over concatenation. |
| Sync.ChangedMembers | src/indexer.py:272-274 | An item is selected exactly when its key was not indexed or its version is newer than the last sync. |
| Sync.RemovedKeys | src/indexer.py:263-265 | A key is removed exactly when it was indexed and no fetched item has it. |
| Sync.RedeletedKeys | src/indexer.py:278-280 | Every key deleted for re-indexing was indexed, belongs to a fetched item, and is never one of the removed keys. |
| Sync.FirstSync | src/indexer.py:246-274 | Without a saved state every item is indexed and nothing is deleted. |
| Sync.AfterFullIndex | src/indexer.py:234-237 | After a full index, an update over the same items with no newer version re-indexes and removes nothing. |
| VectorDb.CleanMetadata | src/vectordb.py:94-106 | The loop over the entries builds the cleaned dictionary. |
| VectorDb.CleanedKeys | src/vectordb.py:97-99 | A key survives exactly when its value is neither `None` nor `""`. |
| VectorDb.CleanedScalars | src/vectordb.py:98-105 | Strings, numbers and booleans are kept unchanged, and any other object becomes its `str`. |
| VectorDb.CleanedCompatible | src/vectordb.py:95-106 | Every cleaned value is a plain scalar or a list of strings. |
| VectorDb.CleanListAppend | src/vectordb.py:102-103 | List cleaning keeps order: it distributes over concatenation. |
| VectorDb.CleanListMembers | src/vectordb.py:103 | A string is in a cleaned list exactly when some truthy element renders to it. |
| VectorDb.CleanedTwice | src/vectordb.py:94-106 | Cleaning is idempotent when no kept value renders as `""`. |
| VectorDb.CleanedNotIdempotent | src/vectordb.py:104-105 | Without that condition it is not: an object whose `str` is empty is kept as `""`, then dropped on a second pass. |
| VectorDb.UpsertChunks | src/vectordb.py:43-60 | The batches handed to the store are the cleaned vectors in consecutive slices of 100. |
| VectorDb.UpsertCovers | src/vectordb.py:50-60 | Every vector is upserted once, cleaned, in order. |
| VectorDb.UpsertSizes | src/vectordb.py:49-51 | No upsert call carries more than 100 vectors, and only the last carries fewer. |

## Left out

- I/O and services are outside the model. The model stands for each one as follows:
  - The Zotero API: the fetched collections and item batches are inputs, including the recursive `_discover` fetch.
  - The embedder: a function parameter.
  - The vector store: its `upsert` calls are outputs, and its search results are an input.
  - The reranker: an oracle that returns ids and scores.
  - The library version Zotero reports: a parameter.
- Tokenization is an abstract encode/decode pair, with the count defined as the length of the encoding. The model does not assume that re-encoding a decoded window gives the same tokens, so that round trip is not proved.
- Scores and embeddings are opaque `real` values; floating point is not modelled.
- The text extractors are not part of this model: `extract_pdf_text`, `extract_epub_text`, `extract_html_text` and `extract_note_text`. Their outputs are inputs to `process_item`, together with a failure case standing for an exception. An extracted attachment of the wrong form counts as a failure.
- Regular expressions are modelled only for the patterns used. `\w`, `\d` and `str.lower()` are restricted to ASCII. `\s` and `str.strip()` use Python's whitespace set.
- Dictionary iteration order is not modelled where it does not matter:
  - The collection tree is a `map`.
  - `build_archive_aliases` takes the tree's entries as a sequence, in the order the dictionary would yield them.
  - The sync state's indexed keys are a set, so their list order and duplicates are not modelled.
  - Removed keys are a set, so the order of their deletions is not modelled.
- Zotero.GetPath: requires acyclic parent links, which termination of the walk needs. With a cycle the Python loop would not terminate.
- Zotero.FindArchive, Zotero.BuildEntries and Zotero.BuildCollectionTree carry the same acyclicity requirement, for the same reason.
- Chunker.SplitByTokens: requires the overlap to be below the chunk size. Otherwise the window start never advances and the Python loop does not terminate. Every chunking member above it requires this too, through the configuration's `Valid` predicate. The configured values meet it (`Tokens.DefaultsValid`).
- Indexer.IndexItems: requires a batch size above 0, as `range` with step 0 would raise. Indexer.EmbedAll carries the same requirement.
- Lists nested inside metadata lists are not modelled. Metadata values are scalars or lists of scalars.
- `None` and `""` are not distinguished for optional string fields such as `archive_collection`, and for explicit search arguments. Every use of them is a truthiness test.
- Side effects are not modelled:
  - writing the sync-state and archive-aliases files;
  - the caching in `init_pipeline`;
  - module globals;
  - logging.
- The fixed-window `else` branch of `chunk_document` has no model, because `Chunker.Classify` shows it cannot be reached.
- `get_child_attachments` and `get_child_notes` are not modelled: they are API calls followed by a type filter, and the attachments are an input.
