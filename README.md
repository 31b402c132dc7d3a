# arag-agent answer post-processing, in Dafny

This project models the deterministic core of the `arag` agentic
retrieval-augmented-generation pipeline. The language-model agents, the
vector database and the embedding model are all taken as given functions.
What remains, and what is modelled here, is:

- **The citation system** (`arag/utils/citation_system.py`):
  - `split_text` cuts an answer into protected regions (images, list blocks,
    code, tables, headers) and plain sentences;
  - `parse_chunks_with_position` finds the `{n}---` page markers of the
    knowledge text;
  - `process_segment_for_citation` is the similarity gate that offers each
    segment a page;
  - `add_citations_parallel` collapses repeated citations, numbers the cited
    pages and rebuilds the answer with `[n](page)` marks;
  - `chunk_list` cuts a list into batches.
- **The text utilities** (`arag/utils/text_utils.py`):
  - `convert_citations` turns `[1, 2]` into `[1][2]`;
  - `fix_markdown_tables` and `fix_table` repair Markdown tables;
  - `deduplicate_by_similarity` is a greedy de-duplication;
  - the section helpers `extract_section`, `remove_hash_lines`,
    `remove_reference_section` and `extract_section_numbers`;
  - `tokenize_and_chunk` cuts text into overlapping token windows;
  - `format_references` renumbers `[r](p)` references densely, one number
    per page.
- **The parse utilities** (`arag/utils/parse_utils.py`): page and reference
  extraction, `order_dict_by_keys`, and the rewriting done by
  `process_content_references` and `process_images_parallel`.
- **The agent memory** (`AgentMemory`, a class with `update`, `retrieve` and
  `reset`).
- **The action registry** that `register_action` fills.
- **The bookkeeping of `ARag.search`**: knowledge extraction, chunk
  filtering, the missing-knowledge step, the bounded evaluate/improve loop
  and the narration messages.

Each source component is one module:

| module | file | models |
|---|---|---|
| `Segmenter` | segmenter.dfy | `split_text` |
| `TextSplit` | sentences.dfy | the two `re.split` calls of `split_text` |
| `PageMarkers` | page_markers.dfy | `parse_chunks_with_position` |
| `Citation` | citation.dfy | the gate, post-processing, numbering and assembly of `add_citations_parallel`; `chunk_list` |
| `CitationLists` | citation_lists.dfy | `convert_citations` |
| `Tables` | tables.dfy | `fix_markdown_tables`, `fix_table` |
| `Dedup` | dedup.dfy | `deduplicate_by_similarity` |
| `Sections` | sections.dfy | the section helpers |
| `Chunker` | chunker.dfy | `tokenize_and_chunk` |
| `References` | references.dfy | `format_references` |
| `ParseUtils` | parse_utils.dfy | `parse_utils.py` |
| `SubTemplate` | sub_template.dfy | how `re.sub` reads a string replacement, as used by `process_images_parallel` |
| `Memory` | memory.dfy | `AgentMemory` |
| `Registry` | registry.dfy | `agent_registry.py` |
| `Pipeline` | pipeline.dfy | the pipeline bookkeeping |

Three further modules hold shared helpers:

- `Strings`: Python's `strip`, `split`, `join`, `find`, `lower` and integer
  formatting;
- `Order`: Python's string order, stable sort, `sorted(set(...))` and
  order-keeping de-duplication;
- `Dicts`: insertion-ordered dictionaries as sequences of pairs.

`Wrappers` holds `Option` and `Result`.

Where the code updates state in place, the model is imperative:

- the memory store and the registry are classes;
- loops are methods proved against specification functions.

Pure computations are functions, with lemmas stating what they guarantee.

## Model

| member | source | states |
|---|---|---|
| Segmenter.Normalize | arag/utils/citation_system.py:26 | definition; its properties are stated by Segmenter.NormalizeRemovesCR |
| Segmenter.NormalizeRemovesCR | arag/utils/citation_system.py:26 | after line-ending normalisation no carriage return is left, so every offset is computed on `\n`-only text |
| Segmenter.ItemsDoNotClose | arag/utils/citation_system.py:61-91 | a list-item line never closes an open list |
| Segmenter.ListItemNotBlank | arag/utils/citation_system.py:52-57 | a line matching a list-marker pattern is never blank |
| Segmenter.LineAt | arag/utils/citation_system.py:60-91 | the running offset the scanner keeps is where each line sits in the text |
| Segmenter.BlockLinesStructure | arag/utils/citation_system.py:61-96 | the block scan is sound and complete: each block opens at a list item, ends at the first closing line, and no item is left outside a block |
| Segmenter.ItemsCovered | arag/utils/citation_system.py:61-96 | every list-item line lies inside one of the blocks |
| Segmenter.BlocksOrdered | arag/utils/citation_system.py:61-96 | blocks are in order and separated by at least one line |
| Segmenter.BlockInRange | arag/utils/citation_system.py:61-96 | each block starts at a list item and ends at a closing line or at the last line |
| Segmenter.FindListBlocks | arag/utils/citation_system.py:44-96 | the line-by-line scanner, including a list still open at the end, returns exactly the block offsets of the text |
| Segmenter.ListBlocksAreScan | arag/utils/citation_system.py:61-96 | the scanner's state machine finds the same blocks as the block-structure definition |
| Segmenter.ListBlockOffsetsInText | arag/utils/citation_system.py:93-100 | the list blocks lie inside the text, each starts before it ends, and they follow one another |
| Segmenter.ListItemsProtected | arag/utils/citation_system.py:44-100 | every list-item line of the text lies inside one list block |
| Segmenter.MergedSeparated | arag/utils/citation_system.py:127-142 | merged regions are well formed and separated by at least one character |
| Segmenter.MergedCovers | arag/utils/citation_system.py:127-142 | every original region lies inside one merged region |
| Segmenter.MergedNoOverlap | arag/utils/citation_system.py:127-142 | regions already in order and apart merge into themselves |
| Segmenter.MergeRegions | arag/utils/citation_system.py:127-142 | the merge loop returns the merge of the sorted regions, type tags joined by `,` |
| Segmenter.GapsInRange | arag/utils/citation_system.py:145-162 | every regular gap is a non-empty span of the text |
| Segmenter.GapAvoids | arag/utils/citation_system.py:145-162 | no gap overlaps a merged region |
| Segmenter.GapsCover | arag/utils/citation_system.py:145-162 | regions and gaps tile the text: every position lies in one of them |
| Segmenter.ComputeGaps | arag/utils/citation_system.py:145-162 | the gap loop returns the gaps between the merged regions, including the tail of the text |
| Segmenter.KeepSentences | arag/utils/citation_system.py:197-212 | each sentence piece is stripped and kept when non-empty and at least the minimum length, placed by `find` from the segment's start |
| Segmenter.SegmentParagraphs | arag/utils/citation_system.py:186-212 | each non-empty stripped paragraph is split into sentences, in order |
| Segmenter.SegmentGap | arag/utils/citation_system.py:180-212 | one gap is stripped, split into paragraphs and segmented |
| Segmenter.CollectSentences | arag/utils/citation_system.py:180-212 | the sentence pass gives the sentence segments of all gaps in order |
| Segmenter.CollectRegions | arag/utils/citation_system.py:32-121 | the protected regions are collected per pattern, in the order the code appends them |
| Segmenter.AppendLists | arag/utils/citation_system.py:99-100 | the list blocks become `list` regions, start paired with end |
| Segmenter.AppendMatches | arag/utils/citation_system.py:103-121 | one pattern's matches are appended as regions of that pattern's type |
| Segmenter.ProtectRegions | arag/utils/citation_system.py:168-177 | every merged region is copied into the result as a protected segment holding its text |
| Segmenter.SplitText | arag/utils/citation_system.py:11-217 | `split_text` gives no segment for the empty text and otherwise the sorted union of protected and sentence segments |
| Segmenter.Segmentation | arag/utils/citation_system.py:11-217 | the empty text gives `[]`; the result is sorted by start offset |
| Segmenter.SegmentOrigin | arag/utils/citation_system.py:168-215 | every segment is either a merged region copied as protected, or a sentence placed inside one gap |
| Segmenter.SegmentPlaced | arag/utils/citation_system.py:168-215 | every segment lies in the normalised text and its content is the text at its offsets |
| Segmenter.ProtectedApart | arag/utils/citation_system.py:127-177 | two different protected segments never overlap |
| Segmenter.SentencesOutsideProtected | arag/utils/citation_system.py:145-212 | no sentence segment overlaps a protected segment |
| Segmenter.MatchesProtected | arag/utils/citation_system.py:32-177 | every pattern match and every list block lies inside one protected segment |
| Segmenter.ListItemsInProtected | arag/utils/citation_system.py:44-177 | every list-item line of the normalised text lies inside a protected segment |
| Segmenter.MergedRegionsWellFormed | arag/utils/citation_system.py:124-142 | the sorted and merged regions lie in the text and are separated |
| TextSplit.ParagraphSplitExact | arag/utils/citation_system.py:186 | the paragraph pieces tile the text: from 0 to its end, consecutive pieces separated by exactly one `\n\s*\n` match, no match inside a piece |
| TextSplit.NoBlankLineInParagraph | arag/utils/citation_system.py:186 | no paragraph piece holds two newlines separated only by whitespace |
| TextSplit.TwoNewlinesBreak | arag/utils/citation_system.py:186 | two newlines in a row always start a paragraph break |
| TextSplit.SentenceSplitExact | arag/utils/citation_system.py:194-195 | the sentence pieces tile the text and are cut exactly at the look-behind pattern's matches |
| TextSplit.SingleSpaceDoesNotSplit | arag/utils/citation_system.py:194-195 | a break needs a stop two characters before it and whitespace at it, with a closing quote or bracket, or a second whitespace character, in between: a stop followed by a single space does not split |
| PageMarkers.MarkersSound | arag/utils/citation_system.py:227-228 | every marker found is a real `\{(\d+)\}-+` match at or after the scan position |
| PageMarkers.MarkersDisjoint | arag/utils/citation_system.py:227-228 | the markers are in order and do not overlap |
| PageMarkers.MarkersComplete | arag/utils/citation_system.py:227-228 | no match is missed: every position from the scan start where the pattern matches is the start of a marker found |
| PageMarkers.NoMarkerInside | arag/utils/citation_system.py:227-228 | no match starts inside a marker |
| PageMarkers.MarkersOfText | arag/utils/citation_system.py:227-233 | the markers of a text are exactly the left-to-right non-overlapping matches |
| PageMarkers.PageNumber | arag/utils/citation_system.py:236 | a decimal numeral whose value is the marker's digits plus one |
| PageMarkers.ParseChunks | arag/utils/citation_system.py:220-253 | definition; its properties are stated by PageMarkers.ParseChunksSpec, NoMarkerNoBoundary, ContentHasNoMarker and ContentSlice |
| PageMarkers.ParseChunksSpec | arag/utils/citation_system.py:220-253 | one boundary per marker, in order: page number one more than the marker's, offsets from the marker's end to the next marker's start (or the end), content the stripped page text |
| PageMarkers.NoMarkerNoBoundary | arag/utils/citation_system.py:230-231 | the text has no marker exactly when the parser returns no boundary |
| PageMarkers.ContentHasNoMarker | arag/utils/citation_system.py:238-249 | no page's content holds another page marker |
| PageMarkers.ContentSlice | arag/utils/citation_system.py:249 | a boundary's content is a slice of its page's text |
| PageMarkers.PageInText | arag/utils/citation_system.py:238-242 | a page runs from its marker's end to the next marker's start, or to the end of the text |
| PageMarkers.MarkersOrdered | arag/utils/citation_system.py:233-242 | markers further apart in the list are further apart in the text |
| Citation.FirstMax | arag/utils/citation_system.py:306-309 | `np.argmax`: an index of a maximal score, and the first one |
| Citation.CitationFor | arag/utils/citation_system.py:271-316 | the gate returns a page index exactly when the segment is not refused (protected, image/header/code/table, list or Remedy header, too short, "refer to section") and scores exist with some score above the threshold; that index is the first maximal score |
| Citation.Selection | arag/utils/citation_system.py:388-390 | `selected_idxs`: each segment paired with the gate's answer |
| Citation.SelectionInRange | arag/utils/citation_system.py:388-390 | every selected index is -1 or a valid page index |
| Citation.Kept | arag/utils/citation_system.py:393-452 | definition; its properties are stated by Citation.KeptOrDropped, PostProcess, HeaderListsStripped, GroupsOfThree and PagesOfAt |
| Citation.KeptOrDropped | arag/utils/citation_system.py:393-452 | post-processing keeps each segment's citation or drops it, and never invents one |
| Citation.PostProcess | arag/utils/citation_system.py:393-452 | the post-processing loop returns the same segments, each with the citation the mode machine keeps |
| Citation.TakeLists | arag/utils/citation_system.py:400-417 | after a cited header, the list items that follow are consumed, dropping their citation when it repeats the header's |
| Citation.TakeGroup | arag/utils/citation_system.py:418-452 | up to three consecutive plain segments citing one page are grouped and only the first keeps the citation |
| Citation.GroupAdvance | arag/utils/citation_system.py:418-452 | one more plain segment with the group's citation joins the group with its citation dropped |
| Citation.GroupingCitedBefore | arag/utils/citation_system.py:418-452 | a grouping state carries the citation of the segment just consumed |
| Citation.HeaderListsStripped | arag/utils/citation_system.py:400-417 | a cited header that is not a list item keeps its citation; the list items after it lose a citation equal to the header's and keep any other |
| Citation.AfterHeaderModes | arag/utils/citation_system.py:400-417 | while list items follow a cited header, the loop stays in the after-header state |
| Citation.RunModes | arag/utils/citation_system.py:418-452 | along a run of plain segments citing one page, the group size cycles 1, 2, 3 |
| Citation.GroupsOfThree | arag/utils/citation_system.py:418-452 | in a maximal run of plain segments citing one page, exactly every third one, from the first, keeps the citation |
| Citation.PagesOf | arag/utils/citation_system.py:455-460 | `updated_sections` has one entry per segment |
| Citation.PagesOfAt | arag/utils/citation_system.py:455-460 | entry `k` is the page of the citation post-processing kept for segment `k`, or none |
| Citation.PagesOfCited | arag/utils/citation_system.py:455-460 | a segment the gate left uncited has no page, and a page that remains is the one the gate chose: post-processing only removes citations |
| Citation.UpdatedPages | arag/utils/citation_system.py:455-460 | the loop computing `updated_sections` gives the page of each kept citation |
| Citation.Present | arag/utils/citation_system.py:463-466 | the cited pages are exactly the pages some segment cites |
| Citation.Numbering | arag/utils/citation_system.py:463-471 | definition; its properties are stated by Citation.NumberingDense and NumberingOrder |
| Citation.NumberingDense | arag/utils/citation_system.py:463-471 | every cited page gets a number in `1..k`, k the number of distinct cited pages, and every number is used |
| Citation.NumberingOrder | arag/utils/citation_system.py:463-471 | numbers follow string order of the page strings, not first appearance, and distinct pages get distinct numbers |
| Citation.Decorated | arag/utils/citation_system.py:477-489 | each segment keeps its place and is paired with its decorated text |
| Citation.Parts | arag/utils/citation_system.py:530-546 | what reaches the join holds neither empty strings nor the break marker |
| Citation.PartsAppend | arag/utils/citation_system.py:530-546 | the marker loops work element by element |
| Citation.SpacingHasNoEffect | arag/utils/citation_system.py:495-546 | the spacing markers inserted around lists, tables and headers are all removed again: the join sees only the segments' texts |
| Citation.SpacingParts | arag/utils/citation_system.py:495-526 | the empty markers added around one segment's text are dropped |
| Citation.MarkersDropped | arag/utils/citation_system.py:530-546 | empty strings around a text vanish at the join |
| Citation.NewlineRun | arag/utils/citation_system.py:549 | the length of the leading run of newlines |
| Citation.CollapseNoTriple | arag/utils/citation_system.py:549 | after `re.sub(r"\n{3,}", "\n\n", s)` no three newlines are left in a row, and the first character is kept |
| Citation.CollapseIdentity | arag/utils/citation_system.py:549 | a text without three newlines in a row is left as it is, so collapsing twice is collapsing once |
| Citation.ShortRuns | arag/utils/citation_system.py:549 | in such a text every newline run is shorter than three |
| Citation.NoTripleSlice | arag/utils/citation_system.py:549-551 | a slice of such a text has none either, so stripping keeps the property |
| Citation.CitedText | arag/utils/citation_system.py:319-551 | definition; its properties are stated by Citation.CitedTextNoTriple, CitedTextInOrder and AddCitations |
| Citation.CitedTextNoTriple | arag/utils/citation_system.py:319-551 | the cited answer never holds three newlines in a row |
| Citation.CitedTextInOrder | arag/utils/citation_system.py:477-551 | for segments in text order the sort keeps them in place, and the answer is the decorated texts joined in order, collapsed and stripped |
| Citation.ProtectedNeverCited | arag/utils/citation_system.py:278-285 | a protected segment, or one tagged as image, header, code or table, never gets a citation |
| Citation.AddCitations | arag/utils/citation_system.py:319-551 | without an embedding function the call fails with the source's message; otherwise it returns the cited text |
| Citation.ChunkList | arag/utils/citation_system.py:574-577 | `range` refuses a zero step (no result) exactly when the size is 0 |
| Citation.ChunkCount | arag/utils/citation_system.py:574-577 | there are ceil(len/size) chunks: enough to hold the list, one fewer would not; none for the empty list |
| Citation.ChunkAt | arag/utils/citation_system.py:574-577 | chunk k is `lst[k*size : k*size+size]`, clamped at the end |
| Citation.ChunksConcat | arag/utils/citation_system.py:574-577 | together the chunks are the list |
| CitationLists.NextItemSpan | arag/utils/text_utils.py:14 | an item `\s*,\s*\d+` spans no digit before its number and only digits after |
| CitationLists.ListNumerals | arag/utils/text_utils.py:14-25 | a matched bracket list holds numbers only |
| CitationLists.MoreNumerals | arag/utils/text_utils.py:14 | every item after the first number is itself a number |
| CitationLists.SingleNumberKept | arag/utils/text_utils.py:14-25 | a bracket holding a single number does not match and is kept |
| CitationLists.ConvertCitations | arag/utils/text_utils.py:12-25 | definition; its properties are stated by CitationLists.ConvertKeepsDigits, and by ConvertUnchanged and ConvertKeepsDigitsFrom about the scan ConvertFrom it runs from position 0 |
| CitationLists.ConvertUnchanged | arag/utils/text_utils.py:12-25 | a text without a bracket list is returned unchanged |
| CitationLists.ConvertKeepsDigitsFrom | arag/utils/text_utils.py:22-25 | from any position, the conversion keeps every digit, in order |
| CitationLists.ConvertKeepsDigits | arag/utils/text_utils.py:12-25 | the digits of the result are exactly the digits of the input, in order: no number is lost, duplicated or reordered |
| Tables.CellsClean | arag/utils/text_utils.py:116-138 | the cells read from a row hold no pipe and no surrounding whitespace |
| Tables.CellsOfRender | arag/utils/text_utils.py:116-138 | reading back the cells of a rendered row gives the cells it was rendered from |
| Tables.RenderShape | arag/utils/text_utils.py:116-138 | a rendered row starts with `\| ` and ends with ` \|` |
| Tables.NonBlankRowsEmpty | arag/utils/text_utils.py:80-82 | no row survives exactly when every line is blank |
| Tables.Piped | arag/utils/text_utils.py:85-89 | a row gets a pipe at each end where it lacks one |
| Tables.MaxCols | arag/utils/text_utils.py:92-95 | `max_cols` bounds every row's column count and is at least 1 for a non-empty table |
| Tables.MaxColsAttained | arag/utils/text_utils.py:92-95 | some row has exactly `max_cols` columns |
| Tables.SeparatorFrom | arag/utils/text_utils.py:98-105 | the search finds the first separator row after the header, or none |
| Tables.Fit | arag/utils/text_utils.py:126-131 | a data row's cells are padded with empty cells or truncated to exactly n |
| Tables.BlankTableUnchanged | arag/utils/text_utils.py:80-82 | a table of blank lines is returned as it is |
| Tables.FixRowsLength | arag/utils/text_utils.py:108-138 | the output has a row per row, plus one when the default separator is inserted |
| Tables.FixRowsAt | arag/utils/text_utils.py:116-138 | output row i renders the cells computed for it |
| Tables.FixRowsShape | arag/utils/text_utils.py:116-138 | every output row is framed by pipes and has exactly `max_cols` cells |
| Tables.FixedRowShape | arag/utils/text_utils.py:116-138 | a fixed row, separator or data, has exactly n cells and is framed by pipes |
| Tables.FixRowsDataRow | arag/utils/text_utils.py:126-138 | a data row keeps its cells in order: the first `max_cols` of them, then empty cells |
| Tables.FixRowsSeparatorRow | arag/utils/text_utils.py:116-125 | the separator row holds only alignment markers, and keeps those the row already had |
| Tables.SeparatorCellsAlign | arag/utils/text_utils.py:118-125 | every separator cell is an alignment marker |
| Tables.InsertedSeparator | arag/utils/text_utils.py:108-111 | with no separator row among two or more rows, a `---` row goes in at index 1 and the rows after the header move down by one |
| Tables.ExistingSeparator | arag/utils/text_utils.py:98-105 | a separator row already there stays in place and nothing is inserted |
| Tables.FixedTable | arag/utils/text_utils.py:77-138 | definition; its properties are stated by Tables.BlankTableUnchanged, FixedTableRows, FixedTableAllTableLines and FixTable |
| Tables.FixedTableRows | arag/utils/text_utils.py:77-138 | `fix_table` on a table with a non-blank line fixes its stripped, piped rows |
| Tables.SeparatorRowCells | arag/utils/text_utils.py:118-125 | the loop building the separator cells keeps alignment markers and writes `---` elsewhere |
| Tables.PadCells | arag/utils/text_utils.py:126-131 | the padding loop gives exactly `max_cols` cells |
| Tables.PipeRows | arag/utils/text_utils.py:85-89 | the in-place loop gives every row its pipes |
| Tables.CountColumns | arag/utils/text_utils.py:92-95 | the loop computes `max_cols` |
| Tables.PlaceSeparator | arag/utils/text_utils.py:98-111 | the search and insertion give the arranged rows and the separator's index |
| Tables.RenderRows | arag/utils/text_utils.py:116-138 | every row is rendered as a separator or data row, by index |
| Tables.FixTable | arag/utils/text_utils.py:77-138 | `fix_table` computes the fixed table |
| Tables.OpensFenceStrip | arag/utils/text_utils.py:54 | the fence test ignores leading whitespace |
| Tables.FixFromStep | arag/utils/text_utils.py:50-74 | a table line joins the open table; any other line closes it and is copied |
| Tables.FixedMarkdown | arag/utils/text_utils.py:28-74 | definition; its properties are stated by Tables.FixMarkdownTables and NoTablesUnchanged, and by MaximalRunFixed and PlainLinesKept about the line pass FixLines whose lines it joins |
| Tables.FixMarkdownTables | arag/utils/text_utils.py:28-74 | the line loop computes the fixed Markdown, including a table open at the end |
| Tables.TableRunCollected | arag/utils/text_utils.py:50-60 | a run of table lines is collected into the open table |
| Tables.TableClosed | arag/utils/text_utils.py:60-74 | a non-table line, or the end of the text, closes the open table |
| Tables.MaximalRunFixed | arag/utils/text_utils.py:28-74 | each maximal run of table lines is replaced by `fix_table` of the run, and the lines around it are handled independently |
| Tables.FixedTableAllTableLines | arag/utils/text_utils.py:77-138 | `fix_table` turns a run of table lines into table lines only |
| Tables.PlainLinesKept | arag/utils/text_utils.py:28-74 | every line outside the tables is copied unchanged and in order |
| Tables.NoTablesUnchanged | arag/utils/text_utils.py:28-74 | a text without table lines is returned unchanged |
| Dedup.Mask | arag/utils/text_utils.py:164-171 | definition; its properties are stated by Dedup.MaskPrefix, MaskAt, MaskSpec, MaskAllKept and Deduplicate |
| Dedup.ClearMeans | arag/utils/text_utils.py:164-171 | chunk j is clear of the first i decisions exactly when no kept chunk among them is at least `threshold` similar |
| Dedup.MaskPrefix | arag/utils/text_utils.py:164-171 | deciding more chunks never changes earlier decisions |
| Dedup.MaskAt | arag/utils/text_utils.py:164-171 | each decision depends only on the kept chunks before it |
| Dedup.MaskSpec | arag/utils/text_utils.py:164-171 | the first chunk is kept; any two kept chunks are less similar than the threshold; every dropped chunk has an earlier kept chunk at least that similar |
| Dedup.MaskAllKept | arag/utils/text_utils.py:164-171 | with no pair at or above the threshold every chunk is kept |
| Dedup.SelectKept | arag/utils/text_utils.py:173-176 | the survivors are the elements at the kept positions, in order |
| Dedup.RerunKeepsAll | arag/utils/text_utils.py:143-176 | de-duplicating the survivors again removes nothing |
| Dedup.Deduplicate | arag/utils/text_utils.py:143-176 | no chunks give a bare empty result; otherwise the nested loop leaves exactly the greedy mask, and chunks and embeddings are filtered by it alike |
| Sections.ExtractSection | arag/utils/text_utils.py:220-229 | no section exactly when the text holds no digit; otherwise a run of digits |
| Sections.ExtractSectionFirst | arag/utils/text_utils.py:220-229 | the section found is the whole first number of the text |
| Sections.HashLine | arag/utils/text_utils.py:258-259 | a `\n#+\n` match starts and ends with a newline |
| Sections.RemoveHashLines | arag/utils/text_utils.py:258-259 | definition; its properties are stated by Sections.RemoveHashLinesKeepsText and RemoveHashLinesNoop |
| Sections.RemoveHashLinesKeepsText | arag/utils/text_utils.py:258-259 | only line breaks and `#` characters are deleted: everything else is kept in order |
| Sections.RemoveHashLinesNoop | arag/utils/text_utils.py:258-259 | a text in which no line is made of `#` is left as it is |
| Sections.FirstHeading | arag/utils/text_utils.py:262-273 | the first position where a references heading matches, or none |
| Sections.RemoveReferenceSection | arag/utils/text_utils.py:262-273 | definition; its properties are stated by Sections.RemoveReferenceSectionNoop and RemoveReferenceSectionCut |
| Sections.RemoveReferenceSectionNoop | arag/utils/text_utils.py:262-273 | a text without the word "Reference" is returned unchanged |
| Sections.RemoveReferenceSectionCut | arag/utils/text_utils.py:262-273 | with a heading, the result is the stripped text before the first one |
| Sections.LexLeTotal | arag/utils/text_utils.py:362-365 | the sort key's order is total |
| Sections.LexLeTransitive | arag/utils/text_utils.py:362-365 | and transitive |
| Sections.SortByKey | arag/utils/text_utils.py:362-365 | the sort returns a permutation sorted by key |
| Sections.SectionNumbers | arag/utils/text_utils.py:349-365 | definition; its properties are stated by Sections.SectionNumbersSpec |
| Sections.SectionNumbersSpec | arag/utils/text_utils.py:349-365 | the result holds each trimmed match exactly once, ordered by its list of integer components |
| Chunker.Windows | arag/utils/text_utils.py:456-460 | definition; its properties are stated by Chunker.WindowAt, WindowCount, WindowsCover, WindowsOverlap and TokenizeAndChunk |
| Chunker.WindowAt | arag/utils/text_utils.py:456-460 | window k starts k steps in and is `max_tokens` long, or shorter at the end |
| Chunker.WindowCount | arag/utils/text_utils.py:456-460 | there are ceil(tokens/step) windows: enough to pass the end, the last starting before it |
| Chunker.WindowsCover | arag/utils/text_utils.py:456-460 | the first `step` tokens of each window, laid end to end, give back all the tokens |
| Chunker.WindowsOverlap | arag/utils/text_utils.py:456-460 | consecutive windows overlap by `overlap_tokens` tokens when the window is full |
| Chunker.TokenizeAndChunk | arag/utils/text_utils.py:434-462 | a text that fits is returned alone; otherwise the decoded windows, one every `max_tokens - overlap_tokens` tokens |
| Chunker.ChunkAdvance | arag/utils/text_utils.py:456-460 | the loop invariant survives one window |
| References.MatchAt | arag/utils/text_utils.py:484 | a match starts at the position and ends inside the text |
| References.MatchAtWritten | arag/utils/text_utils.py:484 | a match is the text `[r](p)` with numerals r and p, and its number is `int(r)` |
| References.WrittenMatches | arag/utils/text_utils.py:484 | conversely, wherever `[r](p)` is written with numerals, the pattern matches it |
| References.PageToRefs | arag/utils/text_utils.py:492-496 | `page_to_refs` has unique keys and no empty list |
| References.PageToRefsKeys | arag/utils/text_utils.py:492-496 | the dictionary holds exactly the pages that occur |
| References.PageToRefsValues | arag/utils/text_utils.py:492-496 | each page's list holds the numbers written for it, in order |
| References.MatchedPagesKnown | arag/utils/text_utils.py:492-496 | every matched page is in the dictionary |
| References.CanonicalSpec | arag/utils/text_utils.py:500-512 | the canonical number of a page is its most frequent number, the lowest on a tie |
| References.CanonicalUnique | arag/utils/text_utils.py:500-512 | at most one number is canonical |
| References.BestBeatsRest | arag/utils/text_utils.py:500-512 | the chosen number beats every other number of the page |
| References.CountRefs | arag/utils/text_utils.py:503-505 | `ref_counts` holds each number with its number of occurrences |
| References.MaxCount | arag/utils/text_utils.py:508 | `max(ref_counts.values())` bounds every count and is attained |
| References.Least | arag/utils/text_utils.py:512 | `min(most_common_refs)` is the least element |
| References.MostFrequent | arag/utils/text_utils.py:500-512 | step 3 for one page computes the canonical number |
| References.CanonicalRefs | arag/utils/text_utils.py:500-512 | `canonical_refs` gives each page its canonical number, in the dictionary's order |
| References.SortedSet | arag/utils/text_utils.py:515 | `sorted(set(...))` is ascending and holds exactly the values |
| References.RankDense | arag/utils/text_utils.py:515-516 | the new numbers are exactly `1..k`, k the number of distinct canonical numbers |
| References.RankOrder | arag/utils/text_utils.py:515-516 | renumbering keeps the order of the canonical numbers, both ways |
| References.BuildPageToRefs | arag/utils/text_utils.py:492-496 | step 2's loop builds `page_to_refs` |
| References.BuildCanonicalRefs | arag/utils/text_utils.py:500-512 | step 3's loop builds `canonical_refs` |
| References.BuildNewRefs | arag/utils/text_utils.py:515-516 | step 4 maps every canonical number to its rank |
| References.Rewrite | arag/utils/text_utils.py:519-538 | the rewrite replaces every match, left to right, and copies everything else |
| References.RewriteAgree | arag/utils/text_utils.py:519-538 | the rewrite depends only on what the replacement does to the matches |
| References.NewRefOfPages | arag/utils/text_utils.py:509-529 | the dictionaries of steps 3 and 4 give every page its new number |
| References.Formatted | arag/utils/text_utils.py:465-556 | definition; its properties are stated by References.FormatReferences, and by Rewrite, RewriteAgree, RankDense and RankOrder about the one-pass rewrite and the numbering it uses |
| References.FormatReferences | arag/utils/text_utils.py:465-556 | `format_references` returns the text with every `[r](p)` rewritten to `[n](doc1.pdf#page-p)`, n the dense rank of p's canonical number |
| ParseUtils.ExtractPageNumbers | arag/utils/parse_utils.py:6-14 | definition; its properties are stated by ParseUtils.MatchingPagesFirst, and by PageNumbersNumerals and PageNumbersNone about the scan PageNumbersFrom it runs from position 0 |
| ParseUtils.PageNumbersNumerals | arag/utils/parse_utils.py:6-14 | every page number found is a run of digits |
| ParseUtils.PageNumbersNone | arag/utils/parse_utils.py:6-14 | no page number is found exactly when no `Page`/`page` match occurs |
| ParseUtils.RefsNumerals | arag/utils/parse_utils.py:26 | every reference number found is a run of digits |
| ParseUtils.RefsNone | arag/utils/parse_utils.py:26 | a text has reference numbers exactly when some `[n]` marker occurs |
| ParseUtils.PiecesWithinLines | arag/utils/parse_utils.py:20 | a line break can only end a piece of the split |
| ParseUtils.PiecesKeepInk | arag/utils/parse_utils.py:20 | the split only drops whitespace |
| ParseUtils.ReferencesWithContext | arag/utils/parse_utils.py:17-32 | definition; its properties are stated by ParseUtils.ReferencesWithContextSpec, and by PiecesWithinLines and PiecesKeepInk about the sentence split it filters |
| ParseUtils.ReferencesWithContextSpec | arag/utils/parse_utils.py:17-32 | every fragment returned lies within one line, holds at least one reference, and its references are numbers |
| ParseUtils.OrderByKeys | arag/utils/parse_utils.py:35-45 | the same items, keys in ascending string order |
| ParseUtils.OrderByKeysSameItems | arag/utils/parse_utils.py:35-45 | the ordered dictionary has the same items and the same size |
| ParseUtils.Grouped | arag/utils/parse_utils.py:52-56 | the grouping has unique keys, each the first reference of some fragment |
| ParseUtils.GroupedKeys | arag/utils/parse_utils.py:52-56 | every fragment's first reference is a key |
| ParseUtils.GroupedValues | arag/utils/parse_utils.py:52-56 | each entry holds exactly what its first reference collects, each fragment followed by a blank line |
| ParseUtils.CollectedAbsent | arag/utils/parse_utils.py:52-56 | a key no fragment is filed under collects nothing |
| ParseUtils.StripValues | arag/utils/parse_utils.py:63-64 | every grouped content is stripped, keys unchanged |
| ParseUtils.MatchingPages | arag/utils/parse_utils.py:69-86 | no pages exactly when no chunk is judged to match |
| ParseUtils.MatchingPagesFirst | arag/utils/parse_utils.py:69-86 | the pages are those of the first matching chunk |
| ParseUtils.RefPages | arag/utils/parse_utils.py:89-92 | at most one entry per grouped reference; each entry's key is a grouped reference and its pages are those `find_matching_pages` returns for that reference's content |
| ParseUtils.RefPagesUnique | arag/utils/parse_utils.py:89-92 | the kept references have unique keys |
| ParseUtils.ReplacementsAsWritten | arag/utils/parse_utils.py:98-118 | the replacement loop as written, failing when an entry without pages comes first |
| ParseUtils.EmptyPagesAsWritten | arag/utils/parse_utils.py:100-118 | as written, `{"1": []}` raises, and `{"1": [4], "2": []}` repeats the first pair |
| ParseUtils.AsWrittenFailurePersists | arag/utils/parse_utils.py:98-118 | once the loop as written raises it does not recover |
| ParseUtils.Replacements | arag/utils/parse_utils.py:98-118 | the intended list: one pair per entry with pages |
| ParseUtils.LinkedCoversEntries | arag/utils/parse_utils.py:98-118 | exactly the entries with pages get a pair |
| ParseUtils.ReplacementsDistinct | arag/utils/parse_utils.py:98-118 | in the intended list the labels are pairwise distinct |
| ParseUtils.ReplacementsAgree | arag/utils/parse_utils.py:98-118 | where every entry has pages, the code as written and the intended list agree |
| ParseUtils.BuildReplacementsAsWritten | arag/utils/parse_utils.py:98-118 | the loop as written computes the as-written list or its failure |
| ParseUtils.BuildReplacements | arag/utils/parse_utils.py:98-118 | the corrected loop computes the intended list |
| ParseUtils.ReplaceUnlinked | arag/utils/parse_utils.py:120-123 | definition; its properties are stated by ParseUtils.NoUnlinkedLeft, ReplaceUnlinkedNoop and ReplaceUnlinkedIdempotent |
| ParseUtils.NoUnlinkedLeft | arag/utils/parse_utils.py:120-123 | after `re.sub(pat + "(?!\()", ...)` every occurrence of the pattern is followed by `(` |
| ParseUtils.ReplaceUnlinkedNoop | arag/utils/parse_utils.py:120-123 | a text without unlinked occurrences is left as it is |
| ParseUtils.ReplaceUnlinkedIdempotent | arag/utils/parse_utils.py:120-123 | rewriting twice is rewriting once: links already made are skipped |
| ParseUtils.LinkHasShape | arag/utils/parse_utils.py:100-118 | the links built for references have the shape the rewrite relies on |
| ParseUtils.ApplyAllAbsent | arag/utils/parse_utils.py:120-123 | a text in which no pattern occurs is unchanged |
| ParseUtils.ApplyReplacements | arag/utils/parse_utils.py:120-123 | the rewrite loop applies each pair in turn |
| ParseUtils.OrderedRefPages | arag/utils/parse_utils.py:89-95 | `ref_pages` after ordering has its keys in ascending order |
| ParseUtils.ProcessContentReferences | arag/utils/parse_utils.py:48-125 | the function fails exactly when the as-written replacement loop fails, else applies its pairs |
| ParseUtils.ProcessContentReferencesCorrected | arag/utils/parse_utils.py:48-125 | the corrected function applies the intended pairs |
| ParseUtils.ExtractImageReferences | arag/utils/parse_utils.py:128-151 | every reference found is `![d]` with a non-empty description free of `]` |
| ParseUtils.ImagesWellFormed | arag/utils/parse_utils.py:143 | the scan from any position finds only well-formed references |
| ParseUtils.EmptyImageNotMatched | arag/utils/parse_utils.py:143 | `![]` is not matched |
| ParseUtils.CleanImagePath | arag/utils/parse_utils.py:167 | a cleaned path holds no parenthesis |
| ParseUtils.ImagePath | arag/utils/parse_utils.py:158-177 | no path exactly when no chunk holding an image yields one |
| ParseUtils.OutputImages | arag/utils/parse_utils.py:180-183 | `output_image` has unique keys, each an image reference of the answer |
| ParseUtils.OutputImagesFound | arag/utils/parse_utils.py:180-183 | every image whose path is found is in the dictionary with that path |
| ParseUtils.ImageLinks | arag/utils/parse_utils.py:186-188 | each image is rewritten to itself followed by `(path)` |
| ParseUtils.ImageLinkShape | arag/utils/parse_utils.py:186-194 | an image link has the shape the rewrite relies on |
| ParseUtils.FindImagePaths | arag/utils/parse_utils.py:155-183 | the loop builds `output_image` |
| ParseUtils.BuildImageLinks | arag/utils/parse_utils.py:186-188 | the loop builds the replacement list `(key, key(path))` |
| ParseUtils.ProcessImages | arag/utils/parse_utils.py:154-196 | the answer as `re.sub` rewrites it: each found, unlinked reference gets the expansion of the template `key(path)`, and the call fails as soon as one link is not a valid template |
| ParseUtils.ProcessImagesCorrected | arag/utils/parse_utils.py:154-196 | every found reference not yet followed by `(` is linked to exactly `key(path)` |
| ParseUtils.BadEscapeImageRaises | arag/utils/parse_utils.py:191-194 | a found reference holding an escape such as `\d` makes the rewrite raise |
| ParseUtils.BadDescriptionAsWritten | arag/utils/parse_utils.py:191-194 | the answer `See ![a\d] here` with a found path makes the rewrite raise |
| ParseUtils.EscapedPathAsWritten | arag/utils/parse_utils.py:191-194 | a link whose path holds `\n`, such as `imgs\new.png`, and no other backslash is written with a newline in its place |
| ParseUtils.ImagesWithoutBackslash | arag/utils/parse_utils.py:186-194 | when no found reference or path holds a backslash, the rewrite as written equals the literal one |
| ParseUtils.ApplyTemplates | arag/utils/parse_utils.py:191-194 | the rewrites fail exactly when some replacement is not a valid template |
| ParseUtils.ApplyTemplatesLiteral | arag/utils/parse_utils.py:191-194 | replacements without a backslash are inserted literally |
| ParseUtils.ApplyTemplatesFailed | arag/utils/parse_utils.py:191-194 | once a rewrite raises, the later ones are not reached |
| ParseUtils.ApplyTemplateReplacements | arag/utils/parse_utils.py:191-194 | the loop computes the rewrites, stopping at the first invalid template |
| ParseUtils.LinkIsLiteral | arag/utils/parse_utils.py:103-123 | a reference link holds no backslash, so `re.sub` inserts it literally |
| ParseUtils.AsWrittenNoBackslash | arag/utils/parse_utils.py:98-118 | no replacement of the list as written holds a backslash: each is a link or a repeat of one |
| ParseUtils.ContentReferencesAsWrittenLiteral | arag/utils/parse_utils.py:98-123 | for the list as written too, the `re.sub` rewrite is the literal rewrite and never raises |
| ParseUtils.ContentReferencesLiteral | arag/utils/parse_utils.py:120-123 | for the intended list, the content-reference rewrite as `re.sub` performs it is the literal rewrite and never raises |
| SubTemplate.Expand | arag/utils/parse_utils.py:194 | definition; its properties are stated by SubTemplate.ExpandLiteralPrefix, LiteralTemplate, TranslatedEscape, BadEscapeFails, GroupReferenceFails, WholeMatchReference, KeptEscape and TrailingBackslashFails |
| SubTemplate.ExpandLiteralPrefix | arag/utils/parse_utils.py:194 | text without a backslash is copied into the expansion unchanged |
| SubTemplate.LiteralTemplate | arag/utils/parse_utils.py:194 | a replacement without a backslash expands to itself |
| SubTemplate.TranslatedEscape | arag/utils/parse_utils.py:194 | `\a \b \f \n \r \t \v` and `\\` become their single characters |
| SubTemplate.BadEscapeFails | arag/utils/parse_utils.py:194 | any other escape of an ASCII letter, `\g` aside, makes the template fail |
| SubTemplate.GroupReferenceFails | arag/utils/parse_utils.py:194 | `\1` to `\9` fail, unless they start a three-digit octal escape: the pattern has no groups |
| SubTemplate.WholeMatchReference | arag/utils/parse_utils.py:194 | `\g<0>` inserts the whole match |
| SubTemplate.KeptEscape | arag/utils/parse_utils.py:194 | a backslash before any other character that is neither a letter nor a digit is kept with it |
| SubTemplate.TrailingBackslashFails | arag/utils/parse_utils.py:194 | a lone backslash at the end fails |
| Memory.Kept | arag/arag_agents/utils/memory_layer.py:11-19 | definition; its properties are stated by Memory.KeptExactly, KeptAppend and UpdatePreserves |
| Memory.KeptExactly | arag/arag_agents/utils/memory_layer.py:11-19 | a candidate is stored exactly when it is non-empty, under 4096 tokens and neither an apology nor a "does not contain" answer, ignoring case |
| Memory.KeptAppend | arag/arag_agents/utils/memory_layer.py:11-19 | filtering two batches one after the other stores what filtering them together stores |
| Memory.UpdatePreserves | arag/arag_agents/utils/memory_layer.py:11-19 | an update keeps every stored snippet in place and adds only accepted candidates |
| Memory.BlocksJoin | arag/arag_agents/utils/memory_layer.py:21-27 | the accumulated blocks are the wrapped snippets joined by a blank line, then one more |
| Memory.JoinWrapEnds | arag/arag_agents/utils/memory_layer.py:21-27 | the joined blocks start with `<` and end with `>`, so stripping removes only the trailing blank line |
| Memory.Rendering | arag/arag_agents/utils/memory_layer.py:21-27 | the stripped rendering is the wrapped snippets joined by a blank line, empty exactly when nothing is stored |
| Memory.Pattern | arag/arag_agents/utils/memory_layer.py:21-27 | `_memory_pattern` renders every snippet as a `<knowledge>` block, joined by a blank line, and the empty list as `""` |
| Memory.AgentMemory.constructor | arag/arag_agents/utils/memory_layer.py:7-9 | a new store is empty |
| Memory.AgentMemory.Update | arag/arag_agents/utils/memory_layer.py:11-19 | the accepted candidates are appended in order; nothing stored before moves |
| Memory.AgentMemory.Retrieve | arag/arag_agents/utils/memory_layer.py:29-30 | the rendering of the store, `""` exactly when it is empty, without changing it |
| Memory.AgentMemory.Reset | arag/arag_agents/utils/memory_layer.py:32-33 | the store is empty afterwards |
| Registry.ActionsOf | arag/arag_agents/decorators/agent_registry.py:69-71 | a query never seen has no records |
| Registry.Appended | arag/arag_agents/decorators/agent_registry.py:54-56 | definition; its properties are stated by Registry.AppendedActions and ActionRegistry.Invoke |
| Registry.AppendedActions | arag/arag_agents/decorators/agent_registry.py:54-56 | a call adds exactly one record, at the end of its query's list, creating the list when new; other queries' lists are unchanged |
| Registry.MakeRecord | arag/arag_agents/decorators/agent_registry.py:37-51 | the record holds the action, class and method names, the response and its usage; a message exactly when the object can format one |
| Registry.ActionRegistry.constructor | arag/arag_agents/decorators/agent_registry.py:6 | the registry starts empty |
| Registry.ActionRegistry.Invoke | arag/arag_agents/decorators/agent_registry.py:20-63 | the wrapper returns only the response and appends the call's record under its query |
| Registry.ActionRegistry.ActionsForQuery | arag/arag_agents/decorators/agent_registry.py:69-71 | the query's records, `[]` for an unknown query |
| Registry.ActionRegistry.AllActions | arag/arag_agents/decorators/agent_registry.py:74-76 | the whole registry |
| Registry.ActionRegistry.Clear | arag/arag_agents/decorators/agent_registry.py:79-81 | no query has a record afterwards |
| Pipeline.TaskResults | arag/agent_pipeline.py:102-108 | one result per chunk: the agent's answer, or the chunk itself when the agent raised |
| Pipeline.PresentAll | arag/agent_pipeline.py:133-146 | when every slot is filled, all results are kept in chunk order |
| Pipeline.CleanedExactly | arag/agent_pipeline.py:146 | the clean-up drops exactly the empty results and strips the rest |
| Pipeline.ExtractKnowledge | arag/agent_pipeline.py:110-148 | results are placed by chunk index, so the knowledge is the cleaned results in chunk order whatever order the tasks complete in |
| Pipeline.ChunksForQuery | arag/agent_pipeline.py:150-160 | a chunk is kept exactly when it is not yet known and contains the section |
| Pipeline.NonEmpty | arag/agent_pipeline.py:196 | exactly the non-empty elements are kept |
| Pipeline.NonEmptyKeepsUnique | arag/agent_pipeline.py:218-219 | dropping empty strings keeps a list duplicate-free |
| Pipeline.ProcessItem | arag/agent_pipeline.py:162-198 | the item's results hold no empty string |
| Pipeline.ProcessItemSpec | arag/agent_pipeline.py:150-198 | a result is exactly a non-empty answer of the knowledge agent for a chunk that some query returned, that is not yet known and that mentions the section |
| Pipeline.MissingInfo | arag/agent_pipeline.py:200-221 | definition; its properties are stated by Pipeline.MissingInfoSpec |
| Pipeline.MissingInfoSpec | arag/agent_pipeline.py:200-221 | the pooled results are duplicate-free and hold exactly the non-empty results |
| Pipeline.RetrieveChunks | arag/agent_pipeline.py:229-244 | the pooled chunks are duplicate-free and hold exactly the retrieved chunks |
| Pipeline.MissingStep | arag/agent_pipeline.py:341-372 | the knowledge becomes the old knowledge followed by what the first extraction found, or by what the retry found when the first raised, and nothing when both raised; the answer is regenerated from the extended knowledge exactly when that is non-empty, and otherwise kept |
| Pipeline.Refine | arag/agent_pipeline.py:376-408 | at most three evaluations, and never more improvements than evaluations |
| Pipeline.RefineEnds | arag/agent_pipeline.py:376-408 | the loop ends after three improvements, or at the evaluation right after the last improvement, which gave the stopping value |
| Pipeline.EvaluateImprove | arag/agent_pipeline.py:376-408 | the loop as written, stopping when the evaluator's first value is true; at most three calls of each agent |
| Pipeline.AsWrittenReturnsFlagged | arag/agent_pipeline.py:392-393 | as written, the returned answer is one the evaluator has just flagged for improvement, unless three improvements ran |
| Pipeline.AsWrittenRewritesApproved | arag/agent_pipeline.py:392-393 | as written, an answer the evaluator always approves is rewritten three times |
| Pipeline.EvaluateImproveCorrected | arag/agent_pipeline.py:376-408 | the loop stopping once the evaluator no longer asks for improvement |
| Pipeline.CorrectedReturnsApproved | arag/agent_pipeline.py:376-408 | corrected, the loop returns an approved answer unless three improvements ran, and an approved first answer is returned at once |
| Pipeline.LoopKeysKnown | arag/agent_pipeline.py:248-270 | every status the loop reports is a known message, and each evaluation message ends with the evaluator's outcome |

## Left out

- The language-model agents, the OpenAI client and the agents' prompts are
  given functions: the knowledge, answer, evaluator and improver agents, and
  the matcher and extractor of `process_content_references` and
  `process_images_parallel`.
- The vector database and HTTP calls are left out, for the same reason:
  `retrieve_sections`, `perform_similarity_search` and `_get_metadata`.
  Their results are parameters.
- Embeddings and cosine similarity are floating-point work done by foreign
  code, so they are given values:
  - the gate takes a list of scores per segment, or none when computing them
    raised;
  - `deduplicate_by_similarity` takes a similarity function of two positions;
  - `get_embedding_for_page`, `has_similar_vector` and
    `batch_process_embeddings` are not part of this model.
- Thread and process pools run sequentially, for the same reason:
  - where the result depends on completion order, as in
    `extract_knowledge`, that order is a parameter;
  - the racy shared `defaultdict` in `process_content_references` is
    modelled as one sequential pass.
- The tokenizers are given functions:
  - a token-count function for `AgentMemory`;
  - an encoded token list and a decode function for `tokenize_and_chunk`.
- The regular expressions for images, code, tables and headers in
  `split_text`, and the combined section pattern of
  `extract_section_numbers`, are complex engines. Their matches are inputs
  (spans, or the matched strings). The list-item, page-marker, citation,
  reference, image-reference and sentence patterns are modelled directly.
- `export_registry_to_json`, `io_utils.py`, the registry's `time.time()`
  timestamps and elapsed times, and all `print` logging are I/O and clocks.
- `align_text_images`, `add_spacing_around_divs` and `transform_span_tags`
  are cosmetic transforms outside this model.
- The status callbacks and document selection in `search` are pipeline
  front end, outside this model.
- SubTemplate.Expand: a group name in `\g<...>` counts as naming the whole
  match only when it is ASCII zeros. Some Python versions also read names such
  as `+0` or ` 0` through `int()` and accept them; the model makes them fail.
  The error messages are Python's in spirit, not word for word.
- Strings.IsSpace: whitespace is the six characters space, `\t`, `\n`,
  `\r`, `\v` and `\f`. Python's `str.strip()` and `\s` also treat the ASCII
  separators `\x1c` to `\x1f` and the Unicode spaces as whitespace; here they
  are not. Digits and `lower()` are ASCII only, with no Unicode case folding.
- References.FormatReferences: leaves out three things.
  - The second return value, the report of changed reference numbers, is not
    produced.
  - The exception fallback (arag/utils/text_utils.py:557-560) is not
    modelled: no step of the modelled path raises.
  - The sequential `str.replace` of step 6, longest match first, is modelled
    as one left-to-right pass over the matches. This relies on one match
    never occurring inside another, and no replacement creating a new match.
    That equivalence is not proved.
- Sections.SectionNumbers: Python sorts a set, whose iteration order among
  entries with equal keys is unspecified. The model's insertion sort puts
  entries with equal keys in reverse input order, which is also an order
  Python may produce.
- Pipeline.ProcessItem, Pipeline.MissingInfoSpec, Pipeline.RetrieveChunks:
  the source de-duplicates through a Python `set`, whose iteration order is
  unspecified. The model keeps first occurrences in input order, and no
  contract depends on that order.
- Chunker.TokenizeAndChunk: requires a positive step
  (`overlap_tokens < max_tokens`) for a text that does not fit. The code
  loops forever otherwise.
- Pipeline.ExtractKnowledge: requires the completion order to name every
  chunk. A thread pool completes every future it was given.
- Pipeline.MissingStep: the two extraction attempts are parameters, and
  the retry is taken when the first raises. The case where the answer agent
  raises after the knowledge was extended is not modelled; the retry would
  then extend it a second time. Changing the knowledge agent's prompt for
  the retry is left out, because the agent is a given function.

## Findings

| source | as written | input that shows it | evidently intended | confidence | as-written member | corrected member |
|---|---|---|---|---|---|---|
| arag/agent_pipeline.py:392-393 | the loop breaks when the evaluator's first value, `needs_improvement`, is true | an evaluator that always flags the answer: the first answer is returned unimproved. One that always approves: the answer is rewritten three times | stop once the evaluator no longer asks for improvement | not executed | Pipeline.EvaluateImprove, Pipeline.AsWrittenRewritesApproved | Pipeline.EvaluateImproveCorrected, Pipeline.CorrectedReturnsApproved |
| arag/utils/parse_utils.py:100-118 | an entry of `ref_pages` with an empty page list assigns neither `old_ref` nor `new_ref`, so the append at line 118 adds the previous entry's pair again, or raises `UnboundLocalError` when it is the first entry | `ref_pages == {"1": []}` raises `UnboundLocalError`; `{"1": [4], "2": []}` adds the pair for `"1"` twice, and the answer is the same as with one copy, because the second rewrite finds every `[1]` already linked (ParseUtils.ReplaceUnlinkedIdempotent), so the raise is the only observable effect | skip entries without pages | not executed | ParseUtils.ReplacementsAsWritten, ParseUtils.EmptyPagesAsWritten | ParseUtils.Replacements, ParseUtils.ReplacementsDistinct |
| arag/utils/parse_utils.py:191-194 | the link `key(path)` is passed to `re.sub` as a template, so backslashes in the image description or the path are escapes | the description `a\d` makes `re.sub` raise `re.error`; the path `imgs\new.png` is written with a newline | insert the link literally, for instance with `re.escape` or a function as the replacement | not executed | ParseUtils.ProcessImages, ParseUtils.BadDescriptionAsWritten, ParseUtils.EscapedPathAsWritten | ParseUtils.ProcessImagesCorrected, ParseUtils.ImagesWithoutBackslash |
