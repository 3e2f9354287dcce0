# extract_memories: the marker scan, in Dafny

This project models and proves properties of the core of
`extract_ChatGPT_memories.py`, a script that extracts the "memories" of a
ChatGPT conversation export. When ChatGPT saves a memory, the export contains
a message block saying "Model set context updated". The memory itself is the
text of the message block just before it.

The model covers four parts of the script:

- **The marker scan** (`extract_and_debug_paragraphs`, lines 30-94).
  - It is one pass over the `<pre class="message">` blocks.
  - A *marker block* is one whose text contains the target phrase, compared
    case-insensitively, and whose author div contains `ChatGPT`.
  - Every marker block at index `i` yields exactly one record. Either the
    memory in block `i-1` is extracted, or the marker is skipped for one of
    four reasons: no previous message, invalid previous block structure,
    empty previous content, or duplicate content.
  - Duplicates are detected first-wins through the `seen_content` set.
- **The skip-reason grouping** of the report (lines 121-128). It builds an
  insertion-ordered dict from each reason to the skipped records that carry it.
- **The three count lines** of the report header (lines 101-103).
- **The default output file name** derived from the typed input path
  (lines 194, 202-203).

Files:

| file | module | contents |
|---|---|---|
| `wrappers.dfy` | `Wrappers` | `Option` |
| `text.dfy` | `Text` | lower-casing, substring containment, the 100-character block preview |
| `extractor.dfy` | `Extractor` | the data model; one loop step as a function (`Step`, `ScanPrefix`, `Extract`); the loop itself as the method `ExtractAndClassify`, proved equal to `Extract` |
| `extractor_props.dfy` | `ExtractorProperties` | what the pass promises, proved about `Extract` |
| `grouping.dfy` | `SkipGroups` | the grouping loop `GroupByReason` and the lemmas about the dict it builds |
| `report.dfy` | `Report` | the header counts |
| `output_name.dfy` | `OutputName` | quote stripping, POSIX `basename` and `splitext`, the default name |

## How the model is built

A parsed message block is a value `Block(text, author, divTexts)`:

- `text` is `block.get_text()`.
- `author` is the `div.author` element, if there is one. It carries both its
  raw `get_text()`, which the `ChatGPT` test reads, and its
  `get_text(strip=True)`, which is recorded as the author.
- `divTexts` holds the `get_text(strip=True)` of every `div` inside the block,
  in document order.

A bs4 `Tag` is always truthy, so `if author_div` is a presence test. The model
writes it as `author.Some?`.

The pass is stated in two ways:

- **As the source writes it.** `ExtractAndClassify` is a `while` loop with the
  same nested tests and the same `seen` set as the source. Its invariant says
  that `seen` is the set of extracted contents and that those contents are
  pairwise distinct.
- **As an independent reference.** `Expected` in `ExtractorProperties`
  decides a duplicate without any seen set: content counts as a duplicate when
  an earlier marker block was offered the same non-empty content.
  `ClassifyIsExpected` proves that this reference agrees with the source's
  seen-set test. Every property below is proved about `Extract` through that
  agreement.

The model is made of functions and a loop with no hidden state, so two passes
over the same blocks and phrase always give the same three lists.

Two facts about the code shape that model:

- **The author.** The `ChatGPT` test reads the raw `get_text()` of the
  `div.author` element. The recorded author is its `get_text(strip=True)`.
- **Stripped texts.** `get_text(strip=True)` strips each text fragment and
  then joins them, which is not a plain trim. The model therefore takes the
  stripped texts as given fields.

The target phrase is a parameter of the model. Its default value in the
source is "Model set context updated" (line 6).

## Model

Every source cell refers to `extract_ChatGPT_memories.py`.

| member | source | states |
|---|---|---|
| Text.LowerChar | extract_ChatGPT_memories.py:41 | An upper-case ASCII letter maps to the same letter in lower case; every other character is unchanged. |
| Text.Lower | extract_ChatGPT_memories.py:41 | The ASCII model of `.lower()` keeps the length and lower-cases each character independently. |
| Text.LowerIdempotent | extract_ChatGPT_memories.py:41 | Lower-casing twice equals lower-casing once; no upper-case letter is left. |
| Text.ContainsBounds | extract_ChatGPT_memories.py:41 | With `in`, an empty phrase matches every text, and a phrase longer than the text matches none. |
| Text.Preview | extract_ChatGPT_memories.py:52 | `block_text_preview` is the text when it has at most 100 characters. Otherwise it is the first 100 characters followed by `...`, 103 characters in all. |
| Extractor.ReasonTextInjective | extract_ChatGPT_memories.py:121-126 | Distinct reasons have distinct `reason_skipped` strings, so grouping by the string, as the dict does, is grouping by the reason. |
| Extractor.ProbePrevious | extract_ChatGPT_memories.py:56-66 | "No previous block" holds exactly when `i == 0`. "Malformed" holds exactly when block `i-1` lacks an author div or has fewer than 2 divs. Otherwise the result carries the stripped author and `divs[1]` of block `i-1`. |
| Extractor.Probed | extract_ChatGPT_memories.py:46-69 | `instance_info` has `position == block_index == i`, `has_previous == (i > 0)`, no reason and the text preview. `previous_content` and `previous_author` are set exactly when block `i-1` is well formed, to its content and author. |
| Extractor.ExtractAndClassify | extract_ChatGPT_memories.py:30-94 | The loop returns `target_instances`, `skipped_instances` and `extracted_messages` equal to the block-by-block pass `Extract`. The extracted contents are pairwise distinct. The invariant `seen_content == contents of extracted_messages` holds throughout. |
| ExtractorProperties.MarkerCount | extract_ChatGPT_memories.py:37-44 | The number of marker blocks among the first `n` blocks is at most `n`. |
| ExtractorProperties.StepAppendsAt | extract_ChatGPT_memories.py:37-94 | One iteration appends at most one memory and at most one skipped record, each at the current index, and never shrinks `target_instances`. |
| ExtractorProperties.ScanPrefixGrows | extract_ChatGPT_memories.py:30-94 | The three lists only grow: the lists after `n` blocks are prefixes of the lists after `m >= n` blocks. |
| ExtractorProperties.ContentsAreOffered | extract_ChatGPT_memories.py:71-84 | After `n` blocks, `seen_content` holds a string exactly when it is non-empty and was offered to some marker block before `n`. |
| ExtractorProperties.ClassifyIsExpected | extract_ChatGPT_memories.py:56-94 | The source's nested tests, with the seen-set check, give the same outcome as the reference classification, which decides duplicates by earlier offers. |
| ExtractorProperties.RecordsMatchReference | extract_ChatGPT_memories.py:37-94 | Every extracted memory, with its target instance, is the reference "kept" outcome of a marker block. Every skipped record is the reference "skipped" outcome of a marker block, with that reason. |
| ExtractorProperties.PositionsIncrease | extract_ChatGPT_memories.py:46-85 | The positions in `extracted_messages` and in `skipped_instances` are below `n`, in strictly increasing order. |
| ExtractorProperties.RecordCounts | extract_ChatGPT_memories.py:37-94 | `len(target_instances) == len(extracted_messages)`. Targets plus skipped equals the number of marker blocks seen. |
| ExtractorProperties.MarkersCovered | extract_ChatGPT_memories.py:37-44 | Every marker block before `n` has a record, either extracted or skipped. |
| ExtractorProperties.ExactlyOneRecordPerMarker | extract_ChatGPT_memories.py:37-44 | A block has a record exactly when it is a marker block, and no block is both extracted and skipped. Extracted plus skipped equals the number of marker blocks. `extracted_messages` and `skipped_instances` are in strictly increasing position order. |
| ExtractorProperties.TargetsOrdered | extract_ChatGPT_memories.py:78-85 | Each target instance has the position of the memory appended with it, so `target_instances` is also in strictly increasing position order, below the number of blocks. |
| ExtractorProperties.FirstMarkerHasNoPrevious | extract_ChatGPT_memories.py:92-94 | A marker at position 0 is the first skipped record, with reason "No previous message" and `previous_content` None, and it is never extracted. |
| ExtractorProperties.SkipReasons | extract_ChatGPT_memories.py:56-94 | Every skipped record carries a reason, and each reason holds exactly when its condition on block `i-1` does. `previous_content` is None for "no previous" and "invalid structure", `""` for "empty", and the duplicated content for "duplicate". |
| ExtractorProperties.ExtractedContents | extract_ChatGPT_memories.py:63-84 | Every extracted memory has a non-empty content equal to `divs[1]` of block `position - 1`, and its author is that block's stripped author. Contents are pairwise distinct. |
| ExtractorProperties.FirstWins | extract_ChatGPT_memories.py:73-75 | When two marker blocks are offered the same non-empty content, the later one is never extracted. It is skipped as "Duplicate content" with that content. |
| ExtractorProperties.FirstOfferIsExtracted | extract_ChatGPT_memories.py:76-84 | The first marker block offered a given non-empty content extracts it, at its own position. |
| ExtractorProperties.DuplicateHasEarlierOriginal | extract_ChatGPT_memories.py:73-75 | Every "Duplicate content" record has a `previous_content` that was extracted at an earlier position. |
| ExtractorProperties.OfferedIsExtractedBefore | extract_ChatGPT_memories.py:73-84 | Any non-empty content offered before position `p` was extracted by some memory at a position below `p`. |
| SkipGroups.FirstOccurrencesOrder | extract_ChatGPT_memories.py:121-126 | The dict's key order is duplicate-free, has exactly the members of the sequence, and lists them by their first occurrence. |
| SkipGroups.GroupIndices | extract_ChatGPT_memories.py:121-126 | The recorded positions of a group are indices of the skipped list. |
| SkipGroups.GroupIndicesExact | extract_ChatGPT_memories.py:121-126 | A group's positions increase strictly and each carries its reason. Every record with that reason is among them. |
| SkipGroups.GroupKeepsOrder | extract_ChatGPT_memories.py:121-126 | A group is the skipped list picked at those increasing positions, so it keeps the original relative order. |
| SkipGroups.GroupSizesPartition | extract_ChatGPT_memories.py:121-128 | Over distinct keys that cover every reason, the group sizes sum to the number of records. |
| SkipGroups.GroupedStep | extract_ChatGPT_memories.py:122-126 | One iteration keeps the dict equal to the grouping of the records seen so far: key order, key set and each list. |
| SkipGroups.GroupByReason | extract_ChatGPT_memories.py:121-126 | The loop returns the keys in first-occurrence order of the reasons, a dict whose keys are exactly those, and for each key the records with that reason in list order. |
| SkipGroups.KeyOrder | extract_ChatGPT_memories.py:121-128 | The keys are distinct, every skipped record's reason is a key, every key is some record's reason, and keys appear in the order of their first occurrence. |
| SkipGroups.GroupsPartition | extract_ChatGPT_memories.py:121-128 | The group sizes over the dict's keys sum to `len(skipped_instances)`. |
| SkipGroups.GroupsExact | extract_ChatGPT_memories.py:121-128 | Every group in the dict is non-empty and has one entry per record with its reason. |
| Report.CountsAgree | extract_ChatGPT_memories.py:101-103 | "Total memories found" equals the number of marker blocks and equals "Successfully extracted" plus "Skipped memory records". |
| Report.GroupKeysAreReasons | extract_ChatGPT_memories.py:128-129 | Every key of the skip-reason dict built from the pass's skipped list is a real reason, never None. |
| OutputName.DropLeadingQuotes | extract_ChatGPT_memories.py:194 | Removes exactly the leading run of `"` and `'` characters. |
| OutputName.DropTrailingQuotes | extract_ChatGPT_memories.py:194 | Removes exactly the trailing run of `"` and `'` characters. |
| OutputName.StripQuotes | extract_ChatGPT_memories.py:194 | `strip('"\'')` returns a slice of the input with only quote characters cut off before and after it, and the result neither starts nor ends with a quote. |
| OutputName.StripQuotesIdempotent | extract_ChatGPT_memories.py:194 | Stripping quotes twice equals stripping them once. |
| OutputName.Basename | extract_ChatGPT_memories.py:202 | `basename` is the longest suffix without `/`: a suffix of the path with no `/` in it, preceded by `/` when it is not the whole path. |
| OutputName.SplitExt | extract_ChatGPT_memories.py:202 | `root + ext == path`. A non-empty `ext` starts with `.` and contains no other `.` or `/`. `ext` is non-empty exactly when the last component has a dot preceded by a non-dot character. |
| OutputName.SplitExtRootIsStem | extract_ChatGPT_memories.py:202 | The root of `splitext` is the path without its extension. It is the whole path when there is no extension; otherwise the path continues with `.` and no further dot. |
| OutputName.DefaultOutputName | extract_ChatGPT_memories.py:202-203 | The default name always ends with `_extracted_with_debug.txt`. |
| OutputName.DefaultOutputNameStem | extract_ChatGPT_memories.py:194-203 | Before the suffix, the default name is the basename of the quote-stripped path with its extension removed, and it contains no `/`. |

## Left out

- HTML reading and parsing with BeautifulSoup (lines 18-25, 43, 60-61, 65-66): a foreign library. Its `find`, `find_all` and `get_text` results are the given fields of `Block`.
- Unicode `str.lower()` (line 41): modelled on the ASCII range only. Other characters are left unchanged.
- Writing the report file, its static guidance text and the `datetime.now()` timestamp (lines 97-146): file output and wall-clock time. Only the three count lines are modelled, as functions of the list lengths.
- The report's text formatting (lines 104-146 outside the count lines, and the per-group lines 129-139): string output with no logic beyond the grouping, which is modelled.
- The second copy of the grouping loop (lines 155-160): the same code as lines 121-126, modelled once as `GroupByReason`.
- All console printing, the 60-character previews and the manual `count` over the raw HTML (lines 27-28, 149-175): console output.
- `input()`, including the `.strip()` of line 191, `os.path.exists`, the exception handlers that return `[]`, the custom output name of lines 206-208 and the `ImportError` check (lines 179-184, 191, 197-199, 206-208, 226-235): interactive and environment plumbing. `DefaultOutputName` starts from the typed line after `input().strip()`.
- `main`'s preview of the first three memories (lines 214-222): console output.
- Windows paths (`ntpath`: backslashes and drive letters): only the POSIX behaviour of `os.path.basename` and `os.path.splitext` is modelled.
- ExtractorProperties.MarkerCount: its own contract gives only the bound `c <= n`. That it counts marker blocks is stated by `RecordCounts` and `ExactlyOneRecordPerMarker`.
