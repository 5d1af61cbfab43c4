# PDF page-range extraction pipeline, modelled in Dafny

The system extracts the text of a large PDF through a remote generative
service. `process_pdf` uploads the document once. It cuts the first
`total_pages` pages into ranges of `pages_per_chunk` pages. Each range is
sent to the service as its own task, and a task retries while the service
answers with a rate-limit error. The tasks are awaited in chunk order. The
outcomes go into one slot per chunk:

- a text with content is stored as it is;
- a blank text leaves the slot empty;
- a failure stores a `[Pages s-e failed to process]` placeholder and
  records the range.

The slots are then cut after the last chunk that produced text. The
statistics are computed from what is kept, and the texts are joined with a
page-break separator. `chunk_pdf` is a separate byte chunker: it cuts a
buffer into pieces of `chunk_size` bytes.

The model has these modules:

- `Arith`: the round-up division shared by both chunkers.
- `Strings`: the Rust string behaviour the pipeline depends on. This is
  `trim`, `contains`, `starts_with`, `len` as a UTF-8 byte count, decimal
  formatting and `join`.
- `Chunker`: `chunk_pdf`.
- `Planning`: the page-range arithmetic.
- `Types`: `Config` and a call's outcome.
- `Retry`: the per-chunk retry loop. It is a method, proved against a
  specification function.
- `Reduction`: the ordered reduction. It is a loop, proved to compute the
  specification functions, and those functions are then characterised by
  lemmas.
- `Pipeline`: the whole chunked run.
- `Scenarios`: small concrete runs.

The remote service is a parameter. `service(range)` is the sequence of
answers it gives to successive calls for that range.

Behaviour a reader might not expect, which the model keeps as the code has it:

- An empty success in the middle of the document is dropped from the
  joined text, like every other empty slot. For the outcomes `"A"`, `""`,
  `"C"` one might expect the empty text to appear between two
  separators; the code drops it and returns `"A"`, one separator, `"C"`.
  See `Scenarios.MidDocumentBlankDropped`.
- A chunk size of 0 is not rejected as an invalid configuration. The code
  hard-codes `pages_per_chunk = 5`, so the model requires it to be at
  least 1. `chunk_pdf` returns the whole buffer for size 0.
- Only errors whose text contains `RESOURCE_EXHAUSTED` are retried. Every
  other error, transport errors included, is never retried: the chunk ends
  with that error.
- There is no cancellation. Once the document is uploaded, the only early
  exit is a task that fails to join, which aborts the whole run.

## Model

| member | source | states |
|---|---|---|
| Arith.CeilDiv | src/lib.rs:48 | the rounded-up quotient is 0 exactly when the length is 0 |
| Arith.CeilDivBounds | src/lib.rs:48 | `(len + size - 1) / size` is the least number of `size`-sized pieces covering `len`, and it is 0 exactly when `len` is 0 |
| Arith.CeilDivStep | src/chunker.rs:6-8 | taking one full piece off a longer input lowers the piece count by exactly one |
| Strings.IsWhitespace | src/lib.rs:156 | `char::is_whitespace`: exactly the Unicode White_Space code points; among ASCII characters exactly space and tab through carriage return |
| Strings.TrimStart | src/lib.rs:156 | the result is a suffix of the input, everything removed is white space, and it starts with a non-white-space character |
| Strings.TrimEnd | src/lib.rs:156 | the result is a prefix of the input, everything removed is white space, and it ends with a non-white-space character |
| Strings.Trim | src/lib.rs:156 | `trim()` is empty exactly when every character is Unicode white space; otherwise both ends are non-white-space |
| Strings.StartsWith | src/lib.rs:177 | `str::starts_with`: the pattern is no longer than the text and equals its leading characters (the same test at src/lib.rs:186) |
| Strings.Contains | src/lib.rs:109 | a pattern at the start of the text is found, and a pattern longer than the text never is |
| Strings.ContainsIffOccurs | src/lib.rs:109 | the `contains` scan succeeds exactly when the pattern occurs at some offset |
| Strings.Utf8Width | src/lib.rs:179 | every character takes 1 to 4 UTF-8 bytes, and exactly 1 when it is ASCII |
| Strings.ByteLen | src/lib.rs:179 | `String::len` lies between the character count and four times that, and equals the character count exactly for ASCII text |
| Strings.ByteLenConcat | src/lib.rs:179 | byte length is additive over concatenation |
| Strings.TotalBytes | src/lib.rs:179 | the sum over no strings is 0, and the sum is at least the byte length of each string |
| Strings.TotalBytesConcat | src/lib.rs:179 | the summed byte length of a list is additive over list concatenation |
| Strings.NatToString | src/lib.rs:166 | a page number is rendered as a non-empty string of decimal digits with no leading zero |
| Strings.NatToStringRoundTrip | src/lib.rs:166 | reading the rendered digits back gives the number |
| Strings.JoinByteLen | src/lib.rs:188 | the joined text's byte length is the sum of the pieces' lengths plus one separator per gap |
| Strings.Join | src/lib.rs:188 | joining no pieces gives the empty string, and otherwise the result begins with the first piece |
| Chunker.Chunks | src/chunker.rs:6-8 | `chunks(size)` gives `ceil(len/size)` pieces, each of 1 to `size` bytes, all but the last exactly `size` |
| Chunker.ChunkPdf | src/chunker.rs:1-9 | concatenating the pieces gives back the input for every chunk size; for a positive size the count and piece lengths are as for `chunks` |
| Chunker.ChunksRoundTrip | src/chunker.rs:6-8 | the pieces concatenate to the input |
| Chunker.ChunkAt | src/chunker.rs:6-8 | piece `i` is exactly bytes `i*size .. min((i+1)*size, len)` of the input |
| Chunker.ZeroSizeIsWhole | src/chunker.rs:2-4 | size 0 returns the whole input as a single piece |
| Chunker.LargeSizeIsWhole | src/chunker.rs:47-53 | a non-empty input no longer than the size comes back as one piece |
| Chunker.EmptyInputNoPieces | src/chunker.rs:6-8 | an empty input with a positive size gives no pieces |
| Chunker.ExactChunks | src/chunker.rs:16-24 | `[1..6]` by 2 gives `[1,2],[3,4],[5,6]` |
| Chunker.UnevenChunks | src/chunker.rs:27-35 | `[1..5]` by 2 gives `[1,2],[3,4],[5]` |
| Chunker.ThousandBytesByHundred | src/lib.rs:198-202 | 1000 bytes by 100 give 10 pieces |
| Planning.NumChunks | src/lib.rs:48 | `num_chunks` is the least chunk count that covers every page, and it is 0 exactly for an empty document |
| Planning.ChunkRange | src/lib.rs:60-61 | chunk `i` starts at page `i * pages_per_chunk + 1`, ends at or before `total_pages`, and holds at most `pages_per_chunk` pages, exactly that many unless it ends at `total_pages`; the same formula gives the dispatched range (src/lib.rs:75-76) and the range recorded for a failure (src/lib.rs:162-163) |
| Planning.Plan | src/lib.rs:58-64 | one page range per chunk |
| Planning.ChunkRangeWellFormed | src/lib.rs:75-76 | every dispatched range satisfies `1 <= start <= end <= total_pages` |
| Planning.PlanTiles | src/lib.rs:58-64 | the ranges tile `1..=total_pages`: first starts at 1, each starts right after its predecessor, last ends at `total_pages`, all but the last hold `pages_per_chunk` pages, and there are none for 0 pages |
| Planning.PlanIncreasing | src/lib.rs:60-61 | later chunks cover strictly later pages |
| Planning.PageOwner | src/lib.rs:70-76 | every page lies in exactly one range, that of chunk `(page-1)/pages_per_chunk` |
| Planning.HardCodedPlan | src/lib.rs:46-48 | the hard-coded 30 pages by 5 give 6 chunks, the last covering pages 26-30 |
| Retry.IsRateLimited | src/lib.rs:107-109 | an answer is retried exactly when it is an error whose text contains `RESOURCE_EXHAUSTED` at some offset |
| Retry.CallsFrom | src/lib.rs:107-123 | from call `k` on, the loop continues only past rate-limit errors and stops by the fourth call |
| Retry.CallsMade | src/lib.rs:101-123 | a chunk makes 1 to 4 calls; every call but the last got a rate-limit error; fewer than 4 calls means the last answer was not a rate-limit error |
| Retry.FinalOutcome | src/lib.rs:101-123 | the chunk's outcome is one of the first four answers, and it is a rate-limit error only when all four were |
| Retry.ExtractWithRetry | src/lib.rs:101-123 | the loop makes exactly `CallsMade` calls, ends with the last answer, and leaves `retries` at 3 minus the extra calls |
| Retry.NonRateLimitErrorStops | src/lib.rs:107-121 | an error without `RESOURCE_EXHAUSTED`, at whatever call after rate-limit errors it comes, is never retried: the chunk makes exactly that many calls and ends with that error |
| Retry.StopsAtFirstSuccess | src/lib.rs:107 | a success after rate-limit errors ends the calls there and is the chunk's outcome |
| Retry.AlwaysRateLimitedUsesAllCalls | src/lib.rs:101-118 | a service that keeps rate-limiting is called 4 times and the chunk fails |
| Reduction.HasContentIsTrim | src/lib.rs:156 | a slot is filled exactly for a success whose trimmed text is not empty |
| Reduction.Placeholder | src/lib.rs:166 | a failure placeholder always starts with `[Pages` |
| Reduction.SlotFor | src/lib.rs:154-168 | a chunk's slot is empty exactly for a blank success, holds the text for a success with content, and holds the placeholder of its own range for a failure |
| Reduction.Slots | src/lib.rs:148 | one slot per chunk |
| Reduction.LastContent | src/lib.rs:150-159 | `last_non_empty_chunk` is the greatest index of a success with content, or 0 when there is none |
| Reduction.LastContentSnoc | src/lib.rs:156-158 | awaiting one more outcome moves the mark to it exactly when it has content |
| Reduction.FailedIndices | src/lib.rs:161-164 | the recorded indices are exactly the failed chunks, in strictly increasing order |
| Reduction.FailedRangesSnoc | src/lib.rs:161-164 | awaiting one more outcome appends its range exactly when it failed |
| Reduction.FailedRanges | src/lib.rs:149-164 | one range per failed chunk |
| Reduction.NoFailedRangesIffAllOk | src/lib.rs:161-164 | no range is reported exactly when every chunk succeeded |
| Reduction.Truncate | src/lib.rs:172 | `truncate` keeps the first `min(len, length)` elements unchanged |
| Reduction.KeptSlots | src/lib.rs:172 | the kept slots are the first `last_non_empty_chunk + 1` slots, none when there are no chunks |
| Reduction.Joinable | src/lib.rs:177 | a slot passes the filter exactly when its byte length is not 0 and it does not start with `[Pages`; the join uses the same filter (src/lib.rs:186) |
| Reduction.Pieces | src/lib.rs:184-187 | the filter keeps exactly the slots that are non-empty and do not start with `[Pages` |
| Reduction.Outcomes | src/lib.rs:152-153 | the awaited outcomes, one per task, in task order |
| Reduction.Pending | src/lib.rs:148 | `results` has one entry per task throughout the collection |
| Reduction.PendingStep | src/lib.rs:154-168 | awaiting one task changes only its own slot: placeholder on failure, text on content, nothing for a blank success |
| Reduction.Record | src/lib.rs:154-168 | recording the next chunk's outcome leaves `results`, `failed_ranges` and `last_non_empty_chunk` equal to their specification functions extended by that outcome |
| Reduction.Collect | src/lib.rs:148-169 | the loop aborts exactly on a join error; otherwise it leaves `results`, `failed_ranges` and `last_non_empty_chunk` equal to their specification functions |
| Reduction.Reduce | src/lib.rs:148-188 | the run aborts exactly when a task fails to join; otherwise its text, kept slots, failed ranges, success count and `total_chars` are those of `ReportOf` for the outcomes |
| Reduction.KeptSlotsShape | src/lib.rs:172 | the kept slots are the first `last_non_empty_chunk + 1` slots, and a run without any text keeps exactly one |
| Reduction.DroppedFailureStillReported | src/lib.rs:161-172 | a failure after the last text loses its placeholder to truncation, but its range stays in `failed_ranges` |
| Reduction.FailedRangesMatchPlan | src/lib.rs:162-163 | a reported range is the range its chunk was dispatched with, and reports come in increasing page order |
| Reduction.JoinableSlot | src/lib.rs:177 | a slot passes the output filter exactly when its chunk's text has content and does not start with `[Pages` |
| Reduction.PiecesConcat | src/lib.rs:184-187 | filtering distributes over concatenation |
| Reduction.PiecesOfSlots | src/lib.rs:184-187 | the filtered slots are the extracted texts in chunk order |
| Reduction.TruncationKeepsPieces | src/lib.rs:172-186 | truncation never removes a text from the output |
| Reduction.TotalBytesSplit | src/lib.rs:179 | the byte total of the slots is that of the joined texts plus that of the placeholder-like slots |
| Reduction.ReportOf | src/lib.rs:148-188 | the returned text is the extracted texts joined by the page break; `success_count` is their number, at most the kept slots, at most the chunks; `total_chars` counts the joined texts and also every kept placeholder; no range is reported failed exactly when every chunk succeeded |
| Pipeline.ChunkOutcomes | src/lib.rs:70-145 | every planned chunk ends with exactly one outcome |
| Pipeline.ProcessPdf | src/lib.rs:45-190 | with the service's answers fixed, the run completes with the report of the chunks' final outcomes over the planned ranges |
| Scenarios.MidDocumentBlankDropped | src/lib.rs:154-188 | for texts `a`, `""`, `c` the slots keep the empty middle, but the text is `a` + page break + `c` with success count 2 |
| Scenarios.MidDocumentSlots | src/lib.rs:154-172 | the three slots are kept as `a`, `""`, `c` |
| Scenarios.MidDocumentPieces | src/lib.rs:175-187 | the empty slot is filtered out and adds no bytes |
| Scenarios.AllOkNoFailures | src/lib.rs:161-164 | a run without failures reports no failed range |
| Scenarios.TrailingFailureDropped | src/lib.rs:161-188 | a failure after the only text is cut from the slots and the text but still reported as failed |
| Scenarios.TrailingFailureSlots | src/lib.rs:150-172 | the trailing placeholder is truncated away |
| Scenarios.TrailingFailureRanges | src/lib.rs:161-164 | the trailing failure's range is the one reported |
| Scenarios.SingleSlot | src/lib.rs:175-188 | for one kept slot, the filter, join and byte count give the slot or nothing |
| Scenarios.AllBlankKeepsOneSlot | src/lib.rs:148-188 | a run of only blank successes returns the empty text, one empty slot, and all figures 0 |
| Scenarios.PagesPrefixedTextDropped | src/lib.rs:175-188 | a genuine text starting with `[Pages` is kept and counted in `total_chars`, but is not a success and not in the text |

## Left out

- Reading the PDF, uploading it, and creating the client are left out. So are the `?` errors they return. `pdf_reader.rs` and the client's upload are not part of this model.
- The body of `extract_page_range` is not part of this model. Its answers are the `service` parameter. `gemini_client.rs` is not part of this model.
- Concurrency is left out: the two-permit semaphore, `tokio::spawn`, and the mutex-guarded progress bars. With the answers fixed, the outcomes do not depend on the order in which tasks run, so the chunks run one after another.
- The six-second pacing sleep is left out, and so is the simulated upload progress.
- The 30-second cooldown that `print_rate_limit_warning` sleeps before each retry (src/ui.rs:316-319) is left out; it changes timing only, not which answer a call gets.
- All console and progress output is left out. This covers `ui.rs`, `eprintln!` and `print_final_summary`. `total_chars`, `success_count` and `failed_ranges` are kept as report fields.
- `main.rs` (argument parsing, writing the output file) is not part of this model.
- Retry.ExtractWithRetry: requires at least four answers per range, so that the oracle never runs out. The loop makes at most four calls.
- Retry.FinalOutcome: requires at least four answers, for the same reason.
- Planning.NumChunks: requires `pages_per_chunk >= 1`. The source fixes it at 5, and 0 would make its division panic.
- Integer width: `usize` arithmetic is modelled with unbounded naturals. The source's values (30 pages, 5 per chunk) are far from overflow.
- Text content: a failed call's error is kept only as its `to_string()` text. Error kinds other than "contains `RESOURCE_EXHAUSTED`" are not told apart, because the code does not tell them apart.
- `Config.chunk_size` is not read by `process_pdf`, and `Config.api_key` only reaches the client. `Config` is plain data.
