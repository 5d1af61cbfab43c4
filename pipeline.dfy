/**
  The chunked part of `process_pdf` (src/lib.rs), end to end: plan the page
  ranges, run every chunk through the retry loop, await the chunk tasks in
  index order and reduce their outcomes.

  The remote service is a parameter: `service(range)` is the sequence of
  responses it gives to successive `extract_page_range` calls for `range`.
  Concurrency (the two-permit semaphore, spawned tasks), the pacing sleep and
  the progress display do not change any outcome once the responses are fixed,
  so the chunks are run one after the other here.
*/
module Pipeline {

  import opened Types
  import opened Planning
  import opened Retry
  import opened Reduction

  /** The outcome every chunk ends with, in index order. */
  function ChunkOutcomes(service: PageRange -> seq<Outcome>, totalPages: nat, pagesPerChunk: nat): (os: seq<Outcome>)
    requires pagesPerChunk >= 1
    requires forall range :: MaxCalls <= |service(range)|
    ensures |os| == NumChunks(totalPages, pagesPerChunk)
  {
    var plan := Plan(totalPages, pagesPerChunk);
    seq(|plan|, (i: nat) requires i < |plan| => FinalOutcome(service(plan[i])))
  }

  /** src/lib.rs:45-190, `process_pdf`, with the page count and the chunk size as
      parameters (the source fixes them at 30 and 5).  `config` only reaches the
      remote client. */
  method ProcessPdf(config: Config, service: PageRange -> seq<Outcome>, totalPages: nat, pagesPerChunk: nat)
    returns (r: RunResult)
    requires pagesPerChunk >= 1
    requires forall range :: MaxCalls <= |service(range)|
    ensures r == Completed(ReportOf(ChunkOutcomes(service, totalPages, pagesPerChunk), pagesPerChunk, totalPages))
  {
    var numChunks := NumChunks(totalPages, pagesPerChunk);
    ghost var plan := Plan(totalPages, pagesPerChunk);
    var tasks: seq<TaskResult> := [];
    var chunkIdx := 0;
    while chunkIdx < numChunks
      invariant 0 <= chunkIdx <= numChunks
      invariant |tasks| == chunkIdx
      invariant forall j :: 0 <= j < chunkIdx ==> tasks[j] == Joined(j, FinalOutcome(service(plan[j])))
    {
      var range := ChunkRange(chunkIdx, pagesPerChunk, totalPages);
      var result, calls, retries := ExtractWithRetry(service(range));
      tasks := tasks + [Joined(chunkIdx, result)];
      chunkIdx := chunkIdx + 1;
    }
    r := Reduce(tasks, pagesPerChunk, totalPages);
    assert Outcomes(tasks) == ChunkOutcomes(service, totalPages, pagesPerChunk);
  }
}
