/**
  Page-range planning in `process_pdf` (src/lib.rs): the document's first
  `totalPages` pages are cut into ranges of `pagesPerChunk` pages, chunk `i`
  covering the 1-based, inclusive pages `i*ppc + 1 ..= min((i+1)*ppc, total)`.
  The source computes this range three times with the same expression: for the
  progress bars, for the dispatched extraction call, and for the report of a
  failed chunk.
*/
module Planning {

  import opened Arith

  /** An inclusive, 1-based page range `start ..= end`. */
  datatype PageRange = PageRange(start: nat, end: nat)

  predicate Covers(r: PageRange, page: nat) {
    r.start <= page <= r.end
  }

  /** `num_chunks = (total_pages + pages_per_chunk - 1) / pages_per_chunk`: the least
      number of chunks of `pagesPerChunk` pages that holds every page. */
  function NumChunks(totalPages: nat, pagesPerChunk: nat): (n: nat)
    requires pagesPerChunk >= 1
    ensures n * pagesPerChunk >= totalPages
    ensures n > 0 ==> (n - 1) * pagesPerChunk < totalPages
    ensures n == 0 <==> totalPages == 0
  {
    CeilDivBounds(totalPages, pagesPerChunk);
    (totalPages + pagesPerChunk - 1) / pagesPerChunk
  }

  /** The range of chunk `index`, as the source writes it. */
  function ChunkRange(index: nat, pagesPerChunk: nat, totalPages: nat): (r: PageRange)
    ensures r.start == index * pagesPerChunk + 1
    ensures r.end <= totalPages
    ensures r.end + 1 - r.start <= pagesPerChunk
    ensures r.end == totalPages || r.end + 1 - r.start == pagesPerChunk
  {
    PageRange(index * pagesPerChunk + 1, Min((index + 1) * pagesPerChunk, totalPages))
  }

  /** The ranges of chunks `0 .. num_chunks`, in index order. */
  function Plan(totalPages: nat, pagesPerChunk: nat): (plan: seq<PageRange>)
    requires pagesPerChunk >= 1
    ensures |plan| == NumChunks(totalPages, pagesPerChunk)
  {
    seq(NumChunks(totalPages, pagesPerChunk), (i: nat) => ChunkRange(i, pagesPerChunk, totalPages))
  }

  /** A planned chunk lies inside the document and is never empty. */
  lemma ChunkRangeWellFormed(index: nat, pagesPerChunk: nat, totalPages: nat)
    requires pagesPerChunk >= 1
    requires index < NumChunks(totalPages, pagesPerChunk)
    ensures 1 <= ChunkRange(index, pagesPerChunk, totalPages).start
    ensures ChunkRange(index, pagesPerChunk, totalPages).start
            <= ChunkRange(index, pagesPerChunk, totalPages).end <= totalPages
  {
    var n := NumChunks(totalPages, pagesPerChunk);
    MulMonotone(index, n - 1, pagesPerChunk);
    assert (index + 1) * pagesPerChunk == index * pagesPerChunk + pagesPerChunk;
  }

  /** The planned ranges tile `1 ..= totalPages`: they start at page 1, each one
      begins right after its predecessor ends, the last ends at `totalPages`,
      and every range but the last holds exactly `pagesPerChunk` pages. */
  lemma PlanTiles(totalPages: nat, pagesPerChunk: nat)
    requires pagesPerChunk >= 1
    ensures var plan := Plan(totalPages, pagesPerChunk);
      && (plan == [] <==> totalPages == 0)
      && (forall i :: 0 <= i < |plan| ==> 1 <= plan[i].start <= plan[i].end <= totalPages)
      && (plan != [] ==> plan[0].start == 1 && plan[|plan| - 1].end == totalPages)
      && (forall i :: 0 <= i < |plan| - 1 ==> plan[i].end + 1 == plan[i + 1].start)
      && (forall i :: 0 <= i < |plan| - 1 ==> plan[i].end - plan[i].start + 1 == pagesPerChunk)
  {
    var plan := Plan(totalPages, pagesPerChunk);
    var n := |plan|;
    forall i | 0 <= i < n
      ensures 1 <= plan[i].start <= plan[i].end <= totalPages
    {
      ChunkRangeWellFormed(i, pagesPerChunk, totalPages);
    }
    forall i | 0 <= i < n - 1
      ensures plan[i].end == (i + 1) * pagesPerChunk
      ensures plan[i].end + 1 == plan[i + 1].start
      ensures plan[i].end - plan[i].start + 1 == pagesPerChunk
    {
      MulMonotone(i + 1, n - 1, pagesPerChunk);
      assert (i + 1) * pagesPerChunk == i * pagesPerChunk + pagesPerChunk;
    }
  }

  /** Later chunks cover later pages. */
  lemma {:induction false} PlanIncreasing(totalPages: nat, pagesPerChunk: nat, i: nat, j: nat)
    requires pagesPerChunk >= 1
    requires i < j < NumChunks(totalPages, pagesPerChunk)
    ensures Plan(totalPages, pagesPerChunk)[i].end < Plan(totalPages, pagesPerChunk)[j].start
    decreases j - i
  {
    var plan := Plan(totalPages, pagesPerChunk);
    PlanTiles(totalPages, pagesPerChunk);
    if i + 1 < j {
      PlanIncreasing(totalPages, pagesPerChunk, i + 1, j);
    }
  }

  /** Every page of the document belongs to exactly one planned chunk, namely
      chunk `(page - 1) / pagesPerChunk`: no gap and no overlap. */
  lemma PageOwner(totalPages: nat, pagesPerChunk: nat, page: nat)
    requires pagesPerChunk >= 1
    requires 1 <= page <= totalPages
    ensures var plan := Plan(totalPages, pagesPerChunk);
      var owner := (page - 1) / pagesPerChunk;
      && owner < |plan|
      && Covers(plan[owner], page)
      && forall j :: 0 <= j < |plan| && Covers(plan[j], page) ==> j == owner
  {
    var plan := Plan(totalPages, pagesPerChunk);
    OwnerCovers(totalPages, pagesPerChunk, page);
    forall j | 0 <= j < |plan| && Covers(plan[j], page)
      ensures j == (page - 1) / pagesPerChunk
    {
      CoverIsOwner(totalPages, pagesPerChunk, page, j);
    }
  }

  /** Chunk `(page - 1) / pagesPerChunk` is planned and covers `page`. */
  lemma OwnerCovers(totalPages: nat, pagesPerChunk: nat, page: nat)
    requires pagesPerChunk >= 1
    requires 1 <= page <= totalPages
    ensures (page - 1) / pagesPerChunk < NumChunks(totalPages, pagesPerChunk)
    ensures Covers(ChunkRange((page - 1) / pagesPerChunk, pagesPerChunk, totalPages), page)
  {
    var n := NumChunks(totalPages, pagesPerChunk);
    var owner, r := (page - 1) / pagesPerChunk, (page - 1) % pagesPerChunk;
    assert page - 1 == owner * pagesPerChunk + r;
    assert (owner + 1) * pagesPerChunk == owner * pagesPerChunk + pagesPerChunk;
    if owner >= n {
      MulMonotone(n, owner, pagesPerChunk);
    }
  }

  /** A chunk that covers `page` is chunk `(page - 1) / pagesPerChunk`. */
  lemma CoverIsOwner(totalPages: nat, pagesPerChunk: nat, page: nat, j: nat)
    requires pagesPerChunk >= 1
    requires 1 <= page
    requires Covers(ChunkRange(j, pagesPerChunk, totalPages), page)
    ensures j == (page - 1) / pagesPerChunk
  {
    assert (j + 1) * pagesPerChunk == j * pagesPerChunk + pagesPerChunk;
    DivUnique(page - 1, pagesPerChunk, j, page - 1 - j * pagesPerChunk);
  }

  /** The configuration `process_pdf` hard-codes: 30 pages in chunks of 5. */
  lemma HardCodedPlan()
    ensures NumChunks(30, 5) == 6
    ensures Plan(30, 5)[5] == PageRange(26, 30)
  {
  }
}
