/**
  Small runs of the reduction in `process_pdf`, showing what the code does in
  the cases where its behaviour is easy to misread.  Each run is split into a
  few small lemmas so that every step stays cheap to check.
*/
module Scenarios {

  import opened Strings
  import opened Types
  import opened Planning
  import opened Reduction

  /** An empty success between two texts is dropped from the joined text; its
      slot stays, empty, among the kept slots and counts for nothing. */
  lemma MidDocumentBlankDropped(a: string, c: string, pagesPerChunk: nat, totalPages: nat)
    requires IsJoinedText(Ok(a)) && IsJoinedText(Ok(c))
    ensures var report := ReportOf([Ok(a), Ok(""), Ok(c)], pagesPerChunk, totalPages);
      && report.slots == [a, "", c]
      && report.text == a + PageBreak + c
      && report.successCount == 2
      && report.failedRanges == []
      && report.totalChars == ByteLen(a) + ByteLen(c)
  {
    MidDocumentSlots(a, c, pagesPerChunk, totalPages);
    assert Joinable(a) && Joinable(c);
    MidDocumentPieces(a, c);
    AllOkNoFailures([Ok(a), Ok(""), Ok(c)], pagesPerChunk, totalPages);
    assert Join([a, c], PageBreak) == a + PageBreak + Join([c], PageBreak);
  }

  lemma MidDocumentSlots(a: string, c: string, pagesPerChunk: nat, totalPages: nat)
    requires HasContent(Ok(a)) && HasContent(Ok(c))
    ensures KeptSlots([Ok(a), Ok(""), Ok(c)], pagesPerChunk, totalPages) == [a, "", c]
  {
    MidDocumentAllSlots(a, c, pagesPerChunk, totalPages);
    assert LastContent([Ok(a), Ok(""), Ok(c)]) == 2;
  }

  lemma MidDocumentAllSlots(a: string, c: string, pagesPerChunk: nat, totalPages: nat)
    requires HasContent(Ok(a)) && HasContent(Ok(c))
    ensures Slots([Ok(a), Ok(""), Ok(c)], pagesPerChunk, totalPages) == [a, "", c]
  {
    var all := Slots([Ok(a), Ok(""), Ok(c)], pagesPerChunk, totalPages);
    assert SlotFor(0, Ok(a), pagesPerChunk, totalPages) == a;
    assert SlotFor(1, Ok(""), pagesPerChunk, totalPages) == "";
    assert SlotFor(2, Ok(c), pagesPerChunk, totalPages) == c;
    assert all[0] == a;
    assert all[1] == "";
    assert all[2] == c;
  }

  lemma MidDocumentPieces(a: string, c: string)
    requires Joinable(a) && Joinable(c)
    ensures Pieces([a, "", c]) == [a, c]
    ensures TotalBytes([a, "", c]) == ByteLen(a) + ByteLen(c)
  {
    var slots := [a, "", c];
    assert slots[1..] == ["", c];
    TwoSlots(c);
  }

  lemma TwoSlots(c: string)
    requires Joinable(c)
    ensures Pieces(["", c]) == [c]
    ensures TotalBytes(["", c]) == ByteLen(c)
  {
    assert ["", c][1..] == [c];
    SingleSlot(c);
  }

  /** A run in which every chunk succeeded reports no failed range. */
  lemma AllOkNoFailures(os: seq<Outcome>, pagesPerChunk: nat, totalPages: nat)
    requires forall o :: o in os ==> o.Ok?
    ensures FailedRanges(os, pagesPerChunk, totalPages) == []
  {
    NoFailedRangesIffAllOk(os, pagesPerChunk, totalPages);
  }

  /** A failure after the last text is truncated away, but its range is still
      reported as failed. */
  lemma TrailingFailureDropped(a: string, message: string, pagesPerChunk: nat, totalPages: nat)
    requires IsJoinedText(Ok(a))
    ensures var report := ReportOf([Ok(a), Err(message)], pagesPerChunk, totalPages);
      && report.slots == [a]
      && report.failedRanges == [ChunkRange(1, pagesPerChunk, totalPages)]
      && report.text == a
      && report.successCount == 1
      && report.totalChars == ByteLen(a)
  {
    TrailingFailureSlots(a, message, pagesPerChunk, totalPages);
    TrailingFailureRanges(a, message, pagesPerChunk, totalPages);
    SingleSlot(a);
  }

  lemma TrailingFailureSlots(a: string, message: string, pagesPerChunk: nat, totalPages: nat)
    requires HasContent(Ok(a))
    ensures KeptSlots([Ok(a), Err(message)], pagesPerChunk, totalPages) == [a]
  {
    var os := [Ok(a), Err(message)];
    var all := Slots(os, pagesPerChunk, totalPages);
    assert all[0] == a by {
      assert SlotFor(0, Ok(a), pagesPerChunk, totalPages) == a;
    }
    assert LastContent(os) == 0 by {
      assert !HasContent(os[1]);
      assert os[..1] == [Ok(a)];
    }
  }

  lemma TrailingFailureRanges(a: string, message: string, pagesPerChunk: nat, totalPages: nat)
    ensures FailedRanges([Ok(a), Err(message)], pagesPerChunk, totalPages)
            == [ChunkRange(1, pagesPerChunk, totalPages)]
  {
    var os := [Ok(a), Err(message)];
    assert FailedIndices(os) == [1] by {
      assert os[..1] == [Ok(a)] && [Ok(a)][..0] == [];
      assert FailedIndices([Ok(a)]) == [];
      assert FailedIndices(os) == FailedIndices(os[..1]) + [1];
    }
  }

  /** What the filter, the join and the byte count make of a single kept slot. */
  lemma SingleSlot(s: string)
    ensures Pieces([s]) == if Joinable(s) then [s] else []
    ensures Join(Pieces([s]), PageBreak) == if Joinable(s) then s else ""
    ensures TotalBytes([s]) == ByteLen(s)
  {
    assert [s][1..] == [];
  }

  /** A run in which no chunk produced text keeps one empty slot and returns
      the empty text. */
  lemma AllBlankKeepsOneSlot(os: seq<Outcome>, pagesPerChunk: nat, totalPages: nat)
    requires os != []
    requires forall o :: o in os ==> o.Ok? && !HasContent(o)
    ensures var report := ReportOf(os, pagesPerChunk, totalPages);
      && report.slots == [""]
      && report.text == ""
      && report.successCount == 0
      && report.failedRanges == []
      && report.totalChars == 0
  {
    assert os[0] in os;
    assert SlotFor(0, os[0], pagesPerChunk, totalPages) == "";
    assert LastContent(os) == 0;
    SingleSlot("");
    AllOkNoFailures(os, pagesPerChunk, totalPages);
  }

  /** A genuine text that begins with `[Pages` is taken for a failure
      placeholder: it is kept in the slots and counted in `total_chars`, but it
      is neither counted as a success nor part of the returned text. */
  lemma PagesPrefixedTextDropped(t: string, pagesPerChunk: nat, totalPages: nat)
    requires HasContent(Ok(t)) && StartsWith(t, FailureMarker)
    ensures var report := ReportOf([Ok(t)], pagesPerChunk, totalPages);
      && report.slots == [t]
      && report.failedRanges == []
      && report.text == ""
      && report.successCount == 0
      && report.totalChars == ByteLen(t)
  {
    SingleOutcomeKept(t, pagesPerChunk, totalPages);
    SingleSlot(t);
    AllOkNoFailures([Ok(t)], pagesPerChunk, totalPages);
  }

  /** A run of one chunk with content keeps its text as the only slot. */
  lemma SingleOutcomeKept(t: string, pagesPerChunk: nat, totalPages: nat)
    requires HasContent(Ok(t))
    ensures KeptSlots([Ok(t)], pagesPerChunk, totalPages) == [t]
  {
    var all := Slots([Ok(t)], pagesPerChunk, totalPages);
    assert SlotFor(0, Ok(t), pagesPerChunk, totalPages) == t;
    assert all[0] == t;
  }
}
