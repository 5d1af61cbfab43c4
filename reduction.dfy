/**
  The reduction at the end of `process_pdf` (src/lib.rs): the chunk tasks are
  awaited in index order, each outcome is written into the slot of its chunk
  (blank text leaves the slot empty, a failure writes a placeholder and records
  the chunk's page range), the slots are cut after the last chunk that produced
  text, and the statistics and the final text are computed from what is kept.

  The specification functions (`SlotFor`, `Slots`, `LastContent`,
  `FailedRanges`, `KeptSlots`, `ReportOf`) state what the reduction produces;
  `Reduce` is the loop itself, proved to produce exactly that.
*/
module Reduction {

  import opened Arith
  import opened Strings
  import opened Types
  import opened Planning

  /** The separator placed between the kept texts. */
  const PageBreak: string := "\n\n--- Page Break ---\n\n"
  /** The prefix by which the statistics and the join recognise a failure placeholder. */
  const FailureMarker: string := "[Pages"

  /** What awaiting one spawned task gives: the chunk index it was spawned with and
      its outcome, or a `JoinError` (the task panicked or was cancelled). */
  datatype TaskResult = Joined(index: nat, outcome: Outcome) | JoinError

  /** What `process_pdf` computes from the outcomes: the returned text and the
      figures it hands to the final summary. `slots` is `results` after truncation. */
  datatype Report = Report(
    text: string,
    slots: seq<string>,
    failedRanges: seq<PageRange>,
    numChunks: nat,
    successCount: nat,
    totalChars: nat)

  /** A completed run, or the run-level error that `task.await?` propagates. */
  datatype RunResult = Completed(report: Report) | Aborted

  /** A success whose text is not blank (`!text.trim().is_empty()`, see `Trim`). */
  predicate HasContent(o: Outcome)
  {
    o.Ok? && !IsBlank(o.text)
  }

  /** `HasContent` is the test of src/lib.rs:156: the trimmed text is not empty. */
  lemma HasContentIsTrim(o: Outcome)
    ensures HasContent(o) <==> o.Ok? && Trim(o.text) != ""
  {
  }

  /** A success that ends up in the final text: not blank, and not mistaken for a
      placeholder because it happens to begin with `[Pages`. */
  predicate IsJoinedText(o: Outcome) {
    HasContent(o) && !StartsWith(o.text, FailureMarker)
  }

  /** `format!("[Pages {}-{} failed to process]", start, end)`. */
  function Placeholder(r: PageRange): (s: string)
    ensures StartsWith(s, FailureMarker)
  {
    "[Pages " + NatToString(r.start) + "-" + NatToString(r.end) + " failed to process]"
  }

  /** The slot chunk `index` leaves in `results` once its outcome is known. */
  function SlotFor(index: nat, o: Outcome, pagesPerChunk: nat, totalPages: nat): (slot: string)
    ensures slot == "" <==> o.Ok? && !HasContent(o)
    ensures HasContent(o) ==> slot == o.text
    ensures o.Err? ==> slot == Placeholder(ChunkRange(index, pagesPerChunk, totalPages))
  {
    match o
    case Ok(text) => if HasContent(o) then text else ""
    case Err(_) => Placeholder(ChunkRange(index, pagesPerChunk, totalPages))
  }

  /** `results` after every task has been awaited, before truncation. */
  function Slots(os: seq<Outcome>, pagesPerChunk: nat, totalPages: nat): (slots: seq<string>)
    ensures |slots| == |os|
  {
    seq(|os|, (i: nat) requires i < |os| => SlotFor(i, os[i], pagesPerChunk, totalPages))
  }

  /** `last_non_empty_chunk`: the largest index of a success with content, or 0
      when there is none. */
  function LastContent(os: seq<Outcome>): (last: nat)
    ensures os == [] ==> last == 0
    ensures os != [] ==> last < |os|
    ensures forall j :: last < j < |os| ==> !HasContent(os[j])
    ensures last > 0 ==> HasContent(os[last])
    ensures (exists j :: 0 <= j < |os| && HasContent(os[j])) ==> HasContent(os[last])
  {
    if os == [] then 0
    else if HasContent(os[|os| - 1]) then |os| - 1
    else
      var prefix := os[..|os| - 1];
      assert forall i :: 0 <= i < |prefix| ==> prefix[i] == os[i];
      LastContent(prefix)
  }

  lemma LastContentSnoc(os: seq<Outcome>, o: Outcome)
    ensures LastContent(os + [o]) == if HasContent(o) then |os| else LastContent(os)
  {
    assert (os + [o])[..|os|] == os;
  }

  /** The indices of the failed chunks, in increasing order. */
  function FailedIndices(os: seq<Outcome>): (fi: seq<nat>)
    ensures forall k :: 0 <= k < |fi| ==> fi[k] < |os| && os[fi[k]].Err?
    ensures forall k, l :: 0 <= k < l < |fi| ==> fi[k] < fi[l]
    ensures forall i :: 0 <= i < |os| && os[i].Err? ==> i in fi
  {
    if os == [] then []
    else
      var n := |os| - 1;
      var prefix := os[..n];
      assert forall i :: 0 <= i < n ==> prefix[i] == os[i];
      FailedIndices(prefix) + (if os[n].Err? then [n] else [])
  }

  lemma FailedRangesSnoc(os: seq<Outcome>, o: Outcome, pagesPerChunk: nat, totalPages: nat)
    ensures FailedRanges(os + [o], pagesPerChunk, totalPages)
            == FailedRanges(os, pagesPerChunk, totalPages)
               + (if o.Err? then [ChunkRange(|os|, pagesPerChunk, totalPages)] else [])
  {
    assert (os + [o])[..|os|] == os;
    assert FailedIndices(os + [o]) == FailedIndices(os) + (if o.Err? then [|os|] else []);
  }

  /** No range is reported as failed exactly when every chunk succeeded. */
  lemma NoFailedRangesIffAllOk(os: seq<Outcome>, pagesPerChunk: nat, totalPages: nat)
    ensures FailedRanges(os, pagesPerChunk, totalPages) == [] <==> forall o :: o in os ==> o.Ok?
  {
    var fi := FailedIndices(os);
    if fi != [] {
      assert os[fi[0]] in os && os[fi[0]].Err?;
    } else {
      forall o | o in os
        ensures o.Ok?
      {
        var i :| 0 <= i < |os| && os[i] == o;
        assert i !in fi;
      }
    }
  }

  /** `failed_ranges`: the page range of every failed chunk, in index order. */
  function FailedRanges(os: seq<Outcome>, pagesPerChunk: nat, totalPages: nat): (ranges: seq<PageRange>)
    ensures |ranges| == |FailedIndices(os)|
  {
    var fi := FailedIndices(os);
    seq(|fi|, (k: nat) requires k < |fi| => ChunkRange(fi[k], pagesPerChunk, totalPages))
  }

  /** `Vec::truncate(len)`: keeps the first `len` elements; a no-op when `len`
      is at least the length. */
  function Truncate<T>(s: seq<T>, len: nat): (r: seq<T>)
    ensures |r| == Min(len, |s|)
    ensures r == s[..|r|]
  {
    if len < |s| then s[..len] else s
  }

  /** `results` after `truncate(last_non_empty_chunk + 1)`. */
  function KeptSlots(os: seq<Outcome>, pagesPerChunk: nat, totalPages: nat): (kept: seq<string>)
    ensures |kept| == if os == [] then 0 else LastContent(os) + 1
    ensures kept == Slots(os, pagesPerChunk, totalPages)[..|kept|]
  {
    Truncate(Slots(os, pagesPerChunk, totalPages), LastContent(os) + 1)
  }

  /** The filter of src/lib.rs:177 and 186: not empty and not starting with `[Pages`. */
  predicate Joinable(s: string)
    ensures Joinable(s) <==> ByteLen(s) != 0 && !StartsWith(s, FailureMarker)
  {
    s != "" && !StartsWith(s, FailureMarker)
  }

  /** The slots that pass the filter, in order. */
  function Pieces(slots: seq<string>): (ps: seq<string>)
    ensures |ps| <= |slots|
    ensures forall p :: p in ps ==> p in slots && Joinable(p)
    ensures forall s :: s in slots && Joinable(s) ==> s in ps
  {
    if slots == [] then []
    else (if Joinable(slots[0]) then [slots[0]] else []) + Pieces(slots[1..])
  }

  /** The slots that hold a failure placeholder (or anything starting like one). */
  function Markers(slots: seq<string>): seq<string>
  {
    if slots == [] then []
    else (if StartsWith(slots[0], FailureMarker) then [slots[0]] else []) + Markers(slots[1..])
  }

  /** Everything `process_pdf` computes once the outcomes of all chunks are known. */
  function ReportOf(os: seq<Outcome>, pagesPerChunk: nat, totalPages: nat): (r: Report)
    ensures r.text == Join(Extracted(os), PageBreak)
    ensures r.successCount == |Extracted(os)| <= |r.slots| <= |os| == r.numChunks
    ensures r.totalChars == TotalBytes(Extracted(os)) + TotalBytes(Markers(r.slots))
    ensures r.failedRanges == [] <==> forall o :: o in os ==> o.Ok?
  {
    TruncationKeepsPieces(os, pagesPerChunk, totalPages);
    PiecesOfSlots(os, pagesPerChunk, totalPages);
    TotalBytesSplit(KeptSlots(os, pagesPerChunk, totalPages));
    NoFailedRangesIffAllOk(os, pagesPerChunk, totalPages);
    var kept := KeptSlots(os, pagesPerChunk, totalPages);
    var pieces := Pieces(kept);
    Report(Join(pieces, PageBreak), kept, FailedRanges(os, pagesPerChunk, totalPages),
           |os|, |pieces|, TotalBytes(kept))
  }

  predicate AllJoined(tasks: seq<TaskResult>) {
    forall i :: 0 <= i < |tasks| ==> tasks[i].Joined?
  }

  /** The outcomes of the tasks, in the order they are awaited. */
  function Outcomes(tasks: seq<TaskResult>): (os: seq<Outcome>)
    requires AllJoined(tasks)
    ensures |os| == |tasks|
    ensures forall i :: 0 <= i < |tasks| ==> os[i] == tasks[i].outcome
  {
    seq(|tasks|, (i: nat) requires i < |tasks| => tasks[i].outcome)
  }

  /** `results` while the tasks are awaited: the slots of the chunks seen so far,
      then the initial empty strings. */
  function Pending(seen: seq<Outcome>, n: nat, pagesPerChunk: nat, totalPages: nat): (results: seq<string>)
    requires |seen| <= n
    ensures |results| == n
  {
    Slots(seen, pagesPerChunk, totalPages) + seq(n - |seen|, _ => "")
  }

  /** Awaiting one more task updates `results` exactly as `Pending` says. */
  lemma PendingStep(seen: seq<Outcome>, o: Outcome, n: nat, pagesPerChunk: nat, totalPages: nat)
    requires |seen| < n
    ensures var i := |seen|;
      var results := Pending(seen, n, pagesPerChunk, totalPages);
      Pending(seen + [o], n, pagesPerChunk, totalPages)
      == if o.Err? then results[i := Placeholder(ChunkRange(i, pagesPerChunk, totalPages))]
         else if HasContent(o) then results[i := o.text]
         else results
  {
    var done := Slots(seen, pagesPerChunk, totalPages);
    var slot := SlotFor(|seen|, o, pagesPerChunk, totalPages);
    SlotsSnoc(seen, o, pagesPerChunk, totalPages);
    FillFirstBlank(done, slot, n - |seen| - 1);
  }

  /** Writing `x` into the first blank after `done` is appending `x` to `done`;
      writing a blank changes nothing. */
  lemma FillFirstBlank(done: seq<string>, x: string, m: nat)
    ensures (done + seq(m + 1, _ => ""))[|done| := x] == done + [x] + seq(m, _ => "")
    ensures done + [""] + seq(m, _ => "") == done + seq(m + 1, _ => "")
  {
    var lhs := (done + seq(m + 1, _ => ""))[|done| := x];
    var rhs := done + [x] + seq(m, _ => "");
    assert forall j :: 0 <= j < |lhs| ==> lhs[j] == rhs[j];
    var blanks := done + seq(m + 1, _ => "");
    assert forall j :: 0 <= j < |blanks| ==> (done + [""] + seq(m, _ => ""))[j] == blanks[j];
  }

  /** src/lib.rs:154-168: record the outcome of chunk `index`, the next one in order,
      in `results`, `failed_ranges` and `last_non_empty_chunk`. */
  method Record(index: nat, outcome: Outcome, results: seq<string>, failedRanges: seq<PageRange>,
                lastNonEmpty: nat, ghost seen: seq<Outcome>, n: nat, pagesPerChunk: nat, totalPages: nat)
    returns (results': seq<string>, failedRanges': seq<PageRange>, lastNonEmpty': nat)
    requires index == |seen| < n
    requires results == Pending(seen, n, pagesPerChunk, totalPages)
    requires failedRanges == FailedRanges(seen, pagesPerChunk, totalPages)
    requires lastNonEmpty == LastContent(seen)
    ensures results' == Pending(seen + [outcome], n, pagesPerChunk, totalPages)
    ensures failedRanges' == FailedRanges(seen + [outcome], pagesPerChunk, totalPages)
    ensures lastNonEmpty' == LastContent(seen + [outcome])
  {
    PendingStep(seen, outcome, n, pagesPerChunk, totalPages);
    LastContentSnoc(seen, outcome);
    FailedRangesSnoc(seen, outcome, pagesPerChunk, totalPages);
    results', failedRanges', lastNonEmpty' := results, failedRanges, lastNonEmpty;
    match outcome {
      case Ok(text) =>
        if Trim(text) != "" {
          results' := results[index := text];
          lastNonEmpty' := index;
        }
      case Err(_) =>
        var range := ChunkRange(index, pagesPerChunk, totalPages);
        failedRanges' := failedRanges + [range];
        results' := results[index := Placeholder(range)];
    }
  }

  /** src/lib.rs:148-169: await the tasks in index order and fill `results`,
      `failed_ranges` and `last_non_empty_chunk`.  The first `JoinError` stops
      the collection (`task.await?` returns it from `process_pdf`). */
  method Collect(tasks: seq<TaskResult>, pagesPerChunk: nat, totalPages: nat)
    returns (aborted: bool, results: seq<string>, failedRanges: seq<PageRange>, lastNonEmpty: nat)
    requires forall i :: 0 <= i < |tasks| && tasks[i].Joined? ==> tasks[i].index == i
    ensures aborted <==> exists i :: 0 <= i < |tasks| && tasks[i].JoinError?
    ensures !aborted ==> AllJoined(tasks)
    ensures !aborted ==> results == Slots(Outcomes(tasks), pagesPerChunk, totalPages)
    ensures !aborted ==> failedRanges == FailedRanges(Outcomes(tasks), pagesPerChunk, totalPages)
    ensures !aborted ==> lastNonEmpty == LastContent(Outcomes(tasks))
  {
    var n := |tasks|;
    results := seq(n, _ => "");
    failedRanges := [];
    lastNonEmpty := 0;
    ghost var seen: seq<Outcome> := [];
    assert results == Pending(seen, n, pagesPerChunk, totalPages);
    var i := 0;
    while i < n
      invariant 0 <= i <= n
      invariant |seen| == i
      invariant forall j :: 0 <= j < i ==> tasks[j].Joined? && seen[j] == tasks[j].outcome
      invariant results == Pending(seen, n, pagesPerChunk, totalPages)
      invariant failedRanges == FailedRanges(seen, pagesPerChunk, totalPages)
      invariant lastNonEmpty == LastContent(seen)
    {
      match tasks[i] {
        case JoinError =>
          return true, results, failedRanges, lastNonEmpty;
        case Joined(index, outcome) =>
          results, failedRanges, lastNonEmpty :=
            Record(index, outcome, results, failedRanges, lastNonEmpty, seen, n, pagesPerChunk, totalPages);
          seen := seen + [outcome];
      }
      i := i + 1;
    }
    assert seen == Outcomes(tasks);
    aborted := false;
  }

  /** src/lib.rs:148-188: collect the outcomes, then truncate after the last chunk
      with content, count and measure what is kept, and join it. */
  method Reduce(tasks: seq<TaskResult>, pagesPerChunk: nat, totalPages: nat) returns (r: RunResult)
    requires pagesPerChunk >= 1
    requires |tasks| == NumChunks(totalPages, pagesPerChunk)
    requires forall i :: 0 <= i < |tasks| && tasks[i].Joined? ==> tasks[i].index == i
    ensures r.Aborted? <==> exists i :: 0 <= i < |tasks| && tasks[i].JoinError?
    ensures r.Completed? ==> AllJoined(tasks)
    ensures r.Completed? ==> r.report == ReportOf(Outcomes(tasks), pagesPerChunk, totalPages)
  {
    var aborted, results, failedRanges, lastNonEmpty := Collect(tasks, pagesPerChunk, totalPages);
    if aborted {
      return Aborted;
    }
    results := Truncate(results, lastNonEmpty + 1);
    var successCount := |Pieces(results)|;
    var totalChars := TotalBytes(results);
    var text := Join(Pieces(results), PageBreak);
    r := Completed(Report(text, results, failedRanges, |tasks|, successCount, totalChars));
  }

  // Properties of the reduction

  /** The kept slots are the first `last_non_empty_chunk + 1` slots (all of them when
      there are fewer chunks); in particular a run without any text keeps one slot. */
  lemma KeptSlotsShape(os: seq<Outcome>, pagesPerChunk: nat, totalPages: nat)
    ensures var kept := KeptSlots(os, pagesPerChunk, totalPages);
      && |kept| == (if os == [] then 0 else LastContent(os) + 1)
      && (forall j :: 0 <= j < |kept| ==> kept[j] == SlotFor(j, os[j], pagesPerChunk, totalPages))
      && (os != [] && (forall j :: 0 <= j < |os| ==> !HasContent(os[j])) ==> |kept| == 1)
  {
  }

  /** A failure after the last chunk with content loses its placeholder to the
      truncation, yet its page range is still in `failed_ranges`. */
  lemma DroppedFailureStillReported(os: seq<Outcome>, pagesPerChunk: nat, totalPages: nat, i: nat)
    requires i < |os| && os[i].Err?
    ensures ChunkRange(i, pagesPerChunk, totalPages) in FailedRanges(os, pagesPerChunk, totalPages)
    ensures i > LastContent(os) ==> i >= |KeptSlots(os, pagesPerChunk, totalPages)|
  {
    var fi := FailedIndices(os);
    var k :| 0 <= k < |fi| && fi[k] == i;
    assert FailedRanges(os, pagesPerChunk, totalPages)[k] == ChunkRange(i, pagesPerChunk, totalPages);
  }

  /** The range reported for a failed chunk is the range that chunk was dispatched
      with, and the reports come in increasing chunk order. */
  lemma FailedRangesMatchPlan(os: seq<Outcome>, pagesPerChunk: nat, totalPages: nat)
    requires pagesPerChunk >= 1
    requires |os| == NumChunks(totalPages, pagesPerChunk)
    ensures var fi := FailedIndices(os);
      var ranges := FailedRanges(os, pagesPerChunk, totalPages);
      var plan := Plan(totalPages, pagesPerChunk);
      && (forall k :: 0 <= k < |ranges| ==> fi[k] < |plan| && ranges[k] == plan[fi[k]])
      && (forall k :: 0 <= k < |ranges| - 1 ==> ranges[k].end < ranges[k + 1].start)
  {
    var fi := FailedIndices(os);
    var ranges := FailedRanges(os, pagesPerChunk, totalPages);
    var plan := Plan(totalPages, pagesPerChunk);
    PlanTiles(totalPages, pagesPerChunk);
    forall k | 0 <= k < |ranges| - 1
      ensures ranges[k].end < ranges[k + 1].start
    {
      PlanIncreasing(totalPages, pagesPerChunk, fi[k], fi[k + 1]);
    }
  }

  /** The texts that reach the final output, in chunk order: every success with
      content whose text does not begin with `[Pages`. */
  function Extracted(os: seq<Outcome>): seq<string>
  {
    if os == [] then []
    else
      var last := os[|os| - 1];
      Extracted(os[..|os| - 1]) + (if IsJoinedText(last) then [last.text] else [])
  }

  /** A slot passes the output filter exactly when its chunk's text is joined. */
  lemma JoinableSlot(index: nat, o: Outcome, pagesPerChunk: nat, totalPages: nat)
    ensures Joinable(SlotFor(index, o, pagesPerChunk, totalPages)) <==> IsJoinedText(o)
  {
    if HasContent(o) {
      assert o.text != [];
    }
  }

  lemma {:induction false} PiecesConcat(a: seq<string>, b: seq<string>)
    ensures Pieces(a + b) == Pieces(a) + Pieces(b)
    decreases |a|
  {
    if a == [] {
      assert a + b == b;
    } else {
      assert (a + b)[0] == a[0] && (a + b)[1..] == a[1..] + b;
      PiecesConcat(a[1..], b);
    }
  }

  lemma SlotsSnoc(os: seq<Outcome>, o: Outcome, pagesPerChunk: nat, totalPages: nat)
    ensures Slots(os + [o], pagesPerChunk, totalPages)
            == Slots(os, pagesPerChunk, totalPages) + [SlotFor(|os|, o, pagesPerChunk, totalPages)]
  {
  }

  lemma NoPieces(ss: seq<string>)
    requires forall s :: s in ss ==> !Joinable(s)
    ensures Pieces(ss) == []
  {
  }

  lemma {:induction false} PiecesOfSlots(os: seq<Outcome>, pagesPerChunk: nat, totalPages: nat)
    ensures Pieces(Slots(os, pagesPerChunk, totalPages)) == Extracted(os)
    decreases |os|
  {
    if os != [] {
      var n := |os| - 1;
      var prefix, o := os[..n], os[n];
      assert os == prefix + [o];
      var slot := SlotFor(n, o, pagesPerChunk, totalPages);
      SlotsSnoc(prefix, o, pagesPerChunk, totalPages);
      PiecesConcat(Slots(prefix, pagesPerChunk, totalPages), [slot]);
      PiecesOfSlots(prefix, pagesPerChunk, totalPages);
      JoinableSlot(n, o, pagesPerChunk, totalPages);
      assert [slot][1..] == [];
    }
  }

  /** Truncation never removes a text from the output: after the last chunk with
      content every slot is empty or a placeholder, both of which the filter drops. */
  lemma TruncationKeepsPieces(os: seq<Outcome>, pagesPerChunk: nat, totalPages: nat)
    ensures Pieces(KeptSlots(os, pagesPerChunk, totalPages)) == Pieces(Slots(os, pagesPerChunk, totalPages))
  {
    var slots := Slots(os, pagesPerChunk, totalPages);
    var kept := KeptSlots(os, pagesPerChunk, totalPages);
    var rest := slots[|kept|..];
    assert slots == kept + rest;
    PiecesConcat(kept, rest);
    CutSlotsHaveNoPieces(os, pagesPerChunk, totalPages);
    assert kept + [] == kept;
  }

  /** The slots that truncation removes are all empty or placeholders. */
  lemma CutSlotsHaveNoPieces(os: seq<Outcome>, pagesPerChunk: nat, totalPages: nat)
    ensures var slots := Slots(os, pagesPerChunk, totalPages);
      Pieces(slots[|KeptSlots(os, pagesPerChunk, totalPages)|..]) == []
  {
    var slots := Slots(os, pagesPerChunk, totalPages);
    var cut := |KeptSlots(os, pagesPerChunk, totalPages)|;
    var rest := slots[cut..];
    forall s | s in rest
      ensures !Joinable(s)
    {
      var j :| 0 <= j < |rest| && rest[j] == s;
      JoinableSlot(cut + j, os[cut + j], pagesPerChunk, totalPages);
    }
    NoPieces(rest);
  }

  /** Every slot is empty, passes the filter, or starts like a placeholder; so the
      byte total of the slots is that of the joined texts plus that of the
      placeholders: `total_chars` counts the placeholders as well. */
  lemma {:induction false} TotalBytesSplit(slots: seq<string>)
    ensures TotalBytes(slots) == TotalBytes(Pieces(slots)) + TotalBytes(Markers(slots))
    decreases |slots|
  {
    if slots != [] {
      TotalBytesSplit(slots[1..]);
      var s := slots[0];
      var p := if Joinable(s) then [s] else [];
      var m := if StartsWith(s, FailureMarker) then [s] else [];
      TotalBytesConcat(p, Pieces(slots[1..]));
      TotalBytesConcat(m, Markers(slots[1..]));
      assert [s][1..] == [];
      if s == "" {
        assert ByteLen(s) == 0;
      }
    }
  }
}
