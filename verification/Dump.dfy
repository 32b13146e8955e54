/**
 * Reading a dump file back, packages/cli/src/audit/dump.ts: a manifest line,
 * then one row per line, newest first, verified in bounded batches. JSON text
 * is abstract: `manifestOk` accepts a manifest line, and `classify` reads a row
 * line as an entry or as malformed.
 */
module Dump {
  import opened Sequences
  import opened Wrappers
  import opened Utf16
  import opened EntryHash
  import opened VerifyChain
  import opened DecisionClosure
  import opened Walk
  import opened WalkSummary

  const READ_BATCH_SIZE := 200

  /** A defect of the file, never a verdict about a chain. */
  datatype DumpError = NotAManifest | InteriorMalformed | EmptyFile

  datatype DumpResult = DumpResult(
    pages: seq<ChainVerdict>, closures: seq<ClosureVerdict>, closureCarry: seq<CloserRef>,
    entriesSeen: nat, newest: Option<ChainLocation>, oldest: Option<ChainLocation>, stopReason: StopReason)

  // ---------------------------------------------------------------------
  // Which rows are read
  // ---------------------------------------------------------------------

  /** The rows a reader takes before it stops, or the file defect it reports. */
  datatype Reading = ReadTo(entries: seq<ChainEntry>, stopReason: StopReason) | Fails(error: DumpError)

  /** The outside of a read: how lines are understood, and when a cancel is seen. */
  datatype Reader = Reader(manifestOk: Str -> bool, classify: Str -> Option<ChainEntry>, aborted: nat -> bool)

  function Prepend(entry: ChainEntry, rest: Reading): Reading {
    match rest
    case Fails(_) => rest
    case ReadTo(entries, stop) => ReadTo([entry] + entries, stop)
  }

  /** The row lines from line i on, once a line has or has not been found malformed. */
  function ReadRows(rd: Reader, lines: seq<Str>, i: nat, pendingMalformed: bool): Reading
    requires i <= |lines|
    decreases |lines| - i
  {
    if i == |lines| then ReadTo([], if pendingMalformed then PartialFile else Exhausted)
    else if rd.aborted(i) then ReadTo([], Cancelled)
    else if pendingMalformed then Fails(InteriorMalformed)
    else
      match rd.classify(lines[i])
      case None => ReadRows(rd, lines, i + 1, true)
      case Some(entry) => Prepend(entry, ReadRows(rd, lines, i + 1, false))
  }

  function Read(rd: Reader, lines: seq<Str>): Reading {
    if lines == [] then Fails(EmptyFile)
    else if rd.aborted(0) then ReadTo([], Cancelled)
    else if !rd.manifestOk(lines[0]) then Fails(NotAManifest)
    else ReadRows(rd, lines, 1, false)
  }

  // ---------------------------------------------------------------------
  // The reader
  // ---------------------------------------------------------------------

  /** The reader's loop variables. */
  datatype DumpState = DumpState(
    found: Checked, batch: seq<ChainEntry>, entriesSeen: nat, newest: Option<ChainLocation>, oldest: Option<ChainLocation>)

  /** The state once these rows have been read. */
  function DumpStateAfter(rehash: ChainEntry -> Str, entries: seq<ChainEntry>, size: nat): DumpState
    requires size > 0
  {
    BatchesCut(entries, size);
    var (full, batch) := SplitBatches(entries, size);
    DumpState(CheckedPages(rehash, Ascend(full)), batch, |entries|,
              if entries == [] then None else Some(Location(entries[0])),
              if entries == [] then None else Some(Location(entries[|entries| - 1])))
  }

  /** What is found once the last batch has been flushed. */
  function FoundInDump(rehash: ChainEntry -> Str, entries: seq<ChainEntry>, size: nat): Checked
    requires size > 0
  {
    BatchesWhole(entries, size);
    CheckedPages(rehash, Ascend(Batches(entries, size)))
  }

  function DumpResultOf(rehash: ChainEntry -> Str, entries: seq<ChainEntry>, size: nat, stopReason: StopReason): DumpResult
    requires size > 0
  {
    var c := FoundInDump(rehash, entries, size);
    DumpResult(c.pages, c.closures, c.carry, |entries|,
               if entries == [] then None else Some(Location(entries[0])),
               if entries == [] then None else Some(Location(entries[|entries| - 1])), stopReason)
  }

  /** What a read's result says of its extent, by the columns of the first and the last row of the file. */
  lemma ReadExtent(rehash: ChainEntry -> Str, entries: seq<ChainEntry>, size: nat, stopReason: StopReason)
    requires size > 0
    ensures var r := DumpResultOf(rehash, entries, size, stopReason);
      && r.entriesSeen == |entries| && r.stopReason == stopReason
      && (entries == [] ==> r.newest == None && r.oldest == None)
      && (entries != [] ==>
            && r.newest == Some(ChainLocation(entries[0].epochId, entries[0].sequenceNum))
            && r.oldest == Some(ChainLocation(entries[|entries| - 1].epochId, entries[|entries| - 1].sequenceNum)))
  {
  }

  /** `flushBatch`: verify what is waiting, if anything is. */
  method FlushBatch(rehash: ChainEntry -> Str, found: Checked, batch: seq<ChainEntry>) returns (c: Checked)
    ensures c == if batch == [] then found else CheckNext(rehash, found, Reverse(batch))
  {
    c := found;
    if |batch| > 0 {
      c := CheckPage(rehash, found, Reverse(batch));
    }
  }

  lemma FlushMeaning(rehash: ChainEntry -> Str, entries: seq<ChainEntry>, size: nat)
    requires size > 0
    ensures var st := DumpStateAfter(rehash, entries, size);
      FoundInDump(rehash, entries, size) == if st.batch == [] then st.found else CheckNext(rehash, st.found, Reverse(st.batch))
  {
    BatchesCut(entries, size);
    var (full, batch) := SplitBatches(entries, size);
    if batch != [] {
      FoundOnSnoc(rehash, full, batch);
    }
  }

  /** Take one row: queue it, and flush a full batch. */
  method TakeRow(rehash: ChainEntry -> Str, ghost entries: seq<ChainEntry>, size: nat, st: DumpState,
                 entry: ChainEntry) returns (next: DumpState)
    requires size > 0 && st == DumpStateAfter(rehash, entries, size)
    ensures next == DumpStateAfter(rehash, entries + [entry], size)
  {
    BatchesCut(entries, size);
    assert (entries + [entry])[..|entries|] == entries;
    ghost var full := SplitBatches(entries, size).0;
    var newest := if st.newest == None then Some(Location(entry)) else st.newest;
    var batch, found := st.batch + [entry], st.found;
    if |batch| >= size {
      FoundOnSnoc(rehash, full, batch);
      found := FlushBatch(rehash, found, batch);
      batch := [];
    }
    next := DumpState(found, batch, st.entriesSeen + 1, newest, Some(Location(entry)));
  }

  /** Rows read so far, then what is read from here on. */
  function Onto(entries: seq<ChainEntry>, rest: Reading): Reading {
    match rest
    case Fails(_) => rest
    case ReadTo(more, stop) => ReadTo(entries + more, stop)
  }

  lemma OntoPrepend(entries: seq<ChainEntry>, entry: ChainEntry, rest: Reading)
    ensures Onto(entries, Prepend(entry, rest)) == Onto(entries + [entry], rest)
  {
    if rest.ReadTo? {
      JoinAssoc(entries, [entry], rest.entries);
    }
  }

  /** `verifyDumpLines`, at any batch size. */
  method VerifyDumpLines(rehash: ChainEntry -> Str, rd: Reader, lines: seq<Str>,
                         size: nat) returns (r: Result<DumpResult, DumpError>)
    requires size > 0
    ensures match Read(rd, lines)
      case Fails(error) => r == Err(error)
      case ReadTo(entries, stop) => r == Ok(DumpResultOf(rehash, entries, size, stop))
  {
    var st := DumpState(NOTHING_CHECKED, [], 0, None, None);
    ghost var entries: seq<ChainEntry> := [];
    var sawManifest, pendingMalformed := false, false;
    var stopReason := Exhausted;
    assert st == DumpStateAfter(rehash, [], size);
    var i := 0;
    while i < |lines|
      invariant 0 <= i <= |lines|
      invariant sawManifest <==> i > 0
      invariant st == DumpStateAfter(rehash, entries, size)
      invariant if i == 0 then entries == [] && !pendingMalformed
                else Read(rd, lines) == Onto(entries, ReadRows(rd, lines, i, pendingMalformed))
      invariant stopReason == Exhausted
    {
      var line := lines[i];
      if rd.aborted(i) {
        stopReason := Cancelled;
        break;
      }
      if !sawManifest {
        if !rd.manifestOk(line) {
          return Err(NotAManifest);
        }
        OntoNothing(ReadRows(rd, lines, 1, false));
        sawManifest := true;
      } else if pendingMalformed {
        return Err(InteriorMalformed);
      } else {
        var entry := rd.classify(line);
        if entry.None? {
          pendingMalformed := true;
        } else {
          OntoPrepend(entries, entry.value, ReadRows(rd, lines, i + 1, false));
          st := TakeRow(rehash, entries, size, st, entry.value);
          entries := entries + [entry.value];
        }
      }
      i := i + 1;
    }
    FlushMeaning(rehash, entries, size);
    JoinEmpty(entries);
    var found := FlushBatch(rehash, st.found, st.batch);
    if stopReason != Cancelled {
      if !sawManifest {
        return Err(EmptyFile);
      }
      if pendingMalformed {
        stopReason := PartialFile;
      }
    }
    r := Ok(DumpResult(found.pages, found.closures, found.carry, st.entriesSeen, st.newest, st.oldest, stopReason));
  }

  lemma OntoNothing(rest: Reading)
    ensures Onto([], rest) == rest
  {
    if rest.ReadTo? {
      JoinEmpty(rest.entries);
    }
  }

  // ---------------------------------------------------------------------
  // Which files read as what
  // ---------------------------------------------------------------------

  predicate RowOk(rd: Reader, line: Str) { rd.classify(line).Some? }

  /** The rows of lines that all read. */
  function RowsOf(rd: Reader, lines: seq<Str>): seq<ChainEntry>
    requires AllRowsOk(rd, lines)
  {
    seq(|lines|, i requires 0 <= i < |lines| && RowOk(rd, lines[i]) => rd.classify(lines[i]).value)
  }

  predicate AllRowsOk(rd: Reader, lines: seq<Str>) { forall i :: 0 <= i < |lines| ==> RowOk(rd, lines[i]) }

  /** The first line at or after the i-th at which the signal has fired, or the end. */
  function SeenUpTo(rd: Reader, lines: seq<Str>, i: nat): (end: nat)
    requires i <= |lines|
    ensures i <= end <= |lines|
    ensures forall k :: i <= k < end ==> !rd.aborted(k)
    ensures end < |lines| ==> rd.aborted(end)
    decreases |lines| - i
  {
    if i == |lines| || rd.aborted(i) then i else SeenUpTo(rd, lines, i + 1)
  }

  /** What row lines read as, when no line but perhaps the last of them is malformed. */
  function RowsRead(rd: Reader, data: seq<Str>, cancelled: bool): Reading {
    if AllRowsOk(rd, data) then ReadTo(RowsOf(rd, data), if cancelled then Cancelled else Exhausted)
    else if AllRowsOk(rd, data[..|data| - 1]) then
      ReadTo(RowsOf(rd, data[..|data| - 1]), if cancelled then Cancelled else PartialFile)
    else Fails(InteriorMalformed)
  }

  /** One good line in front. */
  lemma RowsReadStep(rd: Reader, line: Str, rest: seq<Str>, cancelled: bool)
    requires RowOk(rd, line)
    ensures RowsRead(rd, [line] + rest, cancelled) == Prepend(rd.classify(line).value, RowsRead(rd, rest, cancelled))
  {
    var data := [line] + rest;
    AllRowsOkStep(rd, line, rest);
    if AllRowsOk(rd, rest) {
      assert RowsOf(rd, data) == [rd.classify(line).value] + RowsOf(rd, rest);
    } else {
      var r := rest[..|rest| - 1];
      assert data[..|data| - 1] == [line] + r;
      AllRowsOkStep(rd, line, r);
      if AllRowsOk(rd, r) {
        assert RowsOf(rd, [line] + r) == [rd.classify(line).value] + RowsOf(rd, r);
      }
    }
  }

  lemma AllRowsOkStep(rd: Reader, line: Str, rest: seq<Str>)
    ensures AllRowsOk(rd, [line] + rest) <==> RowOk(rd, line) && AllRowsOk(rd, rest)
  {
    var data := [line] + rest;
    assert data[0] == line && forall k :: 0 <= k < |rest| ==> data[k + 1] == rest[k];
  }

  lemma {:induction false} ReadRowsMeaning(rd: Reader, lines: seq<Str>, i: nat)
    requires i <= |lines|
    ensures var end := SeenUpTo(rd, lines, i);
      ReadRows(rd, lines, i, false) == RowsRead(rd, lines[i..end], end < |lines|)
    decreases |lines| - i
  {
    var end := SeenUpTo(rd, lines, i);
    if i == end {
      assert lines[i..end] == [];
    } else if RowOk(rd, lines[i]) {
      assert lines[i..end] == [lines[i]] + lines[i + 1..end];
      ReadRowsMeaning(rd, lines, i + 1);
      RowsReadStep(rd, lines[i], lines[i + 1..end], end < |lines|);
    } else {
      MalformedRow(rd, lines, i, end);
    }
  }

  lemma MalformedRow(rd: Reader, lines: seq<Str>, i: nat, end: nat)
    requires i < end <= |lines| && end == SeenUpTo(rd, lines, i) && !RowOk(rd, lines[i])
    ensures ReadRows(rd, lines, i, false) == RowsRead(rd, lines[i..end], end < |lines|)
  {
    var data := lines[i..end];
    assert data[0] == lines[i] && !AllRowsOk(rd, data);
    if end == i + 1 {
      assert data[..|data| - 1] == [];
    } else {
      assert !RowOk(rd, data[..|data| - 1][0]);
    }
  }

  /**
   * What any file reads as, whenever a cancel is seen. Of the lines before the
   * cancel: none, or a bad manifest, or a malformed line with a successor among
   * them is a defect, unless the cancel came before the first line; a malformed
   * last line is truncation, reading exactly the rows before it; otherwise
   * every row is read.
   */
  lemma ReadMeaning(rd: Reader, lines: seq<Str>)
    ensures var end := SeenUpTo(rd, lines, 0);
      Read(rd, lines)
      == if lines == [] then Fails(EmptyFile)
         else if end == 0 then ReadTo([], Cancelled)
         else if !rd.manifestOk(lines[0]) then Fails(NotAManifest)
         else RowsRead(rd, lines[1..end], end < |lines|)
  {
    if lines != [] && !rd.aborted(0) {
      ReadRowsMeaning(rd, lines, 1);
    }
  }

  // ---------------------------------------------------------------------
  // Batch size does not matter, and the file agrees with the wire
  // ---------------------------------------------------------------------

  /** The summary `log verify --file` prints over the rows it read. */
  function FileSummary(rehash: ChainEntry -> Str, entries: seq<ChainEntry>, size: nat, stopReason: StopReason): WalkSummary
    requires size > 0
  {
    var r := DumpResultOf(rehash, entries, size, stopReason);
    SummarizeWalk(r.pages, true, r.stopReason, r.closures)
  }

  lemma FileSummaryOfBatches(rehash: ChainEntry -> Str, entries: seq<ChainEntry>, size: nat, stopReason: StopReason)
    requires size > 0
    ensures NonEmptyPages(Batches(entries, size))
    ensures Whole(Ascend(Batches(entries, size))) == Reverse(entries)
    ensures FileSummary(rehash, entries, size, stopReason) == SummaryOf(rehash, Ascend(Batches(entries, size)), true, stopReason)
  {
    BatchesWhole(entries, size);
    WholeOfAscended(Batches(entries, size));
    CheckedPagesMeaning(rehash, Ascend(Batches(entries, size)));
  }

  /** The batches these rows are read in, each oldest row first. */
  function BatchPages(entries: seq<ChainEntry>, size: nat): (asc: seq<seq<ChainEntry>>)
    requires size > 0
    ensures NonEmptyPages(asc)
  {
    BatchesWhole(entries, size);
    Ascend(Batches(entries, size))
  }

  /**
   * Any rows, at any batch size: the summary is that of one pass over the rows
   * read exactly when no batch edge has the excluded shape.
   */
  lemma FileRefinesOnePass(rehash: ChainEntry -> Str, entries: seq<ChainEntry>, size: nat, stopReason: StopReason)
    requires size > 0
    ensures SameSummary(FileSummary(rehash, entries, size, stopReason), OnePassSummary(rehash, Reverse(entries), true, stopReason))
       <==> EdgesSafe(BatchPages(entries, size))
  {
    FileSummaryOfBatches(rehash, entries, size, stopReason);
    PagingRefinesOnePass(rehash, Ascend(Batches(entries, size)), true, stopReason);
  }

  /**
   * At any batch size and however the read ended, the exit code is what the
   * rows read deserve exactly when no batch edge has the excluded shape or some
   * rule fails anyway.
   */
  lemma FileExitCodeAfterAnyEnd(rehash: ChainEntry -> Str, entries: seq<ChainEntry>, size: nat, stopReason: StopReason)
    requires size > 0
    ensures FileSummary(rehash, entries, size, stopReason).exitCode == DeservedAfter(rehash, Reverse(entries), stopReason, true)
       <==> EdgesSafe(BatchPages(entries, size)) || !RulesHold(rehash, Reverse(entries))
  {
    FileSummaryOfBatches(rehash, entries, size, stopReason);
    ExitCodeAfterAnyEnd(rehash, Ascend(Batches(entries, size)), true, stopReason);
  }

  lemma {:induction false} InSomePage(pages: seq<seq<ChainEntry>>, k: nat, e: ChainEntry)
    requires k < |pages| && e in pages[k]
    ensures e in Concat(pages)
  {
    if k > 0 {
      InSomePage(pages[1..], k - 1, e);
    }
  }

  lemma ManyRowsManyBatches(batches: seq<seq<ChainEntry>>, size: nat)
    requires forall k :: 0 <= k < |batches| ==> |batches[k]| <= size
    ensures |Concat(batches)| > size ==> |batches| > 1
  {
    if |batches| == 1 {
      assert |Concat(batches)| == |batches[0]| + |Concat(batches[1..])|;
      assert Concat(batches[1..]) == [];
    } else if |batches| == 0 {
      assert Concat(batches) == [];
    }
  }

  /** Nothing checks the order of a file's rows: a repeated sequence-0 row across a batch edge shows the shape. */
  lemma RepeatedRowsDisagree(rehash: ChainEntry -> Str, size: nat, stopReason: StopReason)
    requires size > 0
    ensures var entries := seq(size + 1, i => BrokenRow(0));
      !SameSummary(FileSummary(rehash, entries, size, stopReason), OnePassSummary(rehash, Reverse(entries), true, stopReason))
  {
    var entries := seq(size + 1, i => BrokenRow(0));
    var batches, asc := Batches(entries, size), BatchPages(entries, size);
    BatchesWhole(entries, size);
    ManyRowsManyBatches(batches, size);
    forall k, i | 0 <= k < |batches| && 0 <= i < |asc[k]| ensures asc[k][i] == BrokenRow(0) {
      assert asc[k][i] in batches[k];
      InSomePage(batches, k, asc[k][i]);
    }
    assert SeamShape(asc[1][|asc[1]| - 1], asc[0][0]);
    FileRefinesOnePass(rehash, entries, size, stopReason);
  }

  /** Rows in chain order are safe at the edges of any batches. */
  lemma ChainOrderBatchesSafe(entries: seq<ChainEntry>, size: nat)
    requires size > 0 && Ascending(Reverse(entries))
    ensures EdgesSafe(BatchPages(entries, size))
  {
    BatchesWhole(entries, size);
    WholeOfAscended(Batches(entries, size));
    ChainOrderIsSeamSafe(Reverse(entries));
    SeamSafeEdges(BatchPages(entries, size));
  }

  /** The file `log dump` writes over these pages. */
  function DumpLines(manifest: Str, encode: ChainEntry -> Str, rows: seq<ChainEntry>): (r: seq<Str>)
    ensures |r| == 1 + |rows| && r[0] == manifest
    ensures forall i :: 0 <= i < |rows| ==> r[1 + i] == encode(rows[i])
  {
    [manifest] + seq(|rows|, i requires 0 <= i < |rows| => encode(rows[i]))
  }

  /** The reader takes the manifest, reads each dumped row back, and is not cancelled. */
  ghost predicate ReadsBack(rd: Reader, manifest: Str, encode: ChainEntry -> Str, rows: seq<ChainEntry>) {
    && rd.manifestOk(manifest) && (forall n :: !rd.aborted(n))
    && forall i :: 0 <= i < |rows| ==> rd.classify(encode(rows[i])) == Some(rows[i])
  }

  /** A dumped log reads back as the rows the walk delivered. */
  lemma DumpReadsBack(rd: Reader, manifest: Str, encode: ChainEntry -> Str, rows: seq<ChainEntry>)
    requires ReadsBack(rd, manifest, encode, rows)
    ensures Read(rd, DumpLines(manifest, encode, rows)) == ReadTo(rows, Exhausted)
  {
    var lines := DumpLines(manifest, encode, rows);
    ReadMeaning(rd, lines);
    var data := lines[1..];
    assert SeenUpTo(rd, lines, 0) == |lines| && lines[1..|lines|] == data;
    assert forall i :: 0 <= i < |data| ==> data[i] == encode(rows[i]);
    assert AllRowsOk(rd, data);
    assert RowsOf(rd, data) == rows;
  }

  /** The wire and the file over the same rows: alike exactly when the batch edges are safe. */
  lemma SameRowsAgreeIff(rehash: ChainEntry -> Str, kept: Accepted, size: nat)
    requires size > 0 && NonEmptyPages(kept.pages) && EdgesSafe(Ascend(kept.pages))
    requires kept.stopReason == Exhausted && kept.cursorExhausted
    ensures SameSummary(FileSummary(rehash, Concat(kept.pages), size, Exhausted), VerifySummary(rehash, kept))
       <==> EdgesSafe(BatchPages(Concat(kept.pages), size))
  {
    WholeOfAscended(kept.pages);
    FileRefinesOnePass(rehash, Concat(kept.pages), size, Exhausted);
    KeptRefinesOnePass(rehash, kept);
  }

  /** The summary of the file `log dump` wrote over the rows the walk kept, read back from its lines. */
  function DumpSummary(rehash: ChainEntry -> Str, rd: Reader, lines: seq<Str>, size: nat): Result<WalkSummary, DumpError>
    requires size > 0
  {
    match Read(rd, lines)
    case Fails(error) => Err(error)
    case ReadTo(entries, stop) => Ok(FileSummary(rehash, entries, size, stop))
  }

  /**
   * The file agrees with the wire. Whatever rows with non-negative sequence
   * numbers are served, in whatever order: once a walk has run to a closed
   * cursor, its dump reads back, and at any batch size the summary of the file
   * is that of the verifying walk over the same answers, exactly when no batch
   * edge has the excluded shape.
   */
  lemma FileAgreesWithWire(rehash: ChainEntry -> Str, serve: nat -> Response, aborted: nat -> bool, kept: Accepted,
                           rd: Reader, manifest: Str, encode: ChainEntry -> Str, size: nat)
    requires NonEmptyPages(kept.pages) && WalkEnds(serve, aborted, kept) && ServesNonNegative(serve)
    requires kept.stopReason == Exhausted && kept.cursorExhausted
    requires size > 0 && ReadsBack(rd, manifest, encode, Concat(kept.pages))
    ensures var r := DumpSummary(rehash, rd, DumpLines(manifest, encode, Concat(kept.pages)), size);
      r.Ok? && (SameSummary(r.value, VerifySummary(rehash, kept)) <==> EdgesSafe(BatchPages(Concat(kept.pages), size)))
  {
    WalkEndsIff(serve, aborted, kept);
    DumpReadsBack(rd, manifest, encode, Concat(kept.pages));
    AcceptedEdgesSafe(serve, aborted);
    SameRowsAgreeIff(rehash, kept, size);
  }

  /** In particular a log in chain order, served in full, verifies from its dump as it does over the wire. */
  lemma ChainOrderFileAgrees(rehash: ChainEntry -> Str, serve: nat -> Response, aborted: nat -> bool, log: seq<ChainEntry>,
                             pages: seq<seq<ChainEntry>>, rd: Reader, manifest: Str, encode: ChainEntry -> Str, size: nat)
    requires Ascending(log) && ServedInFull(serve, aborted, log, pages)
    requires size > 0 && ReadsBack(rd, manifest, encode, Reverse(log))
    ensures var r := DumpSummary(rehash, rd, DumpLines(manifest, encode, Reverse(log)), size);
      r.Ok? && SameSummary(r.value, VerifySummary(rehash, Accept(serve, aborted, 0, None)))
  {
    HonestWalkKeepsLog(serve, aborted, log, pages);
    DumpReadsBack(rd, manifest, encode, Reverse(log));
    ReverseTwice(log);
    ChainOrderBatchesSafe(Reverse(log), size);
    ChainOrderIsSeamSafe(log);
    SeamSafeEdges(Ascend(pages));
    SameRowsAgreeIff(rehash, Accepted(pages, Exhausted, true), size);
  }
}
