/**
 * What a recorded tip, or an earlier copy of the log, is for
 * (packages/engine/docs/architecture/audit-chain-format.md): clean reads, over
 * the wire or from a file, that meet in one stored hash hold the same rows.
 */
module RecordedTip {
  import opened Sequences
  import opened Wrappers
  import opened Utf16
  import opened EntryHash
  import opened VerifyChain
  import opened Walk
  import opened WalkSummary
  import opened Dump
  import opened TamperEvidence

  type BatchSize = n: nat | n > 0 witness 1

  /** One run of `log verify`: a walk over the engine's answers, or a read of a file's lines. */
  datatype AuditRead =
    | Wire(serve: nat -> Response, signal: nat -> bool)
    | File(rd: Reader, lines: seq<Str>, size: BatchSize)

  /** The rows it covered, oldest first. */
  function Covered(read: AuditRead): seq<ChainEntry> {
    match read
    case Wire(serve, signal) => Whole(Ascend(Accept(serve, signal, 0, None).pages))
    case File(rd, lines, _) =>
      match Read(rd, lines)
      case Fails(_) => []
      case ReadTo(entries, _) => Reverse(entries)
  }

  /** The summary it prints; a defective file has none. */
  function Printed(rehash: ChainEntry -> Str, read: AuditRead): Option<WalkSummary> {
    match read
    case Wire(serve, signal) => Some(VerifySummary(rehash, Accept(serve, signal, 0, None)))
    case File(rd, lines, size) =>
      match DumpSummary(rehash, rd, lines, size)
      case Err(_) => None
      case Ok(summary) => Some(summary)
  }

  /** It covered some rows and reported no break; nothing is asked of their order or of how it ended. */
  predicate ReadsClean(sha: Bytes -> Bytes, read: AuditRead) {
    Covered(read) != [] && Printed(Rehash(sha), read).Some? && Printed(Rehash(sha), read).value.breaks == []
  }

  /** Pages without a break are, end to end, rows without one: a cut can only add breaks. */
  lemma CleanPagesAreClean(sha: Bytes -> Bytes, asc: seq<seq<ChainEntry>>, cursorExhausted: bool, stopReason: StopReason)
    requires NonEmptyPages(asc) && Whole(asc) != []
    requires SummaryOf(Rehash(sha), asc, cursorExhausted, stopReason).breaks == []
    ensures CleanRange(sha, Whole(asc))
  {
    PagesAggregate(Rehash(sha), asc, None);
    PagingCounts(Rehash(sha), asc, None);
  }

  lemma CleanReadIsClean(sha: Bytes -> Bytes, read: AuditRead)
    requires ReadsClean(sha, read)
    ensures CleanRange(sha, Covered(read))
  {
    match read
    case Wire(serve, signal) =>
      var kept := Accept(serve, signal, 0, None);
      VerifySummaryOfKept(Rehash(sha), kept);
      CleanPagesAreClean(sha, Ascend(kept.pages), kept.cursorExhausted, kept.stopReason);
    case File(rd, lines, size) =>
      var r := Read(rd, lines);
      FileSummaryOfBatches(Rehash(sha), r.entries, size, r.stopReason);
      CleanPagesAreClean(sha, Ascend(Batches(r.entries, size)), true, r.stopReason);
  }

  lemma CleanUpTo(sha: Bytes -> Bytes, es: seq<ChainEntry>, i: nat)
    requires CleanRange(sha, es) && i < |es|
    ensures CleanRange(sha, es[..i + 1])
  {
    CutAt(es, i + 1);
    if i + 1 == |es| {
      assert es[..i + 1] == es;
    } else {
      CleanJoinIff(sha, es[..i + 1], es[i + 1..]);
    }
  }

  /** The read covered just these rows, oldest first, and reported no break. */
  predicate Shows(sha: Bytes -> Bytes, read: AuditRead, rows: seq<ChainEntry>) {
    rows != [] && Covered(read) == rows && ReadsClean(sha, read)
  }

  lemma ShownAreClean(sha: Bytes -> Bytes, read: AuditRead, rows: seq<ChainEntry>)
    requires Shows(sha, read, rows)
    ensures CleanRange(sha, rows)
  {
    CleanReadIsClean(sha, read);
  }

  /**
   * An earlier copy anchors what is older than its tip: if any later clean
   * read, by either path, shows a row with the stored hash of the copy's newest
   * row, then from there back to the newest sequence-0 row of each the two
   * hold the same rows, or two framed inputs with equal digest are exhibited.
   */
  lemma EarlierCopyAnchors(sha: Bytes -> Bytes, copy: AuditRead, p: seq<ChainEntry>, later: AuditRead, q: seq<ChainEntry>, i: nat)
    requires Shows(sha, copy, p) && Shows(sha, later, q) && i < |q| && q[i].hash == p[|p| - 1].hash
    ensures SameHistory(sha, Since(p), Since(q[..i + 1]))
  {
    ShownAreClean(sha, copy, p);
    ShownAreClean(sha, later, q);
    CleanUpTo(sha, q, i);
    SameTipSameHistory(sha, p, q[..i + 1]);
  }

  /** In particular two clean reads with the same tip agree. */
  lemma SameTipReadsAgree(sha: Bytes -> Bytes, a: AuditRead, p: seq<ChainEntry>, b: AuditRead, q: seq<ChainEntry>)
    requires Shows(sha, a, p) && Shows(sha, b, q) && p[|p| - 1].hash == q[|q| - 1].hash
    ensures SameHistory(sha, Since(p), Since(q))
  {
    ShownAreClean(sha, a, p);
    ShownAreClean(sha, b, q);
    SameTipSameHistory(sha, p, q);
  }
}
