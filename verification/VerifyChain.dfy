/**
 * The audit-chain verifier of packages/audit/src/verify-chain.ts: one range of
 * rows, oldest first, and optionally the row that follows it. The row hash is
 * a parameter `rehash`; `EntryHash.Rehash` is the one the source passes.
 */
module VerifyChain {
  import opened Sequences
  import opened Wrappers
  import opened Utf16
  import opened EntryHash

  datatype ChainLocation = ChainLocation(epochId: Str, sequenceNum: int)

  datatype LowerEdge = LowerClosed | GenesisShaped | LowerUnchecked(at: Option<ChainLocation>)

  datatype UpperEdge = UpperClosed | UpperUnchecked(at: Option<ChainLocation>)

  datatype BreakKind = EntryHashBreak | PrevHashBreak | GenesisSentinelBreak | EpochLinkBreak | EpochLinkNullBreak

  datatype ChainBreak = ChainBreak(
    kind: BreakKind, at: ChainLocation, expected: Option<Str>, actual: Option<Str>, rowsMissing: bool)

  datatype ChainVerdict = ChainVerdict(
    entriesChecked: nat, epochsCovered: seq<Str>, lowerEdge: LowerEdge, upperEdge: UpperEdge,
    breaks: seq<ChainBreak>)

  function Location(e: ChainEntry): ChainLocation { ChainLocation(e.epochId, e.sequenceNum) }

  // ---------------------------------------------------------------------
  // The rules, row by row
  // ---------------------------------------------------------------------

  /** Rule 1: the stored hash must be the recomputed one. */
  function HashBreaks(rehash: ChainEntry -> Str, e: ChainEntry): seq<ChainBreak> {
    var recomputed := rehash(e);
    if recomputed == e.hash then []
    else [ChainBreak(EntryHashBreak, Location(e), Some(recomputed), Some(e.hash), false)]
  }

  /** Rule 2, on a sequence-0 row: the sentinel. */
  function SentinelBreaks(e: ChainEntry): seq<ChainBreak> {
    if e.sequenceNum != 0 || e.prevHash == GENESIS_SENTINEL then []
    else [ChainBreak(GenesisSentinelBreak, Location(e), Some(GENESIS_SENTINEL), Some(e.prevHash), false)]
  }

  /** Rule 3 and the mid-sequence opening: a row whose predecessor is of another epoch. */
  function EpochLinkBreaks(prev: ChainEntry, e: ChainEntry): seq<ChainBreak> {
    if e.sequenceNum != 0 then [ChainBreak(PrevHashBreak, Location(e), None, Some(e.prevHash), true)]
    else if e.epochPrevHash == None then [ChainBreak(EpochLinkNullBreak, Location(e), Some(prev.hash), None, false)]
    else if e.epochPrevHash != Some(prev.hash) then
      [ChainBreak(EpochLinkBreak, Location(e), Some(prev.hash), e.epochPrevHash, false)]
    else []
  }

  function PrevHashBreakAt(prev: ChainEntry, e: ChainEntry): ChainBreak {
    ChainBreak(PrevHashBreak, Location(e), Some(prev.hash), Some(e.prevHash), prev.sequenceNum + 1 != e.sequenceNum)
  }

  /** The link to a predecessor inside the range; a sequence-0 row is exempt within its epoch. */
  function LinkBreaks(prev: ChainEntry, e: ChainEntry): seq<ChainBreak> {
    if prev.epochId != e.epochId then EpochLinkBreaks(prev, e)
    else if e.sequenceNum != 0 && e.prevHash != prev.hash then [PrevHashBreakAt(prev, e)]
    else []
  }

  /** The link of the boundary row to the range's newest; here a sequence-0 row is not exempt. */
  function SeamBreaks(newest: ChainEntry, boundary: ChainEntry): seq<ChainBreak> {
    if newest.epochId != boundary.epochId then EpochLinkBreaks(newest, boundary)
    else if boundary.prevHash != newest.hash then [PrevHashBreakAt(newest, boundary)]
    else []
  }

  /** The breaks of a row by itself. */
  function OwnBreaks(rehash: ChainEntry -> Str, e: ChainEntry): seq<ChainBreak> {
    HashBreaks(rehash, e) + SentinelBreaks(e)
  }

  function RowBreaks(rehash: ChainEntry -> Str, prev: Option<ChainEntry>, e: ChainEntry): seq<ChainBreak> {
    if prev.None? then OwnBreaks(rehash, e) else OwnBreaks(rehash, e) + LinkBreaks(prev.value, e)
  }

  /** The breaks of `es`, read after a row `prev`. */
  function BreaksAfter(rehash: ChainEntry -> Str, prev: Option<ChainEntry>, es: seq<ChainEntry>): seq<ChainBreak>
    decreases |es|
  {
    if es == [] then [] else RowBreaks(rehash, prev, es[0]) + BreaksAfter(rehash, Some(es[0]), es[1..])
  }

  /** The epoch of each maximal run of rows, oldest first. */
  function EpochsAfter(prev: Option<Str>, es: seq<ChainEntry>): seq<Str>
    decreases |es|
  {
    if es == [] then []
    else (if prev == Some(es[0].epochId) then [] else [es[0].epochId]) + EpochsAfter(Some(es[0].epochId), es[1..])
  }

  function LowerEdgeOf(es: seq<ChainEntry>): LowerEdge {
    if es == [] then LowerUnchecked(None)
    else if es[0].sequenceNum == 0 && es[0].epochPrevHash == None then GenesisShaped
    else LowerUnchecked(Some(Location(es[0])))
  }

  /** All breaks of a range, the upper seam's last. */
  function RangeBreaks(rehash: ChainEntry -> Str, es: seq<ChainEntry>, boundary: Option<ChainEntry>): seq<ChainBreak> {
    if es == [] then []
    else if boundary.None? then BreaksAfter(rehash, None, es)
    else BreaksAfter(rehash, None, es) + SeamBreaks(es[|es| - 1], boundary.value)
  }

  function UpperEdgeOf(es: seq<ChainEntry>, boundary: Option<ChainEntry>): UpperEdge {
    if es == [] then UpperUnchecked(None)
    else if boundary.Some? then UpperClosed
    else UpperUnchecked(Some(Location(es[|es| - 1])))
  }

  /** The verdict on a range. */
  function RangeVerdict(rehash: ChainEntry -> Str, es: seq<ChainEntry>, boundary: Option<ChainEntry>): ChainVerdict {
    ChainVerdict(|es|, EpochsAfter(None, es), LowerEdgeOf(es), UpperEdgeOf(es, boundary), RangeBreaks(rehash, es, boundary))
  }

  /** The oldest row is a genesis that follows no epoch. */
  predicate GenesisHead(rows: seq<ChainEntry>) {
    rows != [] && rows[0].sequenceNum == 0 && rows[0].epochPrevHash == None
  }

  /** What a verdict says of its edges, by the columns of the oldest and the newest row. */
  predicate EdgesMean(rows: seq<ChainEntry>, boundary: Option<ChainEntry>, v: ChainVerdict) {
    && v.entriesChecked == |rows|
    && (v.lowerEdge == GenesisShaped <==> GenesisHead(rows))
    && (!GenesisHead(rows) ==> v.lowerEdge == LowerUnchecked(
          if rows == [] then None else Some(ChainLocation(rows[0].epochId, rows[0].sequenceNum))))
    && (v.upperEdge == UpperClosed <==> rows != [] && boundary.Some?)
    && (rows == [] ==> v.upperEdge == UpperUnchecked(None))
    && (rows != [] && boundary.None? ==>
          v.upperEdge == UpperUnchecked(Some(ChainLocation(rows[|rows| - 1].epochId, rows[|rows| - 1].sequenceNum))))
  }

  /**
   * The edges by columns: the lower one is genesis-shaped exactly when the
   * oldest row has sequence number 0 and no `epochPrevHash`, and otherwise
   * unchecked at that row; the upper one is closed exactly by a boundary row.
   */
  lemma EdgesByColumns(rehash: ChainEntry -> Str, rows: seq<ChainEntry>, boundary: Option<ChainEntry>)
    ensures EdgesMean(rows, boundary, RangeVerdict(rehash, rows, boundary))
  {
  }

  lemma {:induction false} BreaksOfJoin(rehash: ChainEntry -> Str, prev: Option<ChainEntry>, a: seq<ChainEntry>, b: seq<ChainEntry>)
    requires a != []
    ensures BreaksAfter(rehash, prev, a + b)
         == BreaksAfter(rehash, prev, a) + BreaksAfter(rehash, Some(a[|a| - 1]), b)
    decreases |a|
  {
    JoinRest(a, b);
    var row := RowBreaks(rehash, prev, a[0]);
    if |a| > 1 {
      BreaksOfJoin(rehash, Some(a[0]), a[1..], b);
      JoinAssoc(row, BreaksAfter(rehash, Some(a[0]), a[1..]), BreaksAfter(rehash, Some(a[|a| - 1]), b));
    } else {
      JoinEmpty(b);
      JoinEmpty(row);
    }
  }

  lemma BreaksOfOne(rehash: ChainEntry -> Str, prev: Option<ChainEntry>, e: ChainEntry)
    ensures BreaksAfter(rehash, prev, [e]) == RowBreaks(rehash, prev, e)
  {
    assert [e][1..] == [];
    JoinEmpty(RowBreaks(rehash, prev, e));
  }

  /** The row before row i, if there is one. */
  function Previous(es: seq<ChainEntry>, i: nat): Option<ChainEntry>
    requires i <= |es|
  {
    if i == 0 then None else Some(es[i - 1])
  }

  lemma BreaksOneMore(rehash: ChainEntry -> Str, es: seq<ChainEntry>, i: nat)
    requires i < |es|
    ensures BreaksAfter(rehash, None, es[..i + 1])
         == BreaksAfter(rehash, None, es[..i]) + RowBreaks(rehash, Previous(es, i), es[i])
  {
    assert es[..i + 1] == es[..i] + [es[i]];
    BreaksOfOne(rehash, Previous(es, i), es[i]);
    if i > 0 {
      BreaksOfJoin(rehash, None, es[..i], [es[i]]);
    } else {
      JoinEmpty([es[0]]);
      JoinEmpty(RowBreaks(rehash, None, es[0]));
    }
  }

  /** Some epoch is listed, and the last one listed is the last row's. */
  predicate EndsWithEpoch(epochs: seq<Str>, es: seq<ChainEntry>) {
    if es == [] then epochs == [] else epochs != [] && epochs[|epochs| - 1] == es[|es| - 1].epochId
  }

  lemma {:induction false} EpochsOneMore(prev: Option<Str>, es: seq<ChainEntry>, e: ChainEntry)
    ensures var last := if es == [] then prev else Some(es[|es| - 1].epochId);
      EpochsAfter(prev, es + [e]) == EpochsAfter(prev, es) + if last == Some(e.epochId) then [] else [e.epochId]
    decreases |es|
  {
    if es == [] {
      JoinEmpty([e]);
      assert [e][1..] == [];
    } else {
      JoinRest(es, [e]);
      EpochsOneMore(Some(es[0].epochId), es[1..], e);
      var first := if prev == Some(es[0].epochId) then [] else [es[0].epochId];
      var last := es[|es| - 1].epochId;
      JoinAssoc(first, EpochsAfter(Some(es[0].epochId), es[1..]), if last == e.epochId then [] else [e.epochId]);
    }
  }

  /** The epochs of some rows and one more. */
  lemma EpochsOfSnoc(es: seq<ChainEntry>, e: ChainEntry, epochs: seq<Str>)
    requires epochs == EpochsAfter(None, es) && EndsWithEpoch(epochs, es)
    ensures var next := if epochs == [] || epochs[|epochs| - 1] != e.epochId then epochs + [e.epochId] else epochs;
      next == EpochsAfter(None, es + [e]) && EndsWithEpoch(next, es + [e])
  {
    EpochsOneMore(None, es, e);
    JoinEmpty(epochs);
  }

  /** The epochs of the first i + 1 rows from those of the first i, as the loop adds them. */
  lemma EpochsGrow(es: seq<ChainEntry>, i: nat, epochs: seq<Str>)
    requires i < |es| && epochs == EpochsAfter(None, es[..i]) && EndsWithEpoch(epochs, es[..i])
    ensures var next := if epochs == [] || epochs[|epochs| - 1] != es[i].epochId then epochs + [es[i].epochId] else epochs;
      next == EpochsAfter(None, es[..i + 1]) && EndsWithEpoch(next, es[..i + 1])
  {
    assert es[..i + 1] == es[..i] + [es[i]];
    EpochsOfSnoc(es[..i], es[i], epochs);
  }

  /** One turn of the walk: rules 1, 2 and 3 on one row. */
  method CheckRow(rehash: ChainEntry -> Str, prev: Option<ChainEntry>, entry: ChainEntry) returns (found: seq<ChainBreak>)
    ensures found == RowBreaks(rehash, prev, entry)
  {
    found := [];
    var recomputed := rehash(entry);
    if recomputed != entry.hash {
      found := found + [ChainBreak(EntryHashBreak, Location(entry), Some(recomputed), Some(entry.hash), false)];
    }
    if entry.sequenceNum == 0 {
      if entry.prevHash != GENESIS_SENTINEL {
        found := found + [ChainBreak(GenesisSentinelBreak, Location(entry), Some(GENESIS_SENTINEL), Some(entry.prevHash), false)];
      }
    }
    if prev.Some? {
      var p := prev.value;
      if p.epochId == entry.epochId {
        var gap := p.sequenceNum + 1 != entry.sequenceNum;
        if entry.sequenceNum != 0 && entry.prevHash != p.hash {
          found := found + [ChainBreak(PrevHashBreak, Location(entry), Some(p.hash), Some(entry.prevHash), gap)];
        }
      } else if entry.sequenceNum == 0 {
        if entry.epochPrevHash == None {
          found := found + [ChainBreak(EpochLinkNullBreak, Location(entry), Some(p.hash), None, false)];
        } else if entry.epochPrevHash != Some(p.hash) {
          found := found + [ChainBreak(EpochLinkBreak, Location(entry), Some(p.hash), entry.epochPrevHash, false)];
        }
      } else {
        found := found + [ChainBreak(PrevHashBreak, Location(entry), None, Some(entry.prevHash), true)];
      }
    }
  }

  /** The upper seam: the boundary row against the range's newest. */
  method CheckSeam(newest: ChainEntry, boundary: ChainEntry) returns (found: seq<ChainBreak>)
    ensures found == SeamBreaks(newest, boundary)
  {
    found := [];
    if boundary.epochId == newest.epochId {
      var gap := newest.sequenceNum + 1 != boundary.sequenceNum;
      if boundary.prevHash != newest.hash {
        found := found + [ChainBreak(PrevHashBreak, Location(boundary), Some(newest.hash), Some(boundary.prevHash), gap)];
      }
    } else if boundary.sequenceNum == 0 {
      if boundary.epochPrevHash == None {
        found := found + [ChainBreak(EpochLinkNullBreak, Location(boundary), Some(newest.hash), None, false)];
      } else if boundary.epochPrevHash != Some(newest.hash) {
        found := found + [ChainBreak(EpochLinkBreak, Location(boundary), Some(newest.hash), boundary.epochPrevHash, false)];
      }
    } else {
      found := found + [ChainBreak(PrevHashBreak, Location(boundary), None, Some(boundary.prevHash), true)];
    }
  }

  /** The single pass the source runs. */
  method VerifyChainRange(rehash: ChainEntry -> Str, entries: seq<ChainEntry>, boundary: Option<ChainEntry>)
    returns (verdict: ChainVerdict)
    ensures verdict == RangeVerdict(rehash, entries, boundary)
    ensures EdgesMean(entries, boundary, verdict)
  {
    var breaks: seq<ChainBreak> := [];
    var epochsCovered: seq<Str> := [];
    if |entries| == 0 {
      return ChainVerdict(0, epochsCovered, LowerUnchecked(None), UpperUnchecked(None), breaks);
    }
    var oldest := entries[0];
    var lowerEdge := if oldest.sequenceNum == 0 && oldest.epochPrevHash == None
      then GenesisShaped else LowerUnchecked(Some(Location(oldest)));

    var prev: Option<ChainEntry> := None;
    for i := 0 to |entries|
      invariant prev == Previous(entries, i)
      invariant breaks == BreaksAfter(rehash, None, entries[..i])
      invariant epochsCovered == EpochsAfter(None, entries[..i]) && EndsWithEpoch(epochsCovered, entries[..i])
    {
      var entry := entries[i];
      EpochsGrow(entries, i, epochsCovered);
      if |epochsCovered| == 0 || epochsCovered[|epochsCovered| - 1] != entry.epochId {
        epochsCovered := epochsCovered + [entry.epochId];
      }
      BreaksOneMore(rehash, entries, i);
      var found := CheckRow(rehash, prev, entry);
      breaks := breaks + found;
      prev := Some(entry);
    }
    assert entries[..|entries|] == entries;
    var newest := entries[|entries| - 1];
    if boundary.Some? {
      var found := CheckSeam(newest, boundary.value);
      return ChainVerdict(|entries|, epochsCovered, lowerEdge, UpperClosed, breaks + found);
    }
    return ChainVerdict(|entries|, epochsCovered, lowerEdge, UpperUnchecked(Some(Location(newest))), breaks);
  }

  // ---------------------------------------------------------------------
  // What a break means
  // ---------------------------------------------------------------------

  /** The link rule as the format states it, between neighbouring rows. */
  predicate LinkHolds(prev: ChainEntry, e: ChainEntry) {
    if prev.epochId == e.epochId then e.sequenceNum == 0 || e.prevHash == prev.hash
    else e.sequenceNum == 0 && e.epochPrevHash == Some(prev.hash)
  }

  /** A row is intact by itself: it rehashes, and a genesis carries the sentinel. */
  predicate RowIntact(rehash: ChainEntry -> Str, e: ChainEntry) {
    && rehash(e) == e.hash
    && (e.sequenceNum == 0 ==> e.prevHash == Ascii("GENESIS"))
  }

  /** Every hash, sentinel, in-epoch link and epoch link of the range holds. */
  predicate RulesHold(rehash: ChainEntry -> Str, es: seq<ChainEntry>) {
    && (forall i :: 0 <= i < |es| ==> RowIntact(rehash, es[i]))
    && (forall i :: 0 < i < |es| ==> LinkHolds(es[i - 1], es[i]))
  }

  /** What each kind of break asserts about the row it names and the row before it. */
  predicate Explains(rehash: ChainEntry -> Str, prev: Option<ChainEntry>, e: ChainEntry, b: ChainBreak) {
    && b.at == Location(e)
    && (b.kind.EntryHashBreak? || b.kind.GenesisSentinelBreak? || prev.Some?)
    && match b.kind {
      case EntryHashBreak =>
        e.hash != rehash(e) && !b.rowsMissing
        && b.expected == Some(rehash(e)) && b.actual == Some(e.hash)
      case GenesisSentinelBreak =>
        e.sequenceNum == 0 && e.prevHash != GENESIS_SENTINEL && !b.rowsMissing
        && b.expected == Some(GENESIS_SENTINEL) && b.actual == Some(e.prevHash)
      case EpochLinkBreak =>
        prev.value.epochId != e.epochId && e.sequenceNum == 0 && e.epochPrevHash.Some?
        && e.epochPrevHash.value != prev.value.hash && !b.rowsMissing
        && b.expected == Some(prev.value.hash) && b.actual == e.epochPrevHash
      case EpochLinkNullBreak =>
        prev.value.epochId != e.epochId && e.sequenceNum == 0 && e.epochPrevHash == None && !b.rowsMissing
        && b.expected == Some(prev.value.hash) && b.actual == None
      case PrevHashBreak =>
        && e.sequenceNum != 0 && b.actual == Some(e.prevHash)
        && if prev.value.epochId == e.epochId then
             e.prevHash != prev.value.hash && b.expected == Some(prev.value.hash)
             && b.rowsMissing == (e.sequenceNum != prev.value.sequenceNum + 1)
           else b.expected == None && b.rowsMissing
    }
  }

  function Before(prev: Option<ChainEntry>, es: seq<ChainEntry>, i: nat): Option<ChainEntry>
    requires i < |es|
  {
    if i == 0 then prev else Some(es[i - 1])
  }

  /** Some row of the range breaks the rule that `b` names. */
  predicate ExplainedAt(rehash: ChainEntry -> Str, prev: Option<ChainEntry>, es: seq<ChainEntry>, b: ChainBreak) {
    exists i :: 0 <= i < |es| && Explains(rehash, Before(prev, es, i), es[i], b)
  }

  lemma RowReportsExplained(rehash: ChainEntry -> Str, prev: Option<ChainEntry>, e: ChainEntry, b: ChainBreak)
    ensures b in RowBreaks(rehash, prev, e) <==> Explains(rehash, prev, e, b)
  {
  }

  /** A break is reported exactly when some row of the range breaks the rule the break names. */
  lemma {:induction false} ReportedIffExplained(rehash: ChainEntry -> Str, prev: Option<ChainEntry>,
                                                es: seq<ChainEntry>, b: ChainBreak)
    ensures b in BreaksAfter(rehash, prev, es) <==> ExplainedAt(rehash, prev, es, b)
    decreases |es|
  {
    if es != [] {
      var rest := es[1..];
      ReportedIffExplained(rehash, Some(es[0]), rest, b);
      RowReportsExplained(rehash, prev, es[0], b);
      assert forall i :: 0 <= i < |rest| ==> rest[i] == es[i + 1] && Before(Some(es[0]), rest, i) == Before(prev, es, i + 1);
      if ExplainedAt(rehash, Some(es[0]), rest, b) {
        var i :| 0 <= i < |rest| && Explains(rehash, Before(Some(es[0]), rest, i), rest[i], b);
        assert Explains(rehash, Before(prev, es, i + 1), es[i + 1], b);
      }
      if ExplainedAt(rehash, prev, es, b) {
        var i :| 0 <= i < |es| && Explains(rehash, Before(prev, es, i), es[i], b);
        if i > 0 {
          assert Explains(rehash, Before(Some(es[0]), rest, i - 1), rest[i - 1], b);
        }
      }
    }
  }

  lemma NoRowBreaksIff(rehash: ChainEntry -> Str, prev: Option<ChainEntry>, e: ChainEntry)
    ensures RowBreaks(rehash, prev, e) == [] <==> RowIntact(rehash, e) && (prev.Some? ==> LinkHolds(prev.value, e))
  {
  }

  /** The rules of a range, peeled off at its oldest row. */
  lemma RulesHoldStep(rehash: ChainEntry -> Str, es: seq<ChainEntry>)
    requires es != []
    ensures var rest := es[1..];
      RulesHold(rehash, es)
      <==> RowIntact(rehash, es[0]) && RulesHold(rehash, rest) && (rest != [] ==> LinkHolds(es[0], rest[0]))
  {
    var rest := es[1..];
    if RulesHold(rehash, es) {
      assert forall i :: 0 <= i < |rest| ==> rest[i] == es[i + 1];
      assert rest != [] ==> LinkHolds(es[0], es[1]);
    }
    if RowIntact(rehash, es[0]) && RulesHold(rehash, rest) && (rest != [] ==> LinkHolds(es[0], rest[0])) {
      assert forall i :: 0 < i < |es| ==> es[i] == rest[i - 1];
      assert RulesHold(rehash, es);
    }
  }

  lemma {:induction false} NoBreaksAfterIff(rehash: ChainEntry -> Str, prev: Option<ChainEntry>, es: seq<ChainEntry>)
    ensures BreaksAfter(rehash, prev, es) == []
       <==> RulesHold(rehash, es) && (prev.Some? && es != [] ==> LinkHolds(prev.value, es[0]))
    decreases |es|
  {
    if es != [] {
      NoBreaksAfterIff(rehash, Some(es[0]), es[1..]);
      NoRowBreaksIff(rehash, prev, es[0]);
      RulesHoldStep(rehash, es);
    }
  }

  /** A range is break-free exactly when every rule holds on it. */
  lemma BreakFreeIffRulesHold(rehash: ChainEntry -> Str, es: seq<ChainEntry>)
    ensures RangeBreaks(rehash, es, None) == [] <==> RulesHold(rehash, es)
  {
    NoBreaksAfterIff(rehash, None, es);
  }

  // ---------------------------------------------------------------------
  // Chain order
  // ---------------------------------------------------------------------

  /** By epoch first, in code-unit order, and within an epoch by sequence number. */
  predicate SortsBelow(a: ChainEntry, b: ChainEntry) {
    StrLess(a.epochId, b.epochId) || (a.epochId == b.epochId && a.sequenceNum < b.sequenceNum)
  }

  /** A log in chain order, with non-negative sequence numbers. */
  predicate Ascending(es: seq<ChainEntry>) {
    && (forall i :: 0 <= i < |es| ==> es[i].sequenceNum >= 0)
    && (forall i, j :: 0 <= i < j < |es| ==> SortsBelow(es[i], es[j]))
  }

  /** A sequence-0 row that follows a row of its own epoch without naming its hash. */
  predicate SeamShape(newest: ChainEntry, boundary: ChainEntry) {
    newest.epochId == boundary.epochId && boundary.sequenceNum == 0 && boundary.prevHash != newest.hash
  }

  /** The seam check is the in-range check except on that shape, which only the seam reports. */
  lemma SeamIsLinkExactly(newest: ChainEntry, boundary: ChainEntry)
    ensures SeamBreaks(newest, boundary) == LinkBreaks(newest, boundary) <==> !SeamShape(newest, boundary)
  {
  }

  /** No two neighbouring rows have that shape. */
  predicate SeamSafe(es: seq<ChainEntry>) {
    forall i :: 0 < i < |es| ==> !SeamShape(es[i - 1], es[i])
  }

  /** Chain order rules the shape out. */
  lemma ChainOrderIsSeamSafe(es: seq<ChainEntry>)
    requires Ascending(es)
    ensures SeamSafe(es)
  {
    forall i | 0 < i < |es| ensures !SeamShape(es[i - 1], es[i]) {
      assert SortsBelow(es[i - 1], es[i]);
      StrLessTrichotomy(es[i - 1].epochId, es[i].epochId);
    }
  }

  // ---------------------------------------------------------------------
  // Page by page
  // ---------------------------------------------------------------------

  /** The pages of a walk, newest page first, joined back oldest row first. */
  function Whole(pages: seq<seq<ChainEntry>>): seq<ChainEntry> {
    if pages == [] then [] else Whole(pages[1..]) + pages[0]
  }

  predicate NonEmptyPages(pages: seq<seq<ChainEntry>>) {
    forall k :: 0 <= k < |pages| ==> pages[k] != []
  }

  /** One verdict per page, each page's oldest row bounding the page after it. */
  function PageVerdicts(rehash: ChainEntry -> Str, pages: seq<seq<ChainEntry>>, boundary: Option<ChainEntry>): seq<ChainVerdict>
    requires NonEmptyPages(pages)
  {
    if pages == [] then []
    else [RangeVerdict(rehash, pages[0], boundary)] + PageVerdicts(rehash, pages[1..], Some(pages[0][0]))
  }

  /** All breaks of a walk, oldest page first. */
  function AllBreaks(verdicts: seq<ChainVerdict>): seq<ChainBreak> {
    if verdicts == [] then [] else AllBreaks(verdicts[1..]) + verdicts[0].breaks
  }

  function TotalChecked(verdicts: seq<ChainVerdict>): nat {
    if verdicts == [] then 0 else verdicts[0].entriesChecked + TotalChecked(verdicts[1..])
  }

  function AllEpochs(verdicts: seq<ChainVerdict>): seq<Str> {
    if verdicts == [] then [] else AllEpochs(verdicts[1..]) + verdicts[0].epochsCovered
  }

  /** The breaks of the paged verdicts, without the verdicts around them. */
  function PageBreaks(rehash: ChainEntry -> Str, pages: seq<seq<ChainEntry>>, boundary: Option<ChainEntry>): seq<ChainBreak>
    requires NonEmptyPages(pages)
  {
    if pages == [] then []
    else PageBreaks(rehash, pages[1..], Some(pages[0][0])) + RangeBreaks(rehash, pages[0], boundary)
  }

  function PageEpochs(pages: seq<seq<ChainEntry>>): seq<Str> {
    if pages == [] then [] else PageEpochs(pages[1..]) + EpochsAfter(None, pages[0])
  }

  lemma {:induction false} PagesAggregate(rehash: ChainEntry -> Str, pages: seq<seq<ChainEntry>>, boundary: Option<ChainEntry>)
    requires NonEmptyPages(pages)
    ensures |PageVerdicts(rehash, pages, boundary)| == |pages|
    ensures AllBreaks(PageVerdicts(rehash, pages, boundary)) == PageBreaks(rehash, pages, boundary)
    ensures AllEpochs(PageVerdicts(rehash, pages, boundary)) == PageEpochs(pages)
    ensures TotalChecked(PageVerdicts(rehash, pages, boundary)) == |Whole(pages)|
    decreases |pages|
  {
    if pages != [] {
      PagesAggregate(rehash, pages[1..], Some(pages[0][0]));
    }
  }

  function Places(breaks: seq<ChainBreak>): (r: seq<ChainLocation>)
    ensures |r| == |breaks|
  {
    if breaks == [] then [] else [breaks[0].at] + Places(breaks[1..])
  }

  lemma {:induction false} PlacesOfJoin(a: seq<ChainBreak>, b: seq<ChainBreak>)
    ensures Places(a + b) == Places(a) + Places(b)
  {
    if a == [] {
      JoinEmpty(b);
    } else {
      PlacesOfJoin(a[1..], b);
      JoinRest(a, b);
      JoinAssoc([a[0].at], Places(a[1..]), Places(b));
    }
  }

  /** Same breaks with the same multiplicities, and the same places in the same order. */
  predicate SameBreaks(a: seq<ChainBreak>, b: seq<ChainBreak>) {
    multiset(a) == multiset(b) && Places(a) == Places(b)
  }

  lemma SameBreaksSameLength(a: seq<ChainBreak>, b: seq<ChainBreak>)
    requires SameBreaks(a, b)
    ensures |a| == |b|
  {
    assert |multiset(a)| == |a| && |multiset(b)| == |b|;
  }

  lemma SameBreaksJoin(a: seq<ChainBreak>, b: seq<ChainBreak>, c: seq<ChainBreak>, d: seq<ChainBreak>)
    requires SameBreaks(a, b) && SameBreaks(c, d)
    ensures SameBreaks(a + c, b + d)
  {
    PlacesOfJoin(a, c);
    PlacesOfJoin(b, d);
  }

  predicate AllAt(breaks: seq<ChainBreak>, at: ChainLocation) {
    forall k :: 0 <= k < |breaks| ==> breaks[k].at == at
  }

  lemma {:induction false} PlacesAllAt(breaks: seq<ChainBreak>, at: ChainLocation)
    requires AllAt(breaks, at)
    ensures forall k :: 0 <= k < |breaks| ==> Places(breaks)[k] == at
  {
    if breaks != [] {
      PlacesAllAt(breaks[1..], at);
    }
  }

  /** Breaks of one row may be reported in either order. */
  lemma SwapAtOnePlace(a: seq<ChainBreak>, b: seq<ChainBreak>, at: ChainLocation)
    requires AllAt(a, at) && AllAt(b, at)
    ensures SameBreaks(a + b, b + a)
  {
    PlacesAllAt(a + b, at);
    PlacesAllAt(b + a, at);
    assert multiset(a + b) == multiset(a) + multiset(b) == multiset(b + a);
  }

  lemma SwapBeforeRest(link: seq<ChainBreak>, own: seq<ChainBreak>, rest: seq<ChainBreak>, at: ChainLocation)
    requires AllAt(link, at) && AllAt(own, at)
    ensures SameBreaks(link + (own + rest), (own + link) + rest)
  {
    SwapAtOnePlace(link, own, at);
    SameBreaksJoin(link + own, own + link, rest, rest);
    assert link + (own + rest) == (link + own) + rest;
  }

  lemma RowBreaksAt(rehash: ChainEntry -> Str, prev: ChainEntry, e: ChainEntry)
    ensures AllAt(LinkBreaks(prev, e), Location(e)) && AllAt(OwnBreaks(rehash, e), Location(e))
  {
  }

  /**
   * At a seam the link break of a row is reported before that row's own
   * breaks; in range it comes after them.
   */
  lemma SeamMovesOneBreak(rehash: ChainEntry -> Str, prev: ChainEntry, page: seq<ChainEntry>)
    requires page != []
    ensures SameBreaks(LinkBreaks(prev, page[0]) + BreaksAfter(rehash, None, page), BreaksAfter(rehash, Some(prev), page))
  {
    var link, own := LinkBreaks(prev, page[0]), OwnBreaks(rehash, page[0]);
    var rest := BreaksAfter(rehash, Some(page[0]), page[1..]);
    assert BreaksAfter(rehash, None, page) == own + rest;
    assert BreaksAfter(rehash, Some(prev), page) == (own + link) + rest;
    assert SameBreaks(link + (own + rest), (own + link) + rest) by {
      RowBreaksAt(rehash, prev, page[0]);
      SwapBeforeRest(link, own, rest, Location(page[0]));
    }
  }

  /** Appending a common tail after a swap at the seam. */
  lemma SplitAtSeam(head: seq<ChainBreak>, link: seq<ChainBreak>, own: seq<ChainBreak>, joined: seq<ChainBreak>,
                    tail: seq<ChainBreak>)
    requires SameBreaks(link + own, joined)
    ensures SameBreaks((head + link) + (own + tail), (head + joined) + tail)
  {
    SameBreaksJoin(head, head, link + own, joined);
    SameBreaksJoin(head + (link + own), head + joined, tail, tail);
    assert (head + link) + (own + tail) == head + (link + own) + tail;
  }

  /** What the upper seam adds, given the range's newest row. */
  function SeamTail(newest: ChainEntry, boundary: Option<ChainEntry>): seq<ChainBreak> {
    if boundary.None? then [] else SeamBreaks(newest, boundary.value)
  }

  lemma RangeBreaksSplit(rehash: ChainEntry -> Str, es: seq<ChainEntry>, boundary: Option<ChainEntry>)
    requires es != []
    ensures RangeBreaks(rehash, es, boundary) == BreaksAfter(rehash, None, es) + SeamTail(es[|es| - 1], boundary)
  {
    JoinEmpty(BreaksAfter(rehash, None, es));
  }

  lemma RangeBreaksOfJoin(rehash: ChainEntry -> Str, older: seq<ChainEntry>, newer: seq<ChainEntry>, boundary: Option<ChainEntry>)
    requires older != [] && newer != []
    ensures RangeBreaks(rehash, older + newer, boundary)
         == (BreaksAfter(rehash, None, older) + BreaksAfter(rehash, Some(older[|older| - 1]), newer))
          + SeamTail(newer[|newer| - 1], boundary)
  {
    RangeBreaksSplit(rehash, older + newer, boundary);
    BreaksOfJoin(rehash, None, older, newer);
    JoinLast(older, newer);
  }

  /** Two adjacent parts, verified apart with one boundary row, break as the whole does. */
  lemma CutKeepsBreaks(rehash: ChainEntry -> Str, older: seq<ChainEntry>, newer: seq<ChainEntry>, boundary: Option<ChainEntry>)
    requires older != [] && newer != [] && !SeamShape(older[|older| - 1], newer[0])
    ensures SameBreaks(
              RangeBreaks(rehash, older, Some(newer[0])) + RangeBreaks(rehash, newer, boundary),
              RangeBreaks(rehash, older + newer, boundary))
  {
    var last, newest := older[|older| - 1], newer[|newer| - 1];
    SeamIsLinkExactly(last, newer[0]);
    SeamMovesOneBreak(rehash, last, newer);
    RangeBreaksSplit(rehash, older, Some(newer[0]));
    RangeBreaksSplit(rehash, newer, boundary);
    RangeBreaksOfJoin(rehash, older, newer, boundary);
    SplitAtSeam(BreaksAfter(rehash, None, older), LinkBreaks(last, newer[0]), BreaksAfter(rehash, None, newer),
                BreaksAfter(rehash, Some(last), newer), SeamTail(newest, boundary));
  }

  lemma SeamCounts(newest: ChainEntry, boundary: ChainEntry)
    ensures |SeamBreaks(newest, boundary)| == |LinkBreaks(newest, boundary)| + if SeamShape(newest, boundary) then 1 else 0
  {
  }

  /** A row before a page adds the breaks of the link to it. */
  lemma LinkCounts(rehash: ChainEntry -> Str, prev: ChainEntry, page: seq<ChainEntry>)
    requires page != []
    ensures |BreaksAfter(rehash, Some(prev), page)| == |LinkBreaks(prev, page[0])| + |BreaksAfter(rehash, None, page)|
  {
    SeamMovesOneBreak(rehash, prev, page);
    SameBreaksSameLength(LinkBreaks(prev, page[0]) + BreaksAfter(rehash, None, page), BreaksAfter(rehash, Some(prev), page));
  }

  lemma JoinedLength(a: seq<ChainBreak>, b: seq<ChainBreak>, c: seq<ChainBreak>)
    ensures |(a + b) + c| == |a| + |b| + |c| && |a + b| == |a| + |b|
  {
  }

  /** A cut adds one break exactly at the shape. */
  lemma CutCounts(rehash: ChainEntry -> Str, older: seq<ChainEntry>, newer: seq<ChainEntry>, boundary: Option<ChainEntry>)
    requires older != [] && newer != []
    ensures |RangeBreaks(rehash, older, Some(newer[0]))| + |RangeBreaks(rehash, newer, boundary)|
         == |RangeBreaks(rehash, older + newer, boundary)| + if SeamShape(older[|older| - 1], newer[0]) then 1 else 0
  {
    var last, tail := older[|older| - 1], SeamTail(newer[|newer| - 1], boundary);
    RangeBreaksSplit(rehash, older, Some(newer[0]));
    JoinedLength(BreaksAfter(rehash, None, older), SeamBreaks(last, newer[0]), []);
    RangeBreaksSplit(rehash, newer, boundary);
    JoinedLength(BreaksAfter(rehash, None, newer), tail, []);
    RangeBreaksOfJoin(rehash, older, newer, boundary);
    JoinedLength(BreaksAfter(rehash, None, older), BreaksAfter(rehash, Some(last), newer), tail);
    SeamCounts(last, newer[0]);
    LinkCounts(rehash, last, newer);
  }

  /** The page edges at which the seam check and the in-range check differ. */
  function BadEdges(pages: seq<seq<ChainEntry>>): nat
    requires NonEmptyPages(pages)
  {
    if |pages| < 2 then 0
    else BadEdges(pages[1..]) + if SeamShape(pages[1][|pages[1]| - 1], pages[0][0]) then 1 else 0
  }

  /** At no page edge does the row above it have the excluded shape. */
  predicate EdgesSafe(pages: seq<seq<ChainEntry>>)
    requires NonEmptyPages(pages)
  {
    forall k :: 0 < k < |pages| ==> !SeamShape(pages[k][|pages[k]| - 1], pages[k - 1][0])
  }

  lemma EdgesSafeStep(pages: seq<seq<ChainEntry>>)
    requires NonEmptyPages(pages) && |pages| >= 2
    ensures EdgesSafe(pages) <==> !SeamShape(pages[1][|pages[1]| - 1], pages[0][0]) && EdgesSafe(pages[1..])
  {
    var rest := pages[1..];
    assert forall k :: 0 <= k < |rest| ==> rest[k] == pages[k + 1];
    if EdgesSafe(pages) {
      forall k | 0 < k < |rest| ensures !SeamShape(rest[k][|rest[k]| - 1], rest[k - 1][0]) {
        assert !SeamShape(pages[k + 1][|pages[k + 1]| - 1], pages[k][0]);
      }
    }
    if EdgesSafe(rest) {
      forall k | 1 < k < |pages| ensures !SeamShape(pages[k][|pages[k]| - 1], pages[k - 1][0]) {
        assert !SeamShape(rest[k - 1][|rest[k - 1]| - 1], rest[k - 2][0]);
      }
    }
  }

  lemma {:induction false} EdgesSafeIffNoneBad(pages: seq<seq<ChainEntry>>)
    requires NonEmptyPages(pages)
    ensures EdgesSafe(pages) <==> BadEdges(pages) == 0
  {
    if |pages| >= 2 {
      EdgesSafeStep(pages);
      EdgesSafeIffNoneBad(pages[1..]);
    }
  }

  lemma {:induction false} WholeEnds(pages: seq<seq<ChainEntry>>)
    requires NonEmptyPages(pages) && pages != []
    ensures Whole(pages) != []
    ensures Whole(pages)[|Whole(pages)| - 1] == pages[0][|pages[0]| - 1]
    ensures Whole(pages)[0] == pages[|pages| - 1][0]
  {
    if |pages| > 1 {
      WholeEnds(pages[1..]);
    } else {
      assert Whole(pages) == [] + pages[0];
    }
  }

  lemma OnePageBreaks(rehash: ChainEntry -> Str, page: seq<ChainEntry>, boundary: Option<ChainEntry>)
    requires page != []
    ensures NonEmptyPages([page]) && Whole([page]) == page
    ensures PageBreaks(rehash, [page], boundary) == RangeBreaks(rehash, page, boundary)
  {
    assert [page][1..] == [];
    JoinEmpty(page);
    JoinEmpty(RangeBreaks(rehash, page, boundary));
  }

  /** Paging reports one break more than one pass for each edge of the excluded shape. */
  lemma {:induction false} PagingCounts(rehash: ChainEntry -> Str, pages: seq<seq<ChainEntry>>, boundary: Option<ChainEntry>)
    requires NonEmptyPages(pages)
    ensures |PageBreaks(rehash, pages, boundary)| == |RangeBreaks(rehash, Whole(pages), boundary)| + BadEdges(pages)
    decreases |pages|
  {
    if |pages| == 1 {
      assert pages == [pages[0]];
      OnePageBreaks(rehash, pages[0], boundary);
    } else if |pages| > 1 {
      PagingCounts(rehash, pages[1..], Some(pages[0][0]));
      WholeEnds(pages[1..]);
      CutCounts(rehash, Whole(pages[1..]), pages[0], boundary);
    }
  }

  /** One more page above pages that already break as their rows do. */
  lemma OneMorePage(rehash: ChainEntry -> Str, found: seq<ChainBreak>, older: seq<ChainEntry>, newer: seq<ChainEntry>,
                    boundary: Option<ChainEntry>)
    requires older != [] && newer != [] && !SeamShape(older[|older| - 1], newer[0])
    requires SameBreaks(found, RangeBreaks(rehash, older, Some(newer[0])))
    ensures SameBreaks(found + RangeBreaks(rehash, newer, boundary), RangeBreaks(rehash, older + newer, boundary))
  {
    var breaks := RangeBreaks(rehash, newer, boundary);
    CutKeepsBreaks(rehash, older, newer, boundary);
    SameBreaksJoin(found, RangeBreaks(rehash, older, Some(newer[0])), breaks, breaks);
  }

  /** With safe edges, paging reports the breaks of one pass over the whole log. */
  lemma {:induction false} SafeEdgesKeepBreaks(rehash: ChainEntry -> Str, pages: seq<seq<ChainEntry>>, boundary: Option<ChainEntry>)
    requires NonEmptyPages(pages) && EdgesSafe(pages)
    ensures SameBreaks(PageBreaks(rehash, pages, boundary), RangeBreaks(rehash, Whole(pages), boundary))
    decreases |pages|
  {
    if |pages| == 1 {
      assert pages == [pages[0]];
      OnePageBreaks(rehash, pages[0], boundary);
    } else if |pages| > 1 {
      EdgesSafeStep(pages);
      SafeEdgesKeepBreaks(rehash, pages[1..], Some(pages[0][0]));
      WholeEnds(pages[1..]);
      OneMorePage(rehash, PageBreaks(rehash, pages[1..], Some(pages[0][0])), Whole(pages[1..]), pages[0], boundary);
    }
  }

  /**
   * Any cut of any rows into pages reports the breaks of one pass exactly when
   * no page edge has the excluded shape.
   */
  lemma PagingKeepsBreaks(rehash: ChainEntry -> Str, pages: seq<seq<ChainEntry>>, boundary: Option<ChainEntry>)
    requires NonEmptyPages(pages)
    ensures SameBreaks(PageBreaks(rehash, pages, boundary), RangeBreaks(rehash, Whole(pages), boundary)) <==> EdgesSafe(pages)
  {
    EdgesSafeIffNoneBad(pages);
    PagingCounts(rehash, pages, boundary);
    if EdgesSafe(pages) {
      SafeEdgesKeepBreaks(rehash, pages, boundary);
    } else if SameBreaks(PageBreaks(rehash, pages, boundary), RangeBreaks(rehash, Whole(pages), boundary)) {
      SameBreaksSameLength(PageBreaks(rehash, pages, boundary), RangeBreaks(rehash, Whole(pages), boundary));
    }
  }

  /** Rows with no neighbours of the shape are safe at the edges of every cut. */
  lemma {:induction false} SeamSafeEdges(pages: seq<seq<ChainEntry>>)
    requires NonEmptyPages(pages) && SeamSafe(Whole(pages))
    ensures EdgesSafe(pages)
  {
    if |pages| > 1 {
      var older, newer := Whole(pages[1..]), pages[0];
      var all := older + newer;
      WholeEnds(pages[1..]);
      assert forall i :: 0 <= i < |older| ==> older[i] == all[i];
      assert all[|older| - 1] == older[|older| - 1] && all[|older|] == newer[0];
      SeamSafeEdges(pages[1..]);
      EdgesSafeStep(pages);
    }
  }

  /** Every way of cutting `es` into pages reports the breaks of one pass. */
  ghost predicate EveryCutAgrees(rehash: ChainEntry -> Str, es: seq<ChainEntry>) {
    forall pages :: NonEmptyPages(pages) && Whole(pages) == es ==>
      SameBreaks(PageBreaks(rehash, pages, None), RangeBreaks(rehash, es, None))
  }

  lemma TwoPages(rehash: ChainEntry -> Str, older: seq<ChainEntry>, newer: seq<ChainEntry>)
    requires older != [] && newer != []
    ensures NonEmptyPages([newer, older]) && Whole([newer, older]) == older + newer
    ensures PageBreaks(rehash, [newer, older], None)
         == RangeBreaks(rehash, older, Some(newer[0])) + RangeBreaks(rehash, newer, None)
  {
    assert [newer, older][1..] == [older] && [older][1..] == [];
    assert Whole([older]) == [] + older == older;
    var x := RangeBreaks(rehash, older, Some(newer[0]));
    assert PageBreaks(rehash, [older], Some(newer[0])) == [] + x == x;
  }

  /** Two pages cut at the shape disagree with one pass. */
  lemma ShapeHasBadCut(rehash: ChainEntry -> Str, older: seq<ChainEntry>, newer: seq<ChainEntry>)
    requires older != [] && newer != [] && SeamShape(older[|older| - 1], newer[0])
    ensures !EveryCutAgrees(rehash, older + newer)
  {
    TwoPages(rehash, older, newer);
    assert !EdgesSafe([newer, older]) by {
      EdgesSafeStep([newer, older]);
    }
    PagingKeepsBreaks(rehash, [newer, older], None);
  }

  /** Paging refines one pass for every cut exactly on the seam-safe logs. */
  lemma PagingIsExactIff(rehash: ChainEntry -> Str, es: seq<ChainEntry>)
    ensures EveryCutAgrees(rehash, es) <==> SeamSafe(es)
  {
    if SeamSafe(es) {
      forall pages | NonEmptyPages(pages) && Whole(pages) == es
        ensures SameBreaks(PageBreaks(rehash, pages, None), RangeBreaks(rehash, es, None))
      {
        SeamSafeEdges(pages);
        PagingKeepsBreaks(rehash, pages, None);
      }
    } else {
      var i :| 0 < i < |es| && SeamShape(es[i - 1], es[i]);
      assert es[..i] + es[i..] == es;
      ShapeHasBadCut(rehash, es[..i], es[i..]);
    }
  }

  // ---------------------------------------------------------------------
  // The order in which breaks are listed
  // ---------------------------------------------------------------------

  /** At the edge between these rows at most one of the seam and the row above it is broken. */
  predicate EdgePlain(rehash: ChainEntry -> Str, newest: ChainEntry, boundary: ChainEntry) {
    LinkBreaks(newest, boundary) == [] || OwnBreaks(rehash, boundary) == []
  }

  /** No page edge has both a broken link and a row above it that is broken by itself. */
  predicate EdgesPlain(rehash: ChainEntry -> Str, pages: seq<seq<ChainEntry>>)
    requires NonEmptyPages(pages)
  {
    forall k :: 0 < k < |pages| ==> EdgePlain(rehash, pages[k][|pages[k]| - 1], pages[k - 1][0])
  }

  lemma EdgesPlainStep(rehash: ChainEntry -> Str, pages: seq<seq<ChainEntry>>)
    requires NonEmptyPages(pages) && |pages| >= 2
    ensures EdgesPlain(rehash, pages)
       <==> EdgePlain(rehash, pages[1][|pages[1]| - 1], pages[0][0]) && EdgesPlain(rehash, pages[1..])
  {
    var rest := pages[1..];
    assert forall k :: 0 <= k < |rest| ==> rest[k] == pages[k + 1];
    if EdgesPlain(rehash, pages) {
      forall k | 0 < k < |rest| ensures EdgePlain(rehash, rest[k][|rest[k]| - 1], rest[k - 1][0]) {
        assert EdgePlain(rehash, pages[k + 1][|pages[k + 1]| - 1], pages[k][0]);
      }
    }
    if EdgesPlain(rehash, rest) {
      forall k | 1 < k < |pages| ensures EdgePlain(rehash, pages[k][|pages[k]| - 1], pages[k - 1][0]) {
        assert EdgePlain(rehash, rest[k - 1][|rest[k - 1]| - 1], rest[k - 2][0]);
      }
    }
  }

  /** A link break never reads like a break of the row by itself. */
  lemma LinkIsNotOwn(rehash: ChainEntry -> Str, prev: ChainEntry, e: ChainEntry)
    ensures |LinkBreaks(prev, e)| <= 1
    ensures forall b, c :: b in LinkBreaks(prev, e) && c in OwnBreaks(rehash, e) ==> b.kind != c.kind
  {
  }

  /** The breaks of a page after a row, cut behind the row's own breaks. */
  lemma BreaksAfterRow(rehash: ChainEntry -> Str, prev: ChainEntry, page: seq<ChainEntry>)
    requires page != []
    ensures BreaksAfter(rehash, Some(prev), page)
         == OwnBreaks(rehash, page[0]) + (LinkBreaks(prev, page[0]) + BreaksAfter(rehash, Some(page[0]), page[1..]))
    ensures BreaksAfter(rehash, None, page) == OwnBreaks(rehash, page[0]) + BreaksAfter(rehash, Some(page[0]), page[1..])
  {
    JoinAssoc(OwnBreaks(rehash, page[0]), LinkBreaks(prev, page[0]), BreaksAfter(rehash, Some(page[0]), page[1..]));
  }

  /** Two lists that agree on a first part and go on with `a` then `b`, or with `b` then `a`. */
  lemma SwappedAlike(found: seq<ChainBreak>, head: seq<ChainBreak>, link: seq<ChainBreak>, own: seq<ChainBreak>, tail: seq<ChainBreak>)
    requires multiset(found) == multiset(head + link) && |link| <= 1
    requires forall b, c :: b in link && c in own ==> b != c
    ensures found + (own + tail) == head + (own + (link + tail)) <==> found == head + link && (link == [] || own == [])
  {
    var a, b := found + (own + tail), head + (own + (link + tail));
    assert |multiset(found)| == |found| && |multiset(head + link)| == |head| + |link|;
    if link == [] || own == [] {
      JoinEmpty(tail);
      JoinEmpty(own + tail);
      JoinEmpty(head);
      JoinAssoc(head, link, tail);
      if a == b {
        assert found == a[..|found|] && head + link == b[..|found|];
      }
    } else if a == b {
      assert b[..|head|] == head && a[..|head|] == found[..|head|];
      assert a[|head|] == found[|head|] && b[|head|] == own[0];
      assert found == head + [own[0]] && link == [link[0]];
      assert link[0] in link && own[0] in own;
      DifferentEnds(head, link[0], own[0]);
      assert false;
    }
  }

  lemma DifferentEnds(head: seq<ChainBreak>, b: ChainBreak, c: ChainBreak)
    requires b != c
    ensures multiset(head + [b]) != multiset(head + [c])
  {
    assert multiset(head + [b])[b] == multiset(head)[b] + 1;
    assert multiset(head + [c])[b] == multiset(head)[b];
  }

  lemma CutLists(rehash: ChainEntry -> Str, found: seq<ChainBreak>, older: seq<ChainEntry>, newer: seq<ChainEntry>,
                 boundary: Option<ChainEntry>)
    requires older != [] && newer != [] && !SeamShape(older[|older| - 1], newer[0])
    requires SameBreaks(found, RangeBreaks(rehash, older, Some(newer[0])))
    ensures found + RangeBreaks(rehash, newer, boundary) == RangeBreaks(rehash, older + newer, boundary)
       <==> found == RangeBreaks(rehash, older, Some(newer[0])) && EdgePlain(rehash, older[|older| - 1], newer[0])
  {
    var last := older[|older| - 1];
    var head, link, own := BreaksAfter(rehash, None, older), LinkBreaks(last, newer[0]), OwnBreaks(rehash, newer[0]);
    var rest, seam := BreaksAfter(rehash, Some(newer[0]), newer[1..]), SeamTail(newer[|newer| - 1], boundary);
    SeamIsLinkExactly(last, newer[0]);
    RangeBreaksSplit(rehash, older, Some(newer[0]));
    RangeBreaksSplit(rehash, newer, boundary);
    RangeBreaksOfJoin(rehash, older, newer, boundary);
    BreaksAfterRow(rehash, last, newer);
    Regroup(head, own, link, rest, seam);
    LinkIsNotOwn(rehash, last, newer[0]);
    SwappedAlike(found, head, link, own, rest + seam);
  }

  lemma Regroup(head: seq<ChainBreak>, own: seq<ChainBreak>, link: seq<ChainBreak>, rest: seq<ChainBreak>, seam: seq<ChainBreak>)
    ensures (head + (own + (link + rest))) + seam == head + (own + (link + (rest + seam)))
    ensures (own + rest) + seam == own + (rest + seam)
  {
    JoinAssoc(own, rest, seam);
    JoinAssoc(link, rest, seam);
    JoinAssoc(own, link + rest, seam);
    JoinAssoc(head, own + (link + rest), seam);
  }

  lemma PagesStep(rehash: ChainEntry -> Str, pages: seq<seq<ChainEntry>>, boundary: Option<ChainEntry>)
    requires NonEmptyPages(pages) && pages != []
    ensures Whole(pages) == Whole(pages[1..]) + pages[0]
    ensures PageBreaks(rehash, pages, boundary)
         == PageBreaks(rehash, pages[1..], Some(pages[0][0])) + RangeBreaks(rehash, pages[0], boundary)
  {
  }

  /** The edge between the newest page and those below, given how those list their breaks. */
  lemma NewestEdgeLists(rehash: ChainEntry -> Str, pages: seq<seq<ChainEntry>>, boundary: Option<ChainEntry>)
    requires NonEmptyPages(pages) && |pages| > 1 && EdgesSafe(pages)
    ensures var rest := pages[1..];
      PageBreaks(rehash, pages, boundary) == RangeBreaks(rehash, Whole(pages), boundary)
      <==>
      && PageBreaks(rehash, rest, Some(pages[0][0])) == RangeBreaks(rehash, Whole(rest), Some(pages[0][0]))
      && EdgePlain(rehash, rest[0][|rest[0]| - 1], pages[0][0])
  {
    var rest := pages[1..];
    EdgesSafeStep(pages);
    SafeEdgesKeepBreaks(rehash, rest, Some(pages[0][0]));
    WholeEnds(rest);
    PagesStep(rehash, pages, boundary);
    CutLists(rehash, PageBreaks(rehash, rest, Some(pages[0][0])), Whole(rest), pages[0], boundary);
  }

  lemma {:induction false} SafeEdgesListAlikeIff(rehash: ChainEntry -> Str, pages: seq<seq<ChainEntry>>, boundary: Option<ChainEntry>)
    requires NonEmptyPages(pages) && EdgesSafe(pages)
    ensures PageBreaks(rehash, pages, boundary) == RangeBreaks(rehash, Whole(pages), boundary) <==> EdgesPlain(rehash, pages)
    decreases |pages|
  {
    if |pages| == 1 {
      assert pages == [pages[0]];
      OnePageBreaks(rehash, pages[0], boundary);
    } else if |pages| > 1 {
      EdgesSafeStep(pages);
      EdgesPlainStep(rehash, pages);
      SafeEdgesListAlikeIff(rehash, pages[1..], Some(pages[0][0]));
      NewestEdgeLists(rehash, pages, boundary);
    }
  }

  /**
   * The pages list exactly the breaks of one pass, in the same order, if and
   * only if no page edge has the excluded shape and none has both a broken link
   * and a row above it that is broken by itself.
   */
  lemma PagesListAlikeIff(rehash: ChainEntry -> Str, pages: seq<seq<ChainEntry>>, boundary: Option<ChainEntry>)
    requires NonEmptyPages(pages)
    ensures PageBreaks(rehash, pages, boundary) == RangeBreaks(rehash, Whole(pages), boundary)
       <==> EdgesSafe(pages) && EdgesPlain(rehash, pages)
  {
    if EdgesSafe(pages) {
      SafeEdgesListAlikeIff(rehash, pages, boundary);
    } else {
      PagingKeepsBreaks(rehash, pages, boundary);
    }
  }

  /** Two rows on two pages, the newer with a bad hash and a bad link: the breaks of one pass, in another order. */
  lemma TwoPagesReorder(rehash: ChainEntry -> Str, a: ChainEntry, b: ChainEntry)
    requires !SeamShape(a, b) && LinkBreaks(a, b) != [] && OwnBreaks(rehash, b) != []
    ensures NonEmptyPages([[b], [a]]) && Whole([[b], [a]]) == [a] + [b]
    ensures SameBreaks(PageBreaks(rehash, [[b], [a]], None), RangeBreaks(rehash, [a] + [b], None))
    ensures PageBreaks(rehash, [[b], [a]], None) != RangeBreaks(rehash, [a] + [b], None)
  {
    var pages := [[b], [a]];
    TwoPages(rehash, [a], [b]);
    EdgesSafeStep(pages);
    PagingKeepsBreaks(rehash, pages, None);
    PagesListAlikeIff(rehash, pages, None);
    EdgesPlainStep(rehash, pages);
  }

  /** A row with the stored hash `1` and the link `2`. */
  function BrokenRow(sequenceNum: int): ChainEntry {
    ChainEntry([], sequenceNum, [0x32], [], [], [], [], [], [], [], [], [], [], [], [], [], None, None, 0, None,
               [0x31], None)
  }

  /** Chain order does not help: these two rows are in it. */
  lemma PagesListDifferently()
    ensures var rehash := (e: ChainEntry) => [0x30]; var a, b := BrokenRow(2), BrokenRow(3);
      && Ascending([a] + [b]) && NonEmptyPages([[b], [a]]) && Whole([[b], [a]]) == [a] + [b]
      && PageBreaks(rehash, [[b], [a]], None) != RangeBreaks(rehash, [a] + [b], None)
  {
    TwoPagesReorder((e: ChainEntry) => [0x30], BrokenRow(2), BrokenRow(3));
  }

  // ---------------------------------------------------------------------
  // Epochs covered
  // ---------------------------------------------------------------------

  function EpochIds(es: seq<ChainEntry>): (r: seq<Str>)
    ensures |r| == |es| && forall i :: 0 <= i < |es| ==> r[i] == es[i].epochId
  {
    seq(|es|, i requires 0 <= i < |es| => es[i].epochId)
  }

  /** Collapsing runs loses no first occurrence. */
  lemma EpochIdsStep(es: seq<ChainEntry>, done: seq<Str>)
    requires es != []
    ensures done + EpochIds(es) == done + [es[0].epochId] + EpochIds(es[1..])
  {
  }

  lemma EpochsAfterStep(prev: Option<Str>, es: seq<ChainEntry>, done: seq<Str>)
    requires es != []
    ensures var e := es[0].epochId;
      done + EpochsAfter(prev, es) == (if prev == Some(e) then done else done + [e]) + EpochsAfter(Some(e), es[1..])
  {
    var e, later := es[0].epochId, EpochsAfter(Some(es[0].epochId), es[1..]);
    if prev == Some(e) {
      JoinEmpty(later);
    } else {
      JoinAssoc(done, [e], later);
    }
  }

  lemma {:induction false} EpochRunsReduce(done: seq<Str>, prev: Option<Str>, es: seq<ChainEntry>)
    requires prev.Some? ==> prev.value in done
    ensures FirstOccurrences(done + EpochsAfter(prev, es)) == FirstOccurrences(done + EpochIds(es))
    decreases |es|
  {
    if es != [] {
      var e := es[0].epochId;
      EpochIdsStep(es, done);
      EpochsAfterStep(prev, es, done);
      if prev == Some(e) {
        EpochRunsReduce(done, Some(e), es[1..]);
        FirstOccurrencesOfRepeat(done, e, EpochIds(es[1..]));
      } else {
        EpochRunsReduce(done + [e], Some(e), es[1..]);
      }
    }
  }

  lemma EpochsOfRange(es: seq<ChainEntry>)
    ensures FirstOccurrences(EpochsAfter(None, es)) == FirstOccurrences(EpochIds(es))
  {
    EpochRunsReduce([], None, es);
    assert [] + EpochsAfter(None, es) == EpochsAfter(None, es) && [] + EpochIds(es) == EpochIds(es);
  }

  lemma EpochIdsOfJoin(a: seq<ChainEntry>, b: seq<ChainEntry>)
    ensures EpochIds(a + b) == EpochIds(a) + EpochIds(b)
  {
  }

  /** Epochs of two adjacent parts, deduplicated, are those of the whole. */
  lemma CutKeepsEpochs(older: seq<ChainEntry>, newer: seq<ChainEntry>, found: seq<Str>)
    requires FirstOccurrences(found) == FirstOccurrences(EpochsAfter(None, older))
    ensures FirstOccurrences(found + EpochsAfter(None, newer)) == FirstOccurrences(EpochsAfter(None, older + newer))
  {
    EpochsOfRange(older);
    EpochsOfRange(newer);
    EpochsOfRange(older + newer);
    EpochIdsOfJoin(older, newer);
    FirstOccurrencesOfReducedRight(found, EpochsAfter(None, newer));
    FirstOccurrencesOfParts(found, EpochIds(older), EpochIds(newer));
  }

  /** The deduplicated epochs of the pages are those of one pass, for any rows and any cut. */
  lemma {:induction false} PagingKeepsEpochs(pages: seq<seq<ChainEntry>>)
    ensures FirstOccurrences(PageEpochs(pages)) == FirstOccurrences(EpochsAfter(None, Whole(pages)))
  {
    if pages != [] {
      PagingKeepsEpochs(pages[1..]);
      CutKeepsEpochs(Whole(pages[1..]), pages[0], PageEpochs(pages[1..]));
    }
  }

  /** In chain order an epoch's rows are contiguous, so one pass already lists each epoch once. */
  lemma {:induction false} EpochsDistinct(prev: Option<ChainEntry>, es: seq<ChainEntry>)
    requires Ascending(es) && (prev.Some? && es != [] ==> SortsBelow(prev.value, es[0]))
    ensures var r := EpochsAfter(if prev.Some? then Some(prev.value.epochId) else None, es);
      Distinct(r) && (prev.Some? ==> forall i :: 0 <= i < |r| ==> StrLess(prev.value.epochId, r[i]))
    decreases |es|
  {
    if es != [] {
      var e, rest := es[0], es[1..];
      assert Ascending(rest) by { assert [e] + rest == es; AscendingTail(e, rest); }
      assert rest != [] ==> SortsBelow(e, rest[0]) by { assert rest != [] ==> es[1] == rest[0]; }
      EpochsDistinct(Some(e), rest);
      var r := EpochsAfter(Some(e.epochId), rest);
      StrLessTrichotomy(e.epochId, e.epochId);
      if prev.Some? && prev.value.epochId != e.epochId {
        forall i | 0 <= i < |r| ensures StrLess(prev.value.epochId, r[i]) {
          StrLessTransitive(prev.value.epochId, e.epochId, r[i]);
        }
      }
    }
  }

  lemma AscendingTail(e: ChainEntry, rest: seq<ChainEntry>)
    requires Ascending([e] + rest)
    ensures Ascending(rest)
  {
    var s := [e] + rest;
    assert forall i :: 0 <= i < |rest| ==> rest[i] == s[i + 1];
  }

  /** The last page's lower edge is the whole's. */
  lemma {:induction false} PagingKeepsLowerEdge(rehash: ChainEntry -> Str, pages: seq<seq<ChainEntry>>,
                                                boundary: Option<ChainEntry>)
    requires NonEmptyPages(pages) && pages != []
    ensures |PageVerdicts(rehash, pages, boundary)| == |pages|
    ensures PageVerdicts(rehash, pages, boundary)[|pages| - 1].lowerEdge == LowerEdgeOf(Whole(pages))
    decreases |pages|
  {
    WholeEnds(pages);
    PagesAggregate(rehash, pages, boundary);
    if |pages| > 1 {
      PagingKeepsLowerEdge(rehash, pages[1..], Some(pages[0][0]));
      WholeEnds(pages[1..]);
    }
  }
}
