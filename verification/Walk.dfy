/**
 * The paged walk of packages/cli/src/audit/walk.ts and the aggregation that
 * decides the exit code.
 */
module Walk {
  import opened Sequences
  import opened Wrappers
  import opened Utf16
  import opened EntryHash
  import opened VerifyChain
  import opened DecisionClosure

  const EXIT_BROKEN_CHAIN := 3
  const EXIT_UNCHECKED_EDGE := 4
  const EXIT_CONFLICTED_CLOSER := 5
  const EXIT_CANCELLED := 130

  const AUDIT_MAX_PAGES := 10_000

  /** Why a walk or a file read stopped; `PartialFile` arises on the file path only. */
  datatype StopReason = Exhausted | PageCeiling | CursorStalled | Cancelled | PartialFile

  datatype UncheckedReason = AtPageCeiling | AtStalledCursor | HeadNotGenesis | WalkCancelled | FilePartial

  /** One answer of the audit route: a page, newest row first, and the next cursor. */
  datatype Response = Response(entries: seq<ChainEntry>, nextCursor: Option<Str>)

  datatype WalkResult = WalkResult(
    pages: seq<ChainVerdict>, closures: seq<ClosureVerdict>, closureCarry: seq<CloserRef>,
    entriesSeen: nat, pagesFetched: nat, newest: Option<ChainLocation>, oldest: Option<ChainLocation>,
    cursorExhausted: bool, stopReason: StopReason)

  // ---------------------------------------------------------------------
  // Closure verdicts, page by page
  // ---------------------------------------------------------------------

  /** The carry left after the pages, newest page first. */
  function FinalCarry(pages: seq<seq<ChainEntry>>, carry: seq<CloserRef>): seq<CloserRef>
    decreases |pages|
  {
    if pages == [] then carry else FinalCarry(pages[1..], ClosureOf(pages[0], carry, true).carry)
  }

  function ClosureVerdicts(pages: seq<seq<ChainEntry>>, carry: seq<CloserRef>): (r: seq<ClosureVerdict>)
    ensures |r| == |pages|
    decreases |pages|
  {
    if pages == [] then []
    else [ClosureOf(pages[0], carry, true)] + ClosureVerdicts(pages[1..], ClosureOf(pages[0], carry, true).carry)
  }

  function AllConflicted(closures: seq<ClosureVerdict>): seq<DecisionClosure> {
    if closures == [] then [] else AllConflicted(closures[1..]) + closures[0].conflicted
  }

  function AllUnresolved(closures: seq<ClosureVerdict>): seq<DecisionClosure> {
    if closures == [] then [] else AllUnresolved(closures[1..]) + closures[0].unresolved
  }

  function TotalDecisions(closures: seq<ClosureVerdict>): nat {
    if closures == [] then 0 else closures[0].decisionsChecked + TotalDecisions(closures[1..])
  }

  /** Page by page, the closure check finds what one run over all rows finds, in the same order. */
  lemma {:induction false} PagingKeepsClosures(pages: seq<seq<ChainEntry>>, carry: seq<CloserRef>)
    requires pages != []
    ensures var cs, whole := ClosureVerdicts(pages, carry), ClosureOf(Whole(pages), carry, true);
      && AllConflicted(cs) == whole.conflicted && AllUnresolved(cs) == whole.unresolved
      && TotalDecisions(cs) == whole.decisionsChecked && FinalCarry(pages, carry) == whole.carry
      && cs[|cs| - 1].carry == whole.carry
    decreases |pages|
  {
    var v := ClosureOf(pages[0], carry, true);
    if |pages| == 1 {
      assert Whole(pages) == [] + pages[0] == pages[0];
    } else {
      PagingKeepsClosures(pages[1..], v.carry);
      ResumeIsExact(Whole(pages[1..]), pages[0], carry, true);
    }
  }

  // ---------------------------------------------------------------------
  // The walk
  // ---------------------------------------------------------------------

  /** The pages a walk keeps, newest first and in the route's order, and how it ended. */
  datatype Accepted = Accepted(pages: seq<seq<ChainEntry>>, stopReason: StopReason, cursorExhausted: bool)

  /**
   * What a walk keeps of the answers `serve` gives to its successive requests,
   * when its signal reads `aborted` at successive page boundaries.
   */
  function Accept(serve: nat -> Response, aborted: nat -> bool, k: nat, previousOldest: Option<ChainEntry>): (r: Accepted)
    ensures NonEmptyPages(r.pages)
    decreases AUDIT_MAX_PAGES - k
  {
    if aborted(k) then Accepted([], Cancelled, false)
    else if k >= AUDIT_MAX_PAGES then Accepted([], PageCeiling, false)
    else
      var page := serve(k).entries;
      if page == [] then Accepted([], Exhausted, serve(k).nextCursor == None)
      else if previousOldest.Some? && !SortsBelow(page[0], previousOldest.value) then Accepted([], CursorStalled, false)
      else if serve(k).nextCursor == None then Accepted([page], Exhausted, true)
      else
        var rest := Accept(serve, aborted, k + 1, Some(page[|page| - 1]));
        Accepted([page] + rest.pages, rest.stopReason, rest.cursorExhausted)
  }

  predicate NonNegative(page: seq<ChainEntry>) {
    forall i :: 0 <= i < |page| ==> page[i].sequenceNum >= 0
  }

  // How a walk ends

  /** The oldest row kept so far, if any. */
  function OldestKept(previousOldest: Option<ChainEntry>, pages: seq<seq<ChainEntry>>): Option<ChainEntry>
    requires NonEmptyPages(pages)
  {
    if pages == [] then previousOldest else Some(pages[|pages| - 1][|pages[|pages| - 1]| - 1])
  }

  /** The page starts strictly below this row, by epoch and then by sequence number. */
  predicate StartsBelow(page: seq<ChainEntry>, row: Option<ChainEntry>) {
    page != [] && row.Some? ==>
      StrLess(page[0].epochId, row.value.epochId)
      || (page[0].epochId == row.value.epochId && page[0].sequenceNum < row.value.sequenceNum)
  }

  /** Turn k takes this page: no cancel, below the ceiling, and the answer is a page that starts below the rows kept. */
  predicate Takes(serve: nat -> Response, aborted: nat -> bool, k: nat, oldest: Option<ChainEntry>, page: seq<ChainEntry>) {
    && !aborted(k) && k < 10_000
    && serve(k).entries == page && page != [] && StartsBelow(page, oldest)
  }

  /** After the pages taken from turn k on, the walk looks for one more: it has none yet, or the last cursor was open. */
  predicate GoesOn(serve: nat -> Response, k: nat, n: nat) { n == 0 || serve(k + n - 1).nextCursor.Some? }

  /** What makes turn m the last, if it is reached. */
  predicate StopsAt(serve: nat -> Response, aborted: nat -> bool, m: nat, oldest: Option<ChainEntry>, reason: StopReason,
                    exhausted: bool) {
    && (reason == Cancelled <==> aborted(m))
    && (reason == PageCeiling <==> !aborted(m) && m >= 10_000)
    && (reason == CursorStalled <==> !aborted(m) && m < 10_000 && serve(m).entries != [] && !StartsBelow(serve(m).entries, oldest))
    && (reason == Exhausted <==> !aborted(m) && m < 10_000 && serve(m).entries == [])
    && reason != PartialFile
    && (exhausted <==> reason == Exhausted && serve(m).nextCursor == None)
  }

  /**
   * From turn k on the walk keeps just these pages and ends so: every page is
   * what its turn was served and was taken, every cursor but perhaps the last
   * was open, and it ended on a closed cursor, or at the turn after the last
   * page for the reason that holds there.
   */
  predicate EndsFrom(serve: nat -> Response, aborted: nat -> bool, k: nat, previousOldest: Option<ChainEntry>, r: Accepted)
    requires NonEmptyPages(r.pages)
  {
    var n := |r.pages|;
    && (forall i :: 0 <= i < n ==> TakenAt(serve, aborted, k, previousOldest, r.pages, i))
    && if GoesOn(serve, k, n) then StopsAt(serve, aborted, k + n, OldestKept(previousOldest, r.pages), r.stopReason, r.cursorExhausted)
       else r.stopReason == Exhausted && r.cursorExhausted
  }

  /** The i-th page is taken, after pages that left the walk going on. */
  predicate TakenAt(serve: nat -> Response, aborted: nat -> bool, k: nat, previousOldest: Option<ChainEntry>,
                    pages: seq<seq<ChainEntry>>, i: nat)
    requires NonEmptyPages(pages) && i < |pages|
  {
    GoesOn(serve, k, i) && Takes(serve, aborted, k + i, OldestKept(previousOldest, pages[..i]), pages[i])
  }

  /** How the whole walk ends. */
  predicate WalkEnds(serve: nat -> Response, aborted: nat -> bool, r: Accepted)
    requires NonEmptyPages(r.pages)
  {
    EndsFrom(serve, aborted, 0, None, r)
  }

  lemma OldestShift(page: seq<ChainEntry>, pages: seq<seq<ChainEntry>>, i: nat, previousOldest: Option<ChainEntry>)
    requires page != [] && NonEmptyPages(pages) && i <= |pages|
    ensures NonEmptyPages([page] + pages)
    ensures OldestKept(previousOldest, ([page] + pages)[..i + 1]) == OldestKept(Some(page[|page| - 1]), pages[..i])
  {
    assert ([page] + pages)[..i + 1] == [page] + pages[..i];
  }

  lemma TakenShift(serve: nat -> Response, aborted: nat -> bool, k: nat, page: seq<ChainEntry>, pages: seq<seq<ChainEntry>>,
                   i: nat, previousOldest: Option<ChainEntry>)
    requires page != [] && NonEmptyPages(pages) && i < |pages| && serve(k).nextCursor.Some?
    ensures NonEmptyPages([page] + pages)
    ensures TakenAt(serve, aborted, k, previousOldest, [page] + pages, i + 1)
       <==> TakenAt(serve, aborted, k + 1, Some(page[|page| - 1]), pages, i)
  {
    OldestShift(page, pages, i, previousOldest);
    assert ([page] + pages)[i + 1] == pages[i] && k + (i + 1) == k + 1 + i;
  }

  lemma FirstTaken(serve: nat -> Response, aborted: nat -> bool, k: nat, page: seq<ChainEntry>, pages: seq<seq<ChainEntry>>,
                   previousOldest: Option<ChainEntry>)
    requires page != [] && NonEmptyPages(pages)
    ensures NonEmptyPages([page] + pages)
    ensures TakenAt(serve, aborted, k, previousOldest, [page] + pages, 0) <==> Takes(serve, aborted, k, previousOldest, page)
  {
    assert ([page] + pages)[..0] == [];
  }

  lemma LastShift(page: seq<ChainEntry>, pages: seq<seq<ChainEntry>>, previousOldest: Option<ChainEntry>)
    requires page != [] && NonEmptyPages(pages)
    ensures NonEmptyPages([page] + pages)
    ensures OldestKept(previousOldest, [page] + pages) == OldestKept(Some(page[|page| - 1]), pages)
  {
    OldestShift(page, pages, |pages|, previousOldest);
    assert ([page] + pages)[..|pages| + 1] == [page] + pages && pages[..|pages|] == pages;
  }

  /** One page in front of how the walk ends from the next turn on. */
  lemma EndsOneMore(serve: nat -> Response, aborted: nat -> bool, k: nat, previousOldest: Option<ChainEntry>,
                    page: seq<ChainEntry>, rest: Accepted, r: Accepted)
    requires NonEmptyPages(rest.pages) && NonEmptyPages(r.pages) && page != [] && serve(k).nextCursor.Some?
    requires r == rest.(pages := [page] + rest.pages)
    ensures EndsFrom(serve, aborted, k, previousOldest, r)
       <==> Takes(serve, aborted, k, previousOldest, page) && EndsFrom(serve, aborted, k + 1, Some(page[|page| - 1]), rest)
  {
    LastShift(page, rest.pages, previousOldest);
    FirstTaken(serve, aborted, k, page, rest.pages, previousOldest);
    var next, oldest := k + 1, Some(page[|page| - 1]);
    forall i | 0 < i < |r.pages|
      ensures TakenAt(serve, aborted, k, previousOldest, r.pages, i) <==> TakenAt(serve, aborted, next, oldest, rest.pages, i - 1)
    {
      TakenShift(serve, aborted, k, page, rest.pages, i - 1, previousOldest);
    }
    var n := |rest.pages|;
    assert GoesOn(serve, k, n + 1) <==> GoesOn(serve, next, n);
    if EndsFrom(serve, aborted, k, previousOldest, r) {
      assert TakenAt(serve, aborted, k, previousOldest, r.pages, 0);
      forall i | 0 <= i < n ensures TakenAt(serve, aborted, next, oldest, rest.pages, i) {
        assert TakenAt(serve, aborted, k, previousOldest, r.pages, i + 1);
      }
    }
    if Takes(serve, aborted, k, previousOldest, page) && EndsFrom(serve, aborted, next, oldest, rest) {
      forall i | 0 <= i < n + 1 ensures TakenAt(serve, aborted, k, previousOldest, r.pages, i) {
        if i > 0 {
          assert TakenAt(serve, aborted, next, oldest, rest.pages, i - 1);
        }
      }
    }
  }

  /** A turn that takes no page: the walk keeps none from here on, and the reason is the one that holds. */
  lemma EndsNow(serve: nat -> Response, aborted: nat -> bool, k: nat, previousOldest: Option<ChainEntry>, r: Accepted)
    requires NonEmptyPages(r.pages) && forall page :: !Takes(serve, aborted, k, previousOldest, page)
    ensures EndsFrom(serve, aborted, k, previousOldest, r) <==> r == Accept(serve, aborted, k, previousOldest)
  {
    if r.pages != [] {
      assert r.pages[..0] == [];
      if EndsFrom(serve, aborted, k, previousOldest, r) {
        assert TakenAt(serve, aborted, k, previousOldest, r.pages, 0);
      }
    }
    assert !Takes(serve, aborted, k, previousOldest, serve(k).entries);
  }

  lemma SomePageKept(serve: nat -> Response, aborted: nat -> bool, k: nat, previousOldest: Option<ChainEntry>, r: Accepted)
    requires NonEmptyPages(r.pages) && Takes(serve, aborted, k, previousOldest, serve(k).entries)
    requires EndsFrom(serve, aborted, k, previousOldest, r)
    ensures r.pages != [] && r.pages[0] == serve(k).entries
  {
    if r.pages != [] {
      assert r.pages[..0] == [];
      assert TakenAt(serve, aborted, k, previousOldest, r.pages, 0);
    }
  }

  /** A turn that takes the last page. */
  lemma EndsAfter(serve: nat -> Response, aborted: nat -> bool, k: nat, previousOldest: Option<ChainEntry>, r: Accepted)
    requires NonEmptyPages(r.pages) && Takes(serve, aborted, k, previousOldest, serve(k).entries) && serve(k).nextCursor == None
    ensures EndsFrom(serve, aborted, k, previousOldest, r) <==> r == Accepted([serve(k).entries], Exhausted, true)
  {
    if EndsFrom(serve, aborted, k, previousOldest, r) {
      SomePageKept(serve, aborted, k, previousOldest, r);
      assert |r.pages| > 1 ==> TakenAt(serve, aborted, k, previousOldest, r.pages, 1);
      assert r.pages == [serve(k).entries];
    }
    if r == Accepted([serve(k).entries], Exhausted, true) {
      FirstTaken(serve, aborted, k, serve(k).entries, [], previousOldest);
      JoinEmpty([serve(k).entries]);
    }
  }

  /** `Accept` is just how a walk ends. */
  lemma {:induction false} EndsIff(serve: nat -> Response, aborted: nat -> bool, k: nat, previousOldest: Option<ChainEntry>, r: Accepted)
    requires NonEmptyPages(r.pages)
    ensures EndsFrom(serve, aborted, k, previousOldest, r) <==> r == Accept(serve, aborted, k, previousOldest)
    decreases AUDIT_MAX_PAGES - k
  {
    var page := serve(k).entries;
    if !Takes(serve, aborted, k, previousOldest, page) {
      EndsNow(serve, aborted, k, previousOldest, r);
    } else if serve(k).nextCursor == None {
      EndsAfter(serve, aborted, k, previousOldest, r);
    } else {
      EndsOn(serve, aborted, k, previousOldest, r);
      if r.pages != [] && r.pages[0] == page {
        var rest := r.(pages := r.pages[1..]);
        EndsIff(serve, aborted, k + 1, Some(page[|page| - 1]), rest);
        assert r.pages == [page] + rest.pages;
      }
    }
  }

  /** A turn that takes a page with more to come. */
  lemma EndsOn(serve: nat -> Response, aborted: nat -> bool, k: nat, previousOldest: Option<ChainEntry>, r: Accepted)
    requires NonEmptyPages(r.pages) && Takes(serve, aborted, k, previousOldest, serve(k).entries) && serve(k).nextCursor.Some?
    ensures var page := serve(k).entries;
      EndsFrom(serve, aborted, k, previousOldest, r)
      <==> && r.pages != [] && r.pages[0] == page
           && EndsFrom(serve, aborted, k + 1, Some(page[|page| - 1]), r.(pages := r.pages[1..]))
  {
    var page := serve(k).entries;
    if EndsFrom(serve, aborted, k, previousOldest, r) {
      SomePageKept(serve, aborted, k, previousOldest, r);
    }
    if r.pages != [] && r.pages[0] == page {
      assert r.pages == [page] + r.pages[1..];
      EndsOneMore(serve, aborted, k, previousOldest, page, r.(pages := r.pages[1..]), r);
    }
  }

  /**
   * How any walk ends, for any answers and any cancels. With the pages it kept
   * and how it stopped, `WalkEnds` holds of the walk's own result and of no other.
   */
  lemma WalkEndsIff(serve: nat -> Response, aborted: nat -> bool, r: Accepted)
    requires NonEmptyPages(r.pages)
    ensures WalkEnds(serve, aborted, r) <==> r == Accept(serve, aborted, 0, None)
  {
    EndsIff(serve, aborted, 0, None, r);
  }

  predicate AllNonNegative(pages: seq<seq<ChainEntry>>) { forall i :: 0 <= i < |pages| ==> NonNegative(pages[i]) }

  /** Every row served has a non-negative sequence number; nothing is said of their order. */
  ghost predicate ServesNonNegative(serve: nat -> Response) { forall n :: NonNegative(serve(n).entries) }

  /** Each page starts strictly below the oldest row of the page before it, the first below `previousOldest`. */
  predicate StepsDown(pages: seq<seq<ChainEntry>>, previousOldest: Option<ChainEntry>)
    requires NonEmptyPages(pages)
  {
    && (forall k :: 0 < k < |pages| ==> SortsBelow(pages[k][0], pages[k - 1][|pages[k - 1]| - 1]))
    && (pages != [] && previousOldest.Some? ==> SortsBelow(pages[0][0], previousOldest.value))
  }

  /** One page above pages that step down from it. */
  lemma StepsDownOneMore(page: seq<ChainEntry>, rest: seq<seq<ChainEntry>>, previousOldest: Option<ChainEntry>)
    requires page != [] && NonEmptyPages(rest) && StepsDown(rest, Some(page[|page| - 1]))
    requires previousOldest.Some? ==> SortsBelow(page[0], previousOldest.value)
    ensures NonEmptyPages([page] + rest) && StepsDown([page] + rest, previousOldest)
  {
    var all := [page] + rest;
    forall k | 0 < k < |all| ensures SortsBelow(all[k][0], all[k - 1][|all[k - 1]| - 1]) {
      assert all[k] == rest[k - 1] && (k > 1 ==> all[k - 1] == rest[k - 2]);
    }
  }

  /** Whatever is served, the stall check lets only pages through that step down. */
  lemma {:induction false} AcceptedStepsDown(serve: nat -> Response, aborted: nat -> bool, k: nat, previousOldest: Option<ChainEntry>)
    ensures StepsDown(Accept(serve, aborted, k, previousOldest).pages, previousOldest)
    decreases AUDIT_MAX_PAGES - k
  {
    var page := serve(k).entries;
    if !aborted(k) && k < AUDIT_MAX_PAGES && page != [] && serve(k).nextCursor != None
      && (previousOldest.Some? ==> SortsBelow(page[0], previousOldest.value)) {
      AcceptedStepsDown(serve, aborted, k + 1, Some(page[|page| - 1]));
      StepsDownOneMore(page, Accept(serve, aborted, k + 1, Some(page[|page| - 1])).pages, previousOldest);
    }
  }

  lemma {:induction false} AcceptedAreServed(serve: nat -> Response, aborted: nat -> bool, k: nat, previousOldest: Option<ChainEntry>)
    requires ServesNonNegative(serve)
    ensures AllNonNegative(Accept(serve, aborted, k, previousOldest).pages)
    decreases AUDIT_MAX_PAGES - k
  {
    var page := serve(k).entries;
    assert NonNegative(serve(k).entries);
    if !aborted(k) && k < AUDIT_MAX_PAGES && page != [] && serve(k).nextCursor != None {
      AcceptedAreServed(serve, aborted, k + 1, Some(page[|page| - 1]));
    }
  }

  /** The pages turned around: each oldest row first. */
  function Ascend(pages: seq<seq<ChainEntry>>): (r: seq<seq<ChainEntry>>)
    ensures |r| == |pages|
    ensures forall k :: 0 <= k < |pages| ==> r[k] == Reverse(pages[k])
  {
    seq(|pages|, k requires 0 <= k < |pages| => Reverse(pages[k]))
  }

  function TotalRows(pages: seq<seq<ChainEntry>>): nat {
    if pages == [] then 0 else |pages[0]| + TotalRows(pages[1..])
  }

  function NewestOf(pages: seq<seq<ChainEntry>>): Option<ChainLocation>
    requires NonEmptyPages(pages)
  {
    if pages == [] then None else Some(Location(pages[0][0]))
  }

  function OldestOf(pages: seq<seq<ChainEntry>>): Option<ChainLocation>
    requires NonEmptyPages(pages)
  {
    if pages == [] then None
    else var last := pages[|pages| - 1]; Some(Location(last[|last| - 1]))
  }

  lemma {:induction false} PageVerdictsSnoc(rehash: ChainEntry -> Str, pages: seq<seq<ChainEntry>>,
                                            page: seq<ChainEntry>, boundary: Option<ChainEntry>)
    requires NonEmptyPages(pages) && page != []
    ensures NonEmptyPages(pages + [page])
    ensures PageVerdicts(rehash, pages + [page], boundary)
         == PageVerdicts(rehash, pages, boundary)
          + [RangeVerdict(rehash, page, if pages == [] then boundary else Some(pages[|pages| - 1][0]))]
    decreases |pages|
  {
    var all := pages + [page];
    if pages == [] {
      assert all[1..] == [];
    } else {
      assert all[1..] == pages[1..] + [page];
      PageVerdictsSnoc(rehash, pages[1..], page, Some(pages[0][0]));
    }
  }

  lemma {:induction false} ClosureVerdictsSnoc(pages: seq<seq<ChainEntry>>, page: seq<ChainEntry>, carry: seq<CloserRef>)
    ensures ClosureVerdicts(pages + [page], carry)
         == ClosureVerdicts(pages, carry) + [ClosureOf(page, FinalCarry(pages, carry), true)]
    ensures FinalCarry(pages + [page], carry) == ClosureOf(page, FinalCarry(pages, carry), true).carry
    decreases |pages|
  {
    var all := pages + [page];
    if pages == [] {
      assert all[1..] == [];
    } else {
      assert all[1..] == pages[1..] + [page];
      ClosureVerdictsSnoc(pages[1..], page, ClosureOf(pages[0], carry, true).carry);
    }
  }

  lemma AscendSnoc(pages: seq<seq<ChainEntry>>, page: seq<ChainEntry>)
    ensures Ascend(pages + [page]) == Ascend(pages) + [Reverse(page)]
  {
  }

  lemma {:induction false} TotalRowsSnoc(pages: seq<seq<ChainEntry>>, page: seq<ChainEntry>)
    ensures TotalRows(pages + [page]) == TotalRows(pages) + |page|
  {
    if pages != [] {
      assert (pages + [page])[1..] == pages[1..] + [page];
      TotalRowsSnoc(pages[1..], page);
    }
  }

  predicate AnyBreaks(pages: seq<ChainVerdict>) {
    pages != [] && (pages[|pages| - 1].breaks != [] || AnyBreaks(pages[..|pages| - 1]))
  }

  predicate AnyConflicts(closures: seq<ClosureVerdict>) {
    closures != [] && (closures[|closures| - 1].conflicted != [] || AnyConflicts(closures[..|closures| - 1]))
  }

  /** What a reading loop has found so far: verdicts, carry, boundary row, and which hooks fired. */
  datatype Checked = Checked(
    pages: seq<ChainVerdict>, closures: seq<ClosureVerdict>, carry: seq<CloserRef>,
    boundary: Option<ChainEntry>, breakFound: bool, conflictFound: bool)

  const NOTHING_CHECKED := Checked([], [], [], None, false, false)

  /** One page more: verify it against the boundary row and check closure against the carry. */
  function CheckNext(rehash: ChainEntry -> Str, c: Checked, page: seq<ChainEntry>): Checked
    requires page != []
  {
    var verdict, closure := RangeVerdict(rehash, page, c.boundary), ClosureOf(page, c.carry, true);
    Checked(c.pages + [verdict], c.closures + [closure], closure.carry, Some(page[0]),
            c.breakFound || verdict.breaks != [], c.conflictFound || closure.conflicted != [])
  }

  /** The state once these pages, each oldest row first, have been checked. */
  function CheckedPages(rehash: ChainEntry -> Str, asc: seq<seq<ChainEntry>>): Checked
    requires NonEmptyPages(asc)
  {
    if asc == [] then NOTHING_CHECKED
    else CheckNext(rehash, CheckedPages(rehash, asc[..|asc| - 1]), asc[|asc| - 1])
  }

  /** Verify one page and thread the boundary row and the closure carry on. */
  method CheckPage(rehash: ChainEntry -> Str, so: Checked, ascending: seq<ChainEntry>) returns (c: Checked)
    requires ascending != []
    ensures c == CheckNext(rehash, so, ascending)
  {
    var breakFound, conflictFound := so.breakFound, so.conflictFound;
    var verdict := VerifyChainRange(rehash, ascending, so.boundary);
    if |verdict.breaks| > 0 && !breakFound {
      breakFound := true;
    }
    var closure := CheckDecisionClosure(ascending, so.carry, true);
    if |closure.conflicted| > 0 && !conflictFound {
      conflictFound := true;
    }
    c := Checked(so.pages + [verdict], so.closures + [closure], closure.carry, Some(ascending[0]), breakFound, conflictFound);
  }

  lemma NextMeaning(rehash: ChainEntry -> Str, init: seq<seq<ChainEntry>>, page: seq<ChainEntry>, c: Checked)
    requires NonEmptyPages(init) && page != [] && MeansChecked(rehash, init, c)
    ensures NonEmptyPages(init + [page]) && MeansChecked(rehash, init + [page], CheckNext(rehash, c, page))
  {
    PageVerdictsSnoc(rehash, init, page, None);
    ClosureVerdictsSnoc(init, page, []);
    var d := CheckNext(rehash, c, page);
    assert d.pages[..|d.pages| - 1] == c.pages;
    assert d.closures[..|d.closures| - 1] == c.closures;
  }

  /** The page verdicts, closure verdicts and final carry; and each hook fires iff it must. */
  predicate MeansChecked(rehash: ChainEntry -> Str, asc: seq<seq<ChainEntry>>, c: Checked)
    requires NonEmptyPages(asc)
  {
    && c.pages == PageVerdicts(rehash, asc, None)
    && c.closures == ClosureVerdicts(asc, []) && c.carry == FinalCarry(asc, [])
    && c.boundary == (if asc == [] then None else Some(asc[|asc| - 1][0]))
    && c.breakFound == AnyBreaks(c.pages) && c.conflictFound == AnyConflicts(c.closures)
  }

  lemma {:induction false} CheckedPagesMeaning(rehash: ChainEntry -> Str, asc: seq<seq<ChainEntry>>)
    requires NonEmptyPages(asc)
    ensures MeansChecked(rehash, asc, CheckedPages(rehash, asc))
  {
    if asc != [] {
      var init, page := asc[..|asc| - 1], asc[|asc| - 1];
      CheckedPagesMeaning(rehash, init);
      SplitLast(asc);
      NextMeaning(rehash, init, page, CheckedPages(rehash, init));
    }
  }

  /** What is kept after the page of request k. */
  function AfterPage(serve: nat -> Response, aborted: nat -> bool, k: nat): Accepted
    requires serve(k).entries != []
  {
    var page := serve(k).entries;
    if serve(k).nextCursor == None then Accepted([], Exhausted, true)
    else Accept(serve, aborted, k + 1, Some(page[|page| - 1]))
  }

  lemma AcceptPage(serve: nat -> Response, aborted: nat -> bool, k: nat, previousOldest: Option<ChainEntry>)
    requires !aborted(k) && k < AUDIT_MAX_PAGES && serve(k).entries != []
    requires previousOldest.Some? ==> SortsBelow(serve(k).entries[0], previousOldest.value)
    ensures var rest := AfterPage(serve, aborted, k);
      Accept(serve, aborted, k, previousOldest)
        == Accepted([serve(k).entries] + rest.pages, rest.stopReason, rest.cursorExhausted)
  {
    JoinEmpty([serve(k).entries]);
  }

  /** The loop variables of a walk; `delivered` is what `onPage` has received. */
  datatype WalkState = WalkState(
    found: Checked, delivered: seq<seq<ChainEntry>>, previousOldest: Option<ChainEntry>,
    entriesSeen: nat, pagesFetched: nat, newest: Option<ChainLocation>, oldest: Option<ChainLocation>)

  /** What a walk finds on the pages it kept; a dump walk verifies nothing. */
  function FoundOn(rehash: ChainEntry -> Str, verify: bool, pages: seq<seq<ChainEntry>>): Checked
    requires NonEmptyPages(pages)
  {
    if verify then CheckedPages(rehash, Ascend(pages)) else NOTHING_CHECKED
  }

  lemma FoundOnSnoc(rehash: ChainEntry -> Str, pages: seq<seq<ChainEntry>>, page: seq<ChainEntry>)
    requires NonEmptyPages(pages) && page != []
    ensures NonEmptyPages(pages + [page])
    ensures FoundOn(rehash, true, pages + [page]) == CheckNext(rehash, FoundOn(rehash, true, pages), Reverse(page))
  {
    AscendSnoc(pages, page);
    assert Ascend(pages + [page])[..|pages|] == Ascend(pages);
  }

  /** The loop variables once these pages have been kept. */
  function StateAfter(rehash: ChainEntry -> Str, verify: bool, pages: seq<seq<ChainEntry>>): WalkState
    requires NonEmptyPages(pages)
  {
    WalkState(
      FoundOn(rehash, verify, pages), pages, LastRow(pages),
      TotalRows(pages), |pages|, NewestOf(pages), OldestOf(pages))
  }

  function LastRow(pages: seq<seq<ChainEntry>>): Option<ChainEntry>
    requires NonEmptyPages(pages)
  {
    if pages == [] then None
    else var last := pages[|pages| - 1]; Some(last[|last| - 1])
  }

  lemma EdgesSnoc(pages: seq<seq<ChainEntry>>, page: seq<ChainEntry>)
    requires NonEmptyPages(pages) && page != []
    ensures NonEmptyPages(pages + [page])
    ensures NewestOf(pages + [page]) == if NewestOf(pages) == None then Some(Location(page[0])) else NewestOf(pages)
    ensures OldestOf(pages + [page]) == Some(Location(page[|page| - 1]))
    ensures LastRow(pages + [page]) == Some(page[|page| - 1])
  {
  }

  /** How one more page moves the loop variables. */
  lemma StateSnoc(rehash: ChainEntry -> Str, verify: bool, pages: seq<seq<ChainEntry>>, page: seq<ChainEntry>)
    requires NonEmptyPages(pages) && page != []
    ensures NonEmptyPages(pages + [page])
    ensures var was := StateAfter(rehash, verify, pages);
      StateAfter(rehash, verify, pages + [page])
      == WalkState(if verify then CheckNext(rehash, was.found, Reverse(page)) else was.found, pages + [page],
                   Some(page[|page| - 1]), was.entriesSeen + |page|, was.pagesFetched + 1,
                   if was.newest == None then Some(Location(page[0])) else was.newest, Some(Location(page[|page| - 1])))
  {
    TotalRowsSnoc(pages, page);
    EdgesSnoc(pages, page);
    FoundOnSnoc(rehash, pages, page);
  }

  /** Take one page into the walk. */
  method KeepPage(rehash: ChainEntry -> Str, verify: bool, st: WalkState, page: seq<ChainEntry>) returns (next: WalkState)
    requires NonEmptyPages(st.delivered) && page != [] && st == StateAfter(rehash, verify, st.delivered)
    ensures next.delivered == st.delivered + [page] && NonEmptyPages(next.delivered)
    ensures next.pagesFetched == st.pagesFetched + 1 && next.previousOldest == Some(page[|page| - 1])
    ensures next == StateAfter(rehash, verify, next.delivered)
  {
    var newest := if st.newest == None then Some(Location(page[0])) else st.newest;
    var pageOldest := page[|page| - 1];
    var found := st.found;
    if verify {
      found := CheckPage(rehash, found, Reverse(page));
    }
    next := WalkState(found, st.delivered + [page], Some(pageOldest), st.entriesSeen + |page|, st.pagesFetched + 1,
                      newest, Some(Location(pageOldest)));
    StateSnoc(rehash, verify, st.delivered, page);
  }

  /** The result of a walk that kept these pages. */
  function WalkOf(rehash: ChainEntry -> Str, verify: bool, kept: Accepted): WalkResult
    requires NonEmptyPages(kept.pages)
  {
    ResultOf(StateAfter(rehash, verify, kept.pages), kept.cursorExhausted, kept.stopReason)
  }

  function ResultOf(st: WalkState, cursorExhausted: bool, stopReason: StopReason): WalkResult {
    WalkResult(st.found.pages, st.found.closures, st.found.carry, st.entriesSeen, st.pagesFetched, st.newest, st.oldest,
               cursorExhausted, stopReason)
  }

  /**
   * What a walk's result says of its extent: every row delivered is counted, and
   * the newest and the oldest location are those of the first row of the first
   * page and of the last row of the last.
   */
  lemma ExtentByColumns(rehash: ChainEntry -> Str, verify: bool, kept: Accepted)
    requires NonEmptyPages(kept.pages)
    ensures var r, rows := WalkOf(rehash, verify, kept), Concat(kept.pages);
      && r.entriesSeen == |rows| && r.pagesFetched == |kept.pages|
      && r.cursorExhausted == kept.cursorExhausted && r.stopReason == kept.stopReason
      && (rows == [] ==> r.newest == None && r.oldest == None)
      && (rows != [] ==>
            && r.newest == Some(ChainLocation(rows[0].epochId, rows[0].sequenceNum))
            && r.oldest == Some(ChainLocation(rows[|rows| - 1].epochId, rows[|rows| - 1].sequenceNum)))
  {
    RowsCounted(kept.pages);
    if kept.pages != [] {
      EndsOfRows(kept.pages);
    }
  }

  /** A verifying walk returns one verdict of each kind a page, and a walk that does not verify none. */
  lemma VerdictsByPage(rehash: ChainEntry -> Str, verify: bool, kept: Accepted)
    requires NonEmptyPages(kept.pages)
    ensures var r := WalkOf(rehash, verify, kept);
      && r.pages == (if verify then PageVerdicts(rehash, Ascend(kept.pages), None) else [])
      && r.closures == (if verify then ClosureVerdicts(Ascend(kept.pages), []) else [])
  {
    CheckedPagesMeaning(rehash, Ascend(kept.pages));
  }

  lemma {:induction false} RowsCounted(pages: seq<seq<ChainEntry>>)
    ensures TotalRows(pages) == |Concat(pages)|
  {
    if pages != [] {
      RowsCounted(pages[1..]);
    }
  }

  lemma EndsOfRows(pages: seq<seq<ChainEntry>>)
    requires NonEmptyPages(pages) && pages != []
    ensures var rows, last := Concat(pages), pages[|pages| - 1];
      rows != [] && rows[0] == pages[0][0] && rows[|rows| - 1] == last[|last| - 1]
  {
    var last := pages[|pages| - 1];
    SplitLast(pages);
    ConcatSnoc(pages[..|pages| - 1], last);
    JoinLast(Concat(pages[..|pages| - 1]), last);
    assert Concat(pages) == pages[0] + Concat(pages[1..]);
  }

  /** How one turn of the loop ended. */
  datatype Turn = GoOn | Stop(reason: StopReason, cursorExhausted: bool)

  /** What the walk keeps from here on, given how this turn ended. */
  function Onward(serve: nat -> Response, aborted: nat -> bool, next: WalkState, turn: Turn): (r: Accepted)
    ensures NonEmptyPages(r.pages)
  {
    match turn
    case Stop(reason, exhausted) => Accepted([], reason, exhausted)
    case GoOn => Accept(serve, aborted, next.pagesFetched, next.previousOldest)
  }

  /** One turn of the loop: at most one page taken. */
  method TakeTurn(rehash: ChainEntry -> Str, serve: nat -> Response, aborted: nat -> bool, verify: bool, st: WalkState)
    returns (next: WalkState, turn: Turn)
    requires NonEmptyPages(st.delivered) && st == StateAfter(rehash, verify, st.delivered)
    ensures NonEmptyPages(next.delivered) && next == StateAfter(rehash, verify, next.delivered)
    ensures st.delivered + Accept(serve, aborted, st.pagesFetched, st.previousOldest).pages
         == next.delivered + Onward(serve, aborted, next, turn).pages
    ensures var was, left := Accept(serve, aborted, st.pagesFetched, st.previousOldest), Onward(serve, aborted, next, turn);
      was.stopReason == left.stopReason && was.cursorExhausted == left.cursorExhausted
    ensures turn.GoOn? ==> st.pagesFetched < next.pagesFetched <= AUDIT_MAX_PAGES
  {
    next := st;
    if aborted(st.pagesFetched) {
      turn := Stop(Cancelled, false);
      return;
    }
    if st.pagesFetched >= AUDIT_MAX_PAGES {
      turn := Stop(PageCeiling, false);
      return;
    }
    var response := serve(st.pagesFetched);
    var page := response.entries;
    if |page| == 0 {
      // Nothing was served: the log is empty, or the last page was a full one.
      turn := Stop(Exhausted, response.nextCursor == None);
      return;
    }
    if st.previousOldest.Some? && !SortsBelow(page[0], st.previousOldest.value) {
      turn := Stop(CursorStalled, false);
      return;
    }
    AcceptPage(serve, aborted, st.pagesFetched, st.previousOldest);
    next := KeepPage(rehash, verify, st, page);
    JoinAssoc(st.delivered, [page], AfterPage(serve, aborted, st.pagesFetched).pages);
    turn := if response.nextCursor == None then Stop(Exhausted, true) else GoOn;
  }

  /**
   * The walk loop. The final state carries what `onPage` received and the two
   * flags that fire the break and conflict hooks.
   */
  method WalkAuditChain(rehash: ChainEntry -> Str, serve: nat -> Response, aborted: nat -> bool, verify: bool)
    returns (result: WalkResult, st: WalkState)
    ensures st == StateAfter(rehash, verify, Accept(serve, aborted, 0, None).pages)
    ensures result == WalkOf(rehash, verify, Accept(serve, aborted, 0, None))
    ensures WalkEnds(serve, aborted, Accepted(st.delivered, result.stopReason, result.cursorExhausted))
  {
    st := WalkState(NOTHING_CHECKED, [], None, 0, 0, None, None);
    assert st == StateAfter(rehash, verify, []);
    ghost var kept := Accept(serve, aborted, 0, None);
    WalkEndsIff(serve, aborted, kept);
    JoinEmpty(kept.pages);
    var turn := GoOn;
    while turn == GoOn
      invariant NonEmptyPages(st.delivered) && st == StateAfter(rehash, verify, st.delivered)
      invariant turn.GoOn? ==> st.pagesFetched <= AUDIT_MAX_PAGES
      invariant kept.pages == st.delivered + Onward(serve, aborted, st, turn).pages
      invariant kept.stopReason == Onward(serve, aborted, st, turn).stopReason
      invariant kept.cursorExhausted == Onward(serve, aborted, st, turn).cursorExhausted
      decreases turn.GoOn?, AUDIT_MAX_PAGES - st.pagesFetched
    {
      st, turn := TakeTurn(rehash, serve, aborted, verify, st);
    }
    JoinEmpty(st.delivered);
    result := ResultOf(st, turn.cursorExhausted, turn.reason);
  }
}
