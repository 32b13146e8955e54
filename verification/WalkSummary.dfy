/**
 * The aggregation of packages/cli/src/audit/walk.ts: per-page verdicts in, the
 * command's verdict and exit code out. The theorems here say what that exit
 * code means about the log.
 */
module WalkSummary {
  import opened Sequences
  import opened Wrappers
  import opened Utf16
  import opened EntryHash
  import opened VerifyChain
  import opened DecisionClosure
  import opened Walk

  datatype WalkSummary = WalkSummary(
    exitCode: int, breaks: seq<ChainBreak>, entriesChecked: nat, epochsCovered: seq<Str>,
    genesisShapedHead: bool, uncheckedReasons: seq<UncheckedReason>,
    conflicted: seq<DecisionClosure>, unresolved: seq<DecisionClosure>, uncheckedClosures: seq<CloserRef>)

  function HeadEdge(pages: seq<ChainVerdict>): LowerEdge {
    if pages == [] then LowerClosed else pages[|pages| - 1].lowerEdge
  }

  function ReasonsOf(stopReason: StopReason, headUnchecked: bool): seq<UncheckedReason> {
    match stopReason
    case PageCeiling => [AtPageCeiling]
    case CursorStalled => [AtStalledCursor]
    case Cancelled => [WalkCancelled]
    case PartialFile => [FilePartial]
    case Exhausted => if headUnchecked then [HeadNotGenesis] else []
  }

  /** The exit-code ladder. */
  function ExitCode(broken: bool, conflict: bool, stopReason: StopReason, cursorExhausted: bool, headUnchecked: bool): int {
    if broken then EXIT_BROKEN_CHAIN
    else if conflict then EXIT_CONFLICTED_CLOSER
    else if stopReason == Cancelled then EXIT_CANCELLED
    else if !cursorExhausted then EXIT_UNCHECKED_EDGE
    else if headUnchecked || stopReason == PartialFile then EXIT_UNCHECKED_EDGE
    else 0
  }

  function SummarizeWalk(pages: seq<ChainVerdict>, cursorExhausted: bool, stopReason: StopReason, closures: seq<ClosureVerdict>): WalkSummary {
    var breaks, conflicted := AllBreaks(pages), AllConflicted(closures);
    var headUnchecked := HeadEdge(pages).LowerUnchecked?;
    WalkSummary(
      ExitCode(breaks != [], conflicted != [], stopReason, cursorExhausted, headUnchecked),
      breaks, TotalChecked(pages), FirstOccurrences(AllEpochs(pages)),
      HeadEdge(pages).GenesisShaped?, ReasonsOf(stopReason, headUnchecked),
      conflicted, AllUnresolved(closures), if closures == [] then [] else closures[|closures| - 1].carry)
  }

  /** The summary of the pages a walk or a file read kept, each oldest row first. */
  function SummaryOf(rehash: ChainEntry -> Str, asc: seq<seq<ChainEntry>>, cursorExhausted: bool,
                     stopReason: StopReason): WalkSummary
    requires NonEmptyPages(asc)
  {
    SummarizeWalk(PageVerdicts(rehash, asc, None), cursorExhausted, stopReason, ClosureVerdicts(asc, []))
  }

  /** A log as a single page; the empty log has none. */
  function OnePage(log: seq<ChainEntry>): seq<seq<ChainEntry>> { if log == [] then [] else [log] }

  /** Equal up to the order in which the breaks of one row are listed. */
  predicate SameSummary(a: WalkSummary, b: WalkSummary) {
    SameBreaks(a.breaks, b.breaks) && a.(breaks := []) == b.(breaks := [])
  }

  lemma OnePageFacts(rehash: ChainEntry -> Str, log: seq<ChainEntry>)
    requires log != []
    ensures NonEmptyPages([log]) && Whole([log]) == log
    ensures PageVerdicts(rehash, [log], None) == [RangeVerdict(rehash, log, None)]
    ensures ClosureVerdicts([log], []) == [ClosureOf(log, [], true)]
  {
    assert [log][1..] == [];
    JoinEmpty(log);
  }

  /** Summarizing one verdict reports that verdict. */
  lemma SummarizeOne(v: ChainVerdict, c: ClosureVerdict, cursorExhausted: bool, stopReason: StopReason)
    ensures SummarizeWalk([v], cursorExhausted, stopReason, [c]) == WalkSummary(
      ExitCode(v.breaks != [], c.conflicted != [], stopReason, cursorExhausted, v.lowerEdge.LowerUnchecked?),
      v.breaks, v.entriesChecked, FirstOccurrences(v.epochsCovered), v.lowerEdge.GenesisShaped?,
      ReasonsOf(stopReason, v.lowerEdge.LowerUnchecked?), c.conflicted, c.unresolved, c.carry)
  {
    assert [v][1..] == [] && [c][1..] == [];
    assert AllBreaks([v]) == [] + v.breaks == v.breaks;
    assert AllEpochs([v]) == [] + v.epochsCovered == v.epochsCovered;
    assert AllConflicted([c]) == [] + c.conflicted == c.conflicted;
    assert AllUnresolved([c]) == [] + c.unresolved == c.unresolved;
    assert TotalChecked([v]) == v.entriesChecked;
  }

  predicate HeadUnchecked(log: seq<ChainEntry>) { log != [] && LowerEdgeOf(log).LowerUnchecked? }

  /** What one pass over the whole log reports. */
  function OnePassSummary(rehash: ChainEntry -> Str, log: seq<ChainEntry>, cursorExhausted: bool, stopReason: StopReason): WalkSummary {
    var breaks, c := RangeBreaks(rehash, log, None), ClosureOf(log, [], true);
    WalkSummary(
      ExitCode(breaks != [], c.conflicted != [], stopReason, cursorExhausted, HeadUnchecked(log)),
      breaks, |log|, FirstOccurrences(EpochsAfter(None, log)), log != [] && LowerEdgeOf(log).GenesisShaped?,
      ReasonsOf(stopReason, HeadUnchecked(log)), c.conflicted, c.unresolved, c.carry)
  }

  lemma OnePassIsOnePage(rehash: ChainEntry -> Str, log: seq<ChainEntry>, cursorExhausted: bool, stopReason: StopReason)
    ensures NonEmptyPages(OnePage(log))
    ensures SummaryOf(rehash, OnePage(log), cursorExhausted, stopReason) == OnePassSummary(rehash, log, cursorExhausted, stopReason)
  {
    if log != [] {
      OnePageFacts(rehash, log);
      SummarizeOne(RangeVerdict(rehash, log, None), ClosureOf(log, [], true), cursorExhausted, stopReason);
    }
  }

  /**
   * The central refinement: any rows, in any order, cut into any pages. The
   * summary is the one a single pass over all rows gives exactly when no page
   * edge has the excluded shape.
   */
  lemma PagingRefinesOnePass(rehash: ChainEntry -> Str, asc: seq<seq<ChainEntry>>, cursorExhausted: bool, stopReason: StopReason)
    requires NonEmptyPages(asc)
    ensures SameSummary(SummaryOf(rehash, asc, cursorExhausted, stopReason),
                        OnePassSummary(rehash, Whole(asc), cursorExhausted, stopReason))
       <==> EdgesSafe(asc)
  {
    if EdgesSafe(asc) {
      PagesAgree(rehash, asc);
      SummaryIsDetermined(rehash, asc, PageVerdicts(rehash, asc, None), ClosureVerdicts(asc, []), cursorExhausted, stopReason);
    } else {
      PagesAggregate(rehash, asc, None);
      PagingKeepsBreaks(rehash, asc, None);
    }
  }

  /** Page verdicts and closure verdicts that add up to those of one pass. */
  predicate AddUp(rehash: ChainEntry -> Str, log: seq<ChainEntry>, pages: seq<ChainVerdict>, closures: seq<ClosureVerdict>) {
    && SameBreaks(AllBreaks(pages), RangeBreaks(rehash, log, None))
    && TotalChecked(pages) == |log|
    && FirstOccurrences(AllEpochs(pages)) == FirstOccurrences(EpochsAfter(None, log))
    && HeadEdge(pages) == (if log == [] then LowerClosed else LowerEdgeOf(log))
    && AllConflicted(closures) == ClosureOf(log, [], true).conflicted
    && AllUnresolved(closures) == ClosureOf(log, [], true).unresolved
    && (if closures == [] then [] else closures[|closures| - 1].carry) == ClosureOf(log, [], true).carry
  }

  lemma PagesAgree(rehash: ChainEntry -> Str, asc: seq<seq<ChainEntry>>)
    requires NonEmptyPages(asc) && EdgesSafe(asc)
    ensures AddUp(rehash, Whole(asc), PageVerdicts(rehash, asc, None), ClosureVerdicts(asc, []))
  {
    PagesAggregate(rehash, asc, None);
    PagingKeepsBreaks(rehash, asc, None);
    PagingKeepsEpochs(asc);
    if asc != [] {
      WholeEnds(asc);
      PagingKeepsLowerEdge(rehash, asc, None);
      PagingKeepsClosures(asc, []);
    }
  }

  lemma SummaryIsDetermined(rehash: ChainEntry -> Str, asc: seq<seq<ChainEntry>>, pages: seq<ChainVerdict>,
                            closures: seq<ClosureVerdict>, cursorExhausted: bool, stopReason: StopReason)
    requires AddUp(rehash, Whole(asc), pages, closures)
    ensures SameSummary(SummarizeWalk(pages, cursorExhausted, stopReason, closures),
                        OnePassSummary(rehash, Whole(asc), cursorExhausted, stopReason))
  {
    SameBreaksSameLength(AllBreaks(pages), RangeBreaks(rehash, Whole(asc), None));
  }

  // ---------------------------------------------------------------------
  // What the exit code means
  // ---------------------------------------------------------------------

  /** Some owing decision has two or more later rows naming it, with no row of the same id before the second. */
  predicate HasConflict(log: seq<ChainEntry>) {
    exists i, j, k :: 0 <= i < j < k < |log| && Owes(log[i]) && NamedTwice(log, i, j, k)
  }

  predicate NamedTwice(log: seq<ChainEntry>, i: nat, j: nat, k: nat)
    requires i < j < k < |log|
  {
    Names(log[j], log[i].id) && Names(log[k], log[i].id) && forall m :: i < m < k ==> log[m].id != log[i].id
  }

  lemma {:induction false} NamingCount(es: seq<ChainEntry>, key: Str)
    ensures |Naming(es, key)| >= 1 <==> exists j :: 0 <= j < |es| && Names(es[j], key)
    ensures |Naming(es, key)| >= 2 <==> exists j, k :: 0 <= j < k < |es| && Names(es[j], key) && Names(es[k], key)
  {
    if es != [] {
      var rest := es[1..];
      NamingCount(rest, key);
      assert forall i :: 0 <= i < |rest| ==> rest[i] == es[i + 1];
      if |Naming(rest, key)| >= 1 {
        var j :| 0 <= j < |rest| && Names(rest[j], key);
        assert Names(es[j + 1], key);
      }
      if |Naming(rest, key)| >= 2 {
        var j, k :| 0 <= j < k < |rest| && Names(rest[j], key) && Names(rest[k], key);
        assert Names(es[j + 1], key) && Names(es[k + 1], key);
      }
      if j, k :| 0 <= j < k < |es| && Names(es[j], key) && Names(es[k], key) {
        assert Names(rest[k - 1], key);
        assert j > 0 ==> Names(rest[j - 1], key);
      }
      if j :| 0 < j < |es| && Names(es[j], key) {
        assert Names(rest[j - 1], key);
      }
    }
  }

  /** The i-th row owes a closer and at least two are found for it. */
  predicate ConflictAt(es: seq<ChainEntry>, i: nat)
    requires i < |es|
  {
    Owes(es[i]) && |NamersOf(es, i)| >= 2
  }

  lemma ConflictAtShift(es: seq<ChainEntry>, i: nat)
    requires i + 1 < |es|
    ensures ConflictAt(es[1..], i) == ConflictAt(es, i + 1)
  {
    assert es[1..][i + 1..] == es[i + 2..];
  }

  lemma FirstFindingConflicts(es: seq<ChainEntry>)
    requires es != []
    ensures Filter(IsConflicted, DeclaredFindings(es))
         == if ConflictAt(es, 0) then [Judge(es[0], NamersOf(es, 0), true)] + Filter(IsConflicted, DeclaredFindings(es[1..]))
            else Filter(IsConflicted, DeclaredFindings(es[1..]))
  {
    OwingRule(es[0]);
    if OwesCloser(es[0]) {
      var first := Judge(es[0], NamersOf(es, 0), true);
      StatusMeaning(es[0], NamersOf(es, 0));
      assert ([first] + DeclaredFindings(es[1..]))[1..] == DeclaredFindings(es[1..]);
    }
  }

  lemma {:induction false} ConflictsFound(es: seq<ChainEntry>)
    ensures Filter(IsConflicted, DeclaredFindings(es)) != [] <==> exists i :: 0 <= i < |es| && ConflictAt(es, i)
  {
    if es != [] {
      ConflictsFound(es[1..]);
      FirstFindingConflicts(es);
      if i :| 0 <= i < |es[1..]| && ConflictAt(es[1..], i) {
        ConflictAtShift(es, i);
      }
      if i :| 0 < i < |es| && ConflictAt(es, i) {
        ConflictAtShift(es, i - 1);
      }
    }
  }

  /** Two rows after the i-th name it, with no row of its id before the second. */
  predicate TwoNamers(log: seq<ChainEntry>, i: nat)
    requires i < |log|
  {
    exists j, k :: i < j < k < |log| && NamedTwice(log, i, j, k)
  }

  /** Two of these rows name the key, and no row before the second has it for its id. */
  predicate TwiceIn(tail: seq<ChainEntry>, key: Str, j: nat, k: nat)
    requires j < k < |tail|
  {
    Names(tail[j], key) && Names(tail[k], key) && forall m :: 0 <= m < k ==> tail[m].id != key
  }

  predicate Twice(tail: seq<ChainEntry>, key: Str) {
    exists j, k :: 0 <= j < k < |tail| && TwiceIn(tail, key, j, k)
  }

  lemma TwiceCounted(tail: seq<ChainEntry>, key: Str)
    ensures |Naming(UpToId(tail, key), key)| >= 2 <==> Twice(tail, key)
  {
    var r := UpToId(tail, key);
    NamingCount(r, key);
    if j, k :| 0 <= j < k < |r| && Names(r[j], key) && Names(r[k], key) {
      UpToIdReaches(tail, key, k);
      assert TwiceIn(tail, key, j, k);
    }
    if j, k :| 0 <= j < k < |tail| && TwiceIn(tail, key, j, k) {
      UpToIdReaches(tail, key, k);
      assert Names(r[j], key) && Names(r[k], key);
    }
  }

  lemma NamedTwiceIn(log: seq<ChainEntry>, i: nat, j: nat, k: nat)
    requires i < j < k < |log|
    ensures NamedTwice(log, i, j, k) <==> TwiceIn(log[i + 1..], log[i].id, j - i - 1, k - i - 1)
  {
    var tail := log[i + 1..];
    assert forall m :: 0 <= m < |tail| ==> tail[m] == log[i + 1 + m];
    if TwiceIn(tail, log[i].id, j - i - 1, k - i - 1) {
      forall m | i < m < k ensures log[m].id != log[i].id {
        assert tail[m - i - 1] == log[m];
      }
    }
  }

  lemma TwoNamersAre(log: seq<ChainEntry>, i: nat)
    requires i < |log|
    ensures TwoNamers(log, i) ==> Twice(log[i + 1..], log[i].id)
  {
    if j, k :| i < j < k < |log| && NamedTwice(log, i, j, k) {
      NamedTwiceIn(log, i, j, k);
    }
  }

  lemma TwiceAreNamers(log: seq<ChainEntry>, i: nat, tail: seq<ChainEntry>)
    requires i < |log| && tail == log[i + 1..]
    ensures Twice(tail, log[i].id) ==> TwoNamers(log, i)
  {
    if j, k :| 0 <= j < k < |tail| && TwiceIn(tail, log[i].id, j, k) {
      NamedTwiceIn(log, i, i + 1 + j, i + 1 + k);
    }
  }

  lemma TwoNamersCounted(log: seq<ChainEntry>, i: nat)
    requires i < |log|
    ensures |NamersOf(log, i)| >= 2 <==> TwoNamers(log, i)
  {
    TwiceCounted(log[i + 1..], log[i].id);
    TwoNamersAre(log, i);
    TwiceAreNamers(log, i, log[i + 1..]);
  }

  lemma HasConflictAt(log: seq<ChainEntry>)
    ensures HasConflict(log) <==> exists i :: 0 <= i < |log| && ConflictAt(log, i)
  {
    if i :| 0 <= i < |log| && ConflictAt(log, i) {
      TwoNamersCounted(log, i);
    }
    if i, j, k :| 0 <= i < j < k < |log| && Owes(log[i]) && NamedTwice(log, i, j, k) {
      assert TwoNamers(log, i);
      TwoNamersCounted(log, i);
      assert ConflictAt(log, i);
    }
  }

  /** A conflict is reported exactly when the log holds one, whatever its ids. */
  lemma ConflictReportedIff(log: seq<ChainEntry>)
    ensures ClosureOf(log, [], true).conflicted != [] <==> HasConflict(log)
  {
    FindingsAreDeclared(log);
    ConflictsFound(log);
    HasConflictAt(log);
  }

  /** The exit code a log deserves, from the rules alone. */
  function DeservedCode(rehash: ChainEntry -> Str, log: seq<ChainEntry>): int {
    if !RulesHold(rehash, log) then 3
    else if HasConflict(log) then 5
    else if log == [] || GenesisHead(log) then 0
    else 4
  }

  /** The exit code that the rows a read kept deserve, given how it ended. */
  function DeservedAfter(rehash: ChainEntry -> Str, rows: seq<ChainEntry>, stopReason: StopReason, cursorExhausted: bool): int {
    if !RulesHold(rehash, rows) then 3
    else if HasConflict(rows) then 5
    else if stopReason == Cancelled then 130
    else if cursorExhausted && stopReason != PartialFile && (rows == [] || GenesisHead(rows)) then 0
    else 4
  }

  /** What a summary says of coverage, given the rows and how the read ended. */
  predicate CoverageMeans(rows: seq<ChainEntry>, stopReason: StopReason, s: WalkSummary) {
    && (s.genesisShapedHead <==> GenesisHead(rows))
    && s.uncheckedReasons ==
       if stopReason == PageCeiling then [AtPageCeiling]
       else if stopReason == CursorStalled then [AtStalledCursor]
       else if stopReason == Cancelled then [WalkCancelled]
       else if stopReason == PartialFile then [FilePartial]
       else if rows != [] && !GenesisHead(rows) then [HeadNotGenesis]
       else []
  }

  /**
   * However any rows are cut and however the read ended, the summary names at
   * most one unchecked reason: why the read stopped early, or else a head that
   * is no genesis.
   */
  lemma CoverageIsTold(rehash: ChainEntry -> Str, asc: seq<seq<ChainEntry>>, cursorExhausted: bool, stopReason: StopReason)
    requires NonEmptyPages(asc)
    ensures CoverageMeans(Whole(asc), stopReason, SummaryOf(rehash, asc, cursorExhausted, stopReason))
  {
    if asc != [] {
      WholeEnds(asc);
      PagingKeepsLowerEdge(rehash, asc, None);
      HeadIsLast(rehash, asc);
      EdgesByColumns(rehash, Whole(asc), None);
    }
  }

  /** The head edge is the lower edge of the whole. */
  lemma HeadIsLast(rehash: ChainEntry -> Str, asc: seq<seq<ChainEntry>>)
    requires NonEmptyPages(asc) && asc != []
    ensures HeadEdge(PageVerdicts(rehash, asc, None)) == RangeVerdict(rehash, Whole(asc), None).lowerEdge
  {
    PagingKeepsLowerEdge(rehash, asc, None);
  }

  lemma UnsafeEdgeReportsBreak(rehash: ChainEntry -> Str, asc: seq<seq<ChainEntry>>, cursorExhausted: bool, stopReason: StopReason)
    requires NonEmptyPages(asc) && !EdgesSafe(asc)
    ensures SummaryOf(rehash, asc, cursorExhausted, stopReason).exitCode == EXIT_BROKEN_CHAIN
  {
    EdgesSafeIffNoneBad(asc);
    PagingCounts(rehash, asc, None);
    PagesAggregate(rehash, asc, None);
  }

  lemma SafeEdgesExitCode(rehash: ChainEntry -> Str, asc: seq<seq<ChainEntry>>, cursorExhausted: bool, stopReason: StopReason)
    requires NonEmptyPages(asc) && EdgesSafe(asc)
    ensures SummaryOf(rehash, asc, cursorExhausted, stopReason).exitCode
         == DeservedAfter(rehash, Whole(asc), stopReason, cursorExhausted)
  {
    PagingRefinesOnePass(rehash, asc, cursorExhausted, stopReason);
    BreakFreeIffRulesHold(rehash, Whole(asc));
    ConflictReportedIff(Whole(asc));
  }

  /**
   * However a read ended, its exit code is what the rows it kept deserve - 3 if
   * some rule fails on them, else 5 if some decision has two closers, else 130
   * if it was cancelled, else 0 only for a closed cursor or a whole file over
   * rows that are none or start genesis-shaped - exactly when no page edge has
   * the excluded shape or some rule fails anyway.
   */
  lemma ExitCodeAfterAnyEnd(rehash: ChainEntry -> Str, asc: seq<seq<ChainEntry>>, cursorExhausted: bool, stopReason: StopReason)
    requires NonEmptyPages(asc)
    ensures SummaryOf(rehash, asc, cursorExhausted, stopReason).exitCode
            == DeservedAfter(rehash, Whole(asc), stopReason, cursorExhausted)
       <==> EdgesSafe(asc) || !RulesHold(rehash, Whole(asc))
  {
    DeservesBroken(rehash, Whole(asc), stopReason, cursorExhausted);
    if EdgesSafe(asc) {
      SafeEdgesExitCode(rehash, asc, cursorExhausted, stopReason);
    } else {
      UnsafeEdgeReportsBreak(rehash, asc, cursorExhausted, stopReason);
    }
  }

  lemma DeservesBroken(rehash: ChainEntry -> Str, rows: seq<ChainEntry>, stopReason: StopReason, cursorExhausted: bool)
    ensures DeservedAfter(rehash, rows, stopReason, cursorExhausted) == EXIT_BROKEN_CHAIN <==> !RulesHold(rehash, rows)
  {
  }

  /**
   * The exit code of a completed read, over any pages of a log in chain order:
   * 3 exactly when some rule fails, 5 exactly when all rules hold and some
   * decision has two closers, 0 exactly when neither and the log is empty or
   * starts genesis-shaped, and 4 otherwise.
   */
  lemma ExitCodeMeaning(rehash: ChainEntry -> Str, asc: seq<seq<ChainEntry>>)
    requires NonEmptyPages(asc) && Ascending(Whole(asc))
    ensures SummaryOf(rehash, asc, true, Exhausted).exitCode == DeservedCode(rehash, Whole(asc))
  {
    ChainOrderIsSeamSafe(Whole(asc));
    SeamSafeEdges(asc);
    SafeEdgesExitCode(rehash, asc, true, Exhausted);
  }

  // ---------------------------------------------------------------------
  // A log served to exhaustion
  // ---------------------------------------------------------------------

  /**
   * From request k on the engine hands over `pages`, newest first, and then
   * closes its cursor: on the last page, or on one empty page after it.
   */
  predicate Serves(serve: nat -> Response, pages: seq<seq<ChainEntry>>, k: nat)
    decreases |pages|
  {
    if pages == [] then serve(k) == Response([], None)
    else
      && pages[0] != [] && serve(k).entries == pages[0]
      && if serve(k).nextCursor == None then |pages| == 1 else Serves(serve, pages[1..], k + 1)
  }

  /** The whole log is served in these pages, newest first, below the page ceiling, with no cancel. */
  ghost predicate ServedInFull(serve: nat -> Response, aborted: nat -> bool, log: seq<ChainEntry>, pages: seq<seq<ChainEntry>>) {
    && Concat(pages) == Reverse(log) && Serves(serve, pages, 0) && |pages| < AUDIT_MAX_PAGES
    && forall n :: !aborted(n)
  }

  /** Rows in the route's order: strictly descending. */
  predicate Descending(es: seq<ChainEntry>) {
    forall i, j :: 0 <= i < j < |es| ==> SortsBelow(es[j], es[i])
  }

  /** Served in order, never cancelled and under the ceiling, every page is kept. */
  lemma {:induction false} ServedPagesKept(serve: nat -> Response, aborted: nat -> bool, pages: seq<seq<ChainEntry>>,
                                           k: nat, previousOldest: Option<ChainEntry>)
    requires Serves(serve, pages, k) && (forall n :: !aborted(n)) && k + |pages| < AUDIT_MAX_PAGES
    requires Descending((if previousOldest.Some? then [previousOldest.value] else []) + Concat(pages))
    ensures Accept(serve, aborted, k, previousOldest) == Accepted(pages, Exhausted, true)
    decreases |pages|
  {
    if pages != [] {
      var page := pages[0];
      var all := (if previousOldest.Some? then [previousOldest.value] else []) + Concat(pages);
      var last := page[|page| - 1];
      assert previousOldest.Some? ==> all[0] == previousOldest.value && all[1] == page[0];
      if serve(k).nextCursor == None {
        assert pages == [page];
      } else {
        var p := |all| - |Concat(pages)|;
        var tail := [last] + Concat(pages[1..]);
        assert forall i :: 0 <= i < |tail| ==> tail[i] == all[p + |page| - 1 + i];
        ServedPagesKept(serve, aborted, pages[1..], k + 1, Some(last));
        assert pages == [page] + pages[1..];
      }
    }
  }

  lemma {:induction false} WholeOfAscended(pages: seq<seq<ChainEntry>>)
    ensures Whole(Ascend(pages)) == Reverse(Concat(pages))
  {
    if pages != [] {
      WholeOfAscended(pages[1..]);
      assert Ascend(pages)[1..] == Ascend(pages[1..]);
      ReverseOfJoin(pages[0], Concat(pages[1..]));
    }
  }

  lemma ReverseDescends(log: seq<ChainEntry>)
    requires Ascending(log)
    ensures Descending(Reverse(log))
  {
  }

  lemma {:induction false} ServedPagesNonEmpty(serve: nat -> Response, pages: seq<seq<ChainEntry>>, k: nat)
    requires Serves(serve, pages, k)
    ensures NonEmptyPages(pages)
    decreases |pages|
  {
    if pages != [] {
      if serve(k).nextCursor != None {
        ServedPagesNonEmpty(serve, pages[1..], k + 1);
      }
      assert forall i :: 0 < i < |pages| ==> pages[i] == pages[1..][i - 1];
    }
  }

  /** The summary `log verify` prints for a verifying walk that kept these pages. */
  function VerifySummary(rehash: ChainEntry -> Str, kept: Accepted): WalkSummary
    requires NonEmptyPages(kept.pages)
  {
    var r := WalkOf(rehash, true, kept);
    SummarizeWalk(r.pages, r.cursorExhausted, r.stopReason, r.closures)
  }

  /** Summarizing a verifying walk's result is summarizing the pages it kept. */
  lemma VerifySummaryOfKept(rehash: ChainEntry -> Str, kept: Accepted)
    requires NonEmptyPages(kept.pages)
    ensures VerifySummary(rehash, kept) == SummaryOf(rehash, Ascend(kept.pages), kept.cursorExhausted, kept.stopReason)
  {
    CheckedPagesMeaning(rehash, Ascend(kept.pages));
  }

  lemma KeptExitCode(rehash: ChainEntry -> Str, log: seq<ChainEntry>, pages: seq<seq<ChainEntry>>)
    requires NonEmptyPages(pages) && Whole(Ascend(pages)) == log && Ascending(log)
    ensures VerifySummary(rehash, Accepted(pages, Exhausted, true)).exitCode == DeservedCode(rehash, log)
  {
    VerifySummaryOfKept(rehash, Accepted(pages, Exhausted, true));
    ExitCodeMeaning(rehash, Ascend(pages));
  }

  /**
   * End to end: a log in chain order, served newest first to exhaustion below
   * the page ceiling in any page sizes, walked without a cancel. The exit code
   * says exactly what is true of the log.
   */
  lemma WalkExitCode(rehash: ChainEntry -> Str, serve: nat -> Response, aborted: nat -> bool, log: seq<ChainEntry>,
                     pages: seq<seq<ChainEntry>>)
    requires Ascending(log) && ServedInFull(serve, aborted, log, pages)
    ensures VerifySummary(rehash, Accept(serve, aborted, 0, None)).exitCode == DeservedCode(rehash, log)
  {
    HonestWalkKeepsLog(serve, aborted, log, pages);
    KeptExitCode(rehash, log, pages);
  }

  lemma HonestWalkKeepsLog(serve: nat -> Response, aborted: nat -> bool, log: seq<ChainEntry>, pages: seq<seq<ChainEntry>>)
    requires Ascending(log) && ServedInFull(serve, aborted, log, pages)
    ensures Accept(serve, aborted, 0, None) == Accepted(pages, Exhausted, true)
    ensures NonEmptyPages(pages) && Whole(Ascend(pages)) == log && TotalRows(pages) == |log|
  {
    ReverseDescends(log);
    JoinEmpty(Concat(pages));
    ServedPagesNonEmpty(serve, pages, 0);
    ServedPagesKept(serve, aborted, pages, 0, None);
    WholeOfAscended(pages);
    ReverseTwice(log);
    RowsCounted(pages);
  }

  /** Pages that step down, turned around, have no edge of the excluded shape. */
  lemma SteppingDownIsEdgeSafe(pages: seq<seq<ChainEntry>>)
    requires NonEmptyPages(pages) && StepsDown(pages, None) && AllNonNegative(pages)
    ensures EdgesSafe(Ascend(pages))
  {
    var asc := Ascend(pages);
    forall k | 0 < k < |asc| ensures !SeamShape(asc[k][|asc[k]| - 1], asc[k - 1][0]) {
      var newest, boundary := pages[k][0], pages[k - 1][|pages[k - 1]| - 1];
      assert asc[k] == Reverse(pages[k]) && asc[k - 1] == Reverse(pages[k - 1]);
      assert SortsBelow(newest, boundary) && newest.sequenceNum >= 0;
      StrLessTrichotomy(newest.epochId, boundary.epochId);
    }
  }

  /** The pages of any walk over rows with non-negative sequence numbers are safe at their edges. */
  lemma AcceptedEdgesSafe(serve: nat -> Response, aborted: nat -> bool)
    requires ServesNonNegative(serve)
    ensures EdgesSafe(Ascend(Accept(serve, aborted, 0, None).pages))
  {
    AcceptedStepsDown(serve, aborted, 0, None);
    AcceptedAreServed(serve, aborted, 0, None);
    SteppingDownIsEdgeSafe(Accept(serve, aborted, 0, None).pages);
  }

  /** For any pages a walk may have kept: one pass over their rows, exactly when their edges are safe. */
  lemma KeptRefinesOnePass(rehash: ChainEntry -> Str, kept: Accepted)
    requires NonEmptyPages(kept.pages)
    ensures SameSummary(VerifySummary(rehash, kept),
                        OnePassSummary(rehash, Whole(Ascend(kept.pages)), kept.cursorExhausted, kept.stopReason))
       <==> EdgesSafe(Ascend(kept.pages))
  {
    VerifySummaryOfKept(rehash, kept);
    PagingRefinesOnePass(rehash, Ascend(kept.pages), kept.cursorExhausted, kept.stopReason);
  }

  /**
   * Whatever rows with non-negative sequence numbers the engine serves, in
   * whatever order, and however the walk ends, the summary is that of one pass
   * over the rows the walk kept.
   */
  lemma AnyWalkRefinesOnePass(rehash: ChainEntry -> Str, serve: nat -> Response, aborted: nat -> bool, kept: Accepted)
    requires NonEmptyPages(kept.pages) && WalkEnds(serve, aborted, kept) && ServesNonNegative(serve)
    ensures SameSummary(VerifySummary(rehash, kept),
                        OnePassSummary(rehash, Whole(Ascend(kept.pages)), kept.cursorExhausted, kept.stopReason))
    ensures CoverageMeans(Whole(Ascend(kept.pages)), kept.stopReason, VerifySummary(rehash, kept))
  {
    WalkEndsIff(serve, aborted, kept);
    AcceptedEdgesSafe(serve, aborted);
    KeptRefinesOnePass(rehash, kept);
    VerifySummaryOfKept(rehash, kept);
    CoverageIsTold(rehash, Ascend(kept.pages), kept.cursorExhausted, kept.stopReason);
  }

  /** Two pages of one row each: a sequence-0 row, and below it a row numbered -1 that it does not name. */
  function NegativeServe(n: nat): Response {
    if n == 0 then Response([BrokenRow(0)], Some([])) else Response([BrokenRow(-1)], None)
  }

  lemma NegativePagesKept()
    ensures Accept(NegativeServe, n => false, 0, None) == Accepted([[BrokenRow(0)], [BrokenRow(-1)]], Exhausted, true)
  {
    var never := (n: nat) => false;
    assert SortsBelow(BrokenRow(-1), BrokenRow(0));
    assert Accept(NegativeServe, never, 1, Some(BrokenRow(0))) == Accepted([[BrokenRow(-1)]], Exhausted, true);
    assert [[BrokenRow(0)]] + [[BrokenRow(-1)]] == [[BrokenRow(0)], [BrokenRow(-1)]];
  }

  /** A negative sequence number lets the shape through the stall check, and then the walk is not one pass. */
  lemma NegativeNumbersDisagree(rehash: ChainEntry -> Str)
    ensures var kept := Accept(NegativeServe, n => false, 0, None);
      !SameSummary(VerifySummary(rehash, kept), OnePassSummary(rehash, Whole(Ascend(kept.pages)), true, Exhausted))
  {
    var kept := Accepted([[BrokenRow(0)], [BrokenRow(-1)]], Exhausted, true);
    NegativePagesKept();
    var asc := Ascend(kept.pages);
    assert asc[0][0] == BrokenRow(0) && asc[1][0] == BrokenRow(-1) && SeamShape(asc[1][0], asc[0][0]);
    KeptRefinesOnePass(rehash, kept);
  }

  lemma KeptRowsExitCode(rehash: ChainEntry -> Str, kept: Accepted)
    requires NonEmptyPages(kept.pages) && EdgesSafe(Ascend(kept.pages))
    ensures VerifySummary(rehash, kept).exitCode
         == DeservedAfter(rehash, Whole(Ascend(kept.pages)), kept.stopReason, kept.cursorExhausted)
  {
    VerifySummaryOfKept(rehash, kept);
    SafeEdgesExitCode(rehash, Ascend(kept.pages), kept.cursorExhausted, kept.stopReason);
  }

  /** Likewise its exit code is what the rows it kept deserve. */
  lemma AnyWalkExitCode(rehash: ChainEntry -> Str, serve: nat -> Response, aborted: nat -> bool, kept: Accepted)
    requires NonEmptyPages(kept.pages) && WalkEnds(serve, aborted, kept) && ServesNonNegative(serve)
    ensures VerifySummary(rehash, kept).exitCode
         == DeservedAfter(rehash, Whole(Ascend(kept.pages)), kept.stopReason, kept.cursorExhausted)
  {
    WalkEndsIff(serve, aborted, kept);
    AcceptedEdgesSafe(serve, aborted);
    KeptRowsExitCode(rehash, kept);
  }
}
