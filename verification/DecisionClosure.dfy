/**
 * The decision-closure check of packages/audit/src/decision-closure.ts: each
 * decision of a range against the later rows that name it, walked newest to
 * oldest with a carry of closers whose decision was not yet reached.
 */
module DecisionClosure {
  import opened Sequences
  import opened Wrappers
  import opened Utf16
  import opened EntryHash
  import opened VerifyChain

  const LIFECYCLE_TOOLS: set<Str> := {
    Ascii("session.start"), Ascii("session.end"), Ascii("task.cancel"),
    Ascii("refinement.propose"), Ascii("refinement.validate"), Ascii("refinement.approve"),
    Ascii("refinement.activate"), Ascii("refinement.disable"), Ascii("refinement.rollback"),
    Ascii("refinement.use")
  }

  const ALLOW: Str := Ascii("allow")
  const DENY: Str := Ascii("deny")
  const PENDING: Str := Ascii("pending")

  /** Whether the log still owes this row a closer; the clause order is the rule. */
  predicate OwesCloser(e: ChainEntry) {
    if e.decisionEntryId.Some? then false
    else if e.toolName in LIFECYCLE_TOOLS then false
    else if e.decision == DENY then false
    else e.decision == PENDING || e.decision == ALLOW
  }

  datatype CloserRef = CloserRef(id: Str, at: ChainLocation, decision: Str, outcome: Str, referentId: Str)

  datatype CloserAgreement = Duplicated | Contradictory

  datatype OpenKind = Dispatched | Awaiting

  datatype ClosureStatus = Clean | Conflicted(agreement: CloserAgreement) | Unresolved(openKind: OpenKind) | Unchecked

  datatype DecisionClosure = DecisionClosure(id: Str, at: ChainLocation, status: ClosureStatus, closers: seq<CloserRef>)

  datatype ClosureVerdict = ClosureVerdict(
    decisionsChecked: nat, conflicted: seq<DecisionClosure>, unresolved: seq<DecisionClosure>,
    unchecked: seq<DecisionClosure>, carry: seq<CloserRef>)

  /** The closer an outcome row is. */
  function RefOf(e: ChainEntry): CloserRef
    requires e.decisionEntryId.Some?
  {
    CloserRef(e.id, Location(e), e.decision, e.outcome, e.decisionEntryId.value)
  }

  // ---------------------------------------------------------------------
  // The insertion-ordered map of unmatched closers
  // ---------------------------------------------------------------------

  /** One key of the map with its list; a map is its groups in insertion order. */
  datatype Group = Group(key: Str, refs: seq<CloserRef>)

  function Lookup(m: seq<Group>, key: Str): seq<CloserRef> {
    if m == [] then [] else if m[0].key == key then m[0].refs else Lookup(m[1..], key)
  }

  function Delete(m: seq<Group>, key: Str): seq<Group> {
    if m == [] then [] else if m[0].key == key then m[1..] else [m[0]] + Delete(m[1..], key)
  }

  /** Append to the list of the referent's key, creating it last if absent. */
  function Push(m: seq<Group>, ref: CloserRef): seq<Group> {
    if m == [] then [Group(ref.referentId, [ref])]
    else if m[0].key == ref.referentId then [Group(m[0].key, m[0].refs + [ref])] + m[1..]
    else [m[0]] + Push(m[1..], ref)
  }

  /** The map's lists end to end: the carry. */
  function Flatten(m: seq<Group>): seq<CloserRef> {
    if m == [] then [] else m[0].refs + Flatten(m[1..])
  }

  /** Push a list of closers in arrival order. */
  function PushAll(m: seq<Group>, refs: seq<CloserRef>): seq<Group>
    decreases |refs|
  {
    if refs == [] then m else PushAll(Push(m, refs[0]), refs[1..])
  }

  function Keys(m: seq<Group>): set<Str> {
    if m == [] then {} else {m[0].key} + Keys(m[1..])
  }

  predicate NamesKey(refs: seq<CloserRef>, key: Str) {
    forall r :: r in refs ==> r.referentId == key
  }

  /** Keys are distinct, lists are non-empty, and each closer sits under the row it names. */
  predicate WellKeyed(m: seq<Group>) {
    m != [] ==>
      && m[0].key !in Keys(m[1..])
      && m[0].refs != [] && NamesKey(m[0].refs, m[0].key)
      && WellKeyed(m[1..])
  }

  lemma {:induction false} DeleteKeepsWellKeyed(m: seq<Group>, key: Str)
    requires WellKeyed(m)
    ensures WellKeyed(Delete(m, key)) && Keys(Delete(m, key)) == Keys(m) - {key}
  {
    if m != [] && m[0].key != key {
      DeleteKeepsWellKeyed(m[1..], key);
    }
  }

  lemma {:induction false} PushKeepsWellKeyed(m: seq<Group>, ref: CloserRef)
    requires WellKeyed(m)
    ensures WellKeyed(Push(m, ref)) && Keys(Push(m, ref)) == Keys(m) + {ref.referentId}
  {
    if m != [] && m[0].key != ref.referentId {
      PushKeepsWellKeyed(m[1..], ref);
    }
  }

  lemma {:induction false} PushAllKeepsWellKeyed(m: seq<Group>, refs: seq<CloserRef>)
    requires WellKeyed(m)
    ensures WellKeyed(PushAll(m, refs))
    decreases |refs|
  {
    if refs != [] {
      PushKeepsWellKeyed(m, refs[0]);
      PushAllKeepsWellKeyed(Push(m, refs[0]), refs[1..]);
    }
  }

  lemma {:induction false} LookupAfterDelete(m: seq<Group>, key: Str, k: Str)
    requires WellKeyed(m)
    ensures Lookup(Delete(m, key), k) == if k == key then [] else Lookup(m, k)
  {
    if m != [] {
      LookupAfterDelete(m[1..], key, k);
      if m[0].key == key == k {
        LookupMissing(m[1..], k);
      }
    }
  }

  lemma {:induction false} LookupMissing(m: seq<Group>, k: Str)
    ensures k !in Keys(m) ==> Lookup(m, k) == []
  {
    if m != [] {
      LookupMissing(m[1..], k);
    }
  }

  lemma {:induction false} LookupAfterPush(m: seq<Group>, ref: CloserRef, k: Str)
    ensures Lookup(Push(m, ref), k) == Lookup(m, k) + if k == ref.referentId then [ref] else []
  {
    if m != [] {
      LookupAfterPush(m[1..], ref, k);
    }
  }

  function NamedBy(key: Str): CloserRef -> bool { (r: CloserRef) => r.referentId == key }

  /** The closers of a list that name the key, in their order. */
  function NamingIn(refs: seq<CloserRef>, key: Str): seq<CloserRef> { Filter(NamedBy(key), refs) }

  lemma {:induction false} NoneNamed(refs: seq<CloserRef>, key: Str)
    requires forall r :: r in refs ==> r.referentId != key
    ensures NamingIn(refs, key) == []
  {
    if refs != [] {
      assert refs[0] in refs && forall r :: r in refs[1..] ==> r in refs;
      NoneNamed(refs[1..], key);
    }
  }

  /** The carry lists under each key just what the map holds there. */
  lemma {:induction false} NamedInCarry(m: seq<Group>, key: Str)
    requires WellKeyed(m)
    ensures NamingIn(Flatten(m), key) == Lookup(m, key)
  {
    if m != [] {
      FilterOfJoin(NamedBy(key), m[0].refs, Flatten(m[1..]));
      NamedInCarry(m[1..], key);
      LookupMissing(m[1..], m[0].key);
      if m[0].key == key {
        FilterOfAll(NamedBy(key), m[0].refs);
        JoinEmpty(m[0].refs);
      } else {
        NoneNamed(m[0].refs, key);
        JoinEmpty(Lookup(m[1..], key));
      }
    }
  }

  /** Pushing a list adds to each key's list what names it, in order. */
  lemma {:induction false} LookupAfterPushAll(m: seq<Group>, refs: seq<CloserRef>, key: Str)
    ensures Lookup(PushAll(m, refs), key) == Lookup(m, key) + NamingIn(refs, key)
    decreases |refs|
  {
    if refs == [] {
      JoinEmpty(Lookup(m, key));
    } else {
      LookupAfterPush(m, refs[0], key);
      LookupAfterPushAll(Push(m, refs[0]), refs[1..], key);
      JoinAssoc(Lookup(m, key), if refs[0].referentId == key then [refs[0]] else [], NamingIn(refs[1..], key));
    }
  }

  // ---------------------------------------------------------------------
  // Carrying the map from range to range
  // ---------------------------------------------------------------------

  lemma {:induction false} PushAllOfJoin(m: seq<Group>, a: seq<CloserRef>, b: seq<CloserRef>)
    ensures PushAll(m, a + b) == PushAll(PushAll(m, a), b)
    decreases |a|
  {
    if a == [] {
      JoinEmpty(b);
    } else {
      PushAllOfJoin(Push(m, a[0]), a[1..], b);
      JoinRest(a, b);
    }
  }

  lemma {:induction false} PushOntoLast(done: seq<Group>, key: Str, refs: seq<CloserRef>, ref: CloserRef)
    requires key !in Keys(done) && ref.referentId == key
    ensures Push(done, ref) == done + [Group(key, [ref])]
    ensures Push(done + [Group(key, refs)], ref) == done + [Group(key, refs + [ref])]
  {
    if done != [] {
      PushOntoLast(done[1..], key, refs, ref);
      assert (done + [Group(key, refs)])[1..] == done[1..] + [Group(key, refs)];
    }
  }

  /** One group's closers, pushed in order, rebuild the group at the end of the map. */
  lemma {:induction false} PushGroup(done: seq<Group>, key: Str, refs: seq<CloserRef>)
    requires key !in Keys(done) && refs != [] && NamesKey(refs, key)
    ensures PushAll(done, refs) == done + [Group(key, refs)]
    decreases |refs|
  {
    var init, last := refs[..|refs| - 1], refs[|refs| - 1];
    assert refs == init + [last];
    PushAllOfJoin(done, init, [last]);
    PushOntoLast(done, key, init, last);
    if init != [] {
      PushGroup(done, key, init);
    }
  }

  lemma {:induction false} KeysOfSnoc(done: seq<Group>, g: Group)
    ensures Keys(done + [g]) == Keys(done) + {g.key}
  {
    if done != [] {
      KeysOfSnoc(done[1..], g);
      assert (done + [g])[1..] == done[1..] + [g];
    }
  }

  lemma {:induction false} RebuildAfter(done: seq<Group>, m: seq<Group>)
    requires WellKeyed(m) && Keys(done) !! Keys(m)
    ensures PushAll(done, Flatten(m)) == done + m
    decreases |m|
  {
    if m != [] {
      PushAllOfJoin(done, m[0].refs, Flatten(m[1..]));
      PushGroup(done, m[0].key, m[0].refs);
      KeysOfSnoc(done, m[0]);
      RebuildAfter(done + [m[0]], m[1..]);
      assert done + [m[0]] + m[1..] == done + m;
    }
  }

  /** Handing the map on as one flat list loses nothing: seeding from it rebuilds the map. */
  lemma CarryRebuildsMap(m: seq<Group>)
    requires WellKeyed(m)
    ensures PushAll([], Flatten(m)) == m
  {
    RebuildAfter([], m);
  }

  // ---------------------------------------------------------------------
  // The check
  // ---------------------------------------------------------------------

  /** One row of the walk: resolve the closers naming it, then queue it if it is one. */
  function Step(m: seq<Group>, e: ChainEntry): seq<Group> {
    if e.decisionEntryId.Some? then Push(Delete(m, e.id), RefOf(e)) else Delete(m, e.id)
  }

  /** The map once every row of `es` has been walked, newest first. */
  function After(es: seq<ChainEntry>, m: seq<Group>): seq<Group> {
    if es == [] then m else Step(After(es[1..], m), es[0])
  }

  function AgreementOf(closers: seq<CloserRef>): CloserAgreement
    requires closers != []
  {
    if forall c :: c in closers ==> c.decision == closers[0].decision && c.outcome == closers[0].outcome
    then Duplicated else Contradictory
  }

  function StatusOf(e: ChainEntry, closers: seq<CloserRef>, closed: bool): ClosureStatus {
    if !closed then Unchecked
    else if closers == [] then Unresolved(if e.decision == PENDING then Awaiting else Dispatched)
    else if |closers| >= 2 then Conflicted(AgreementOf(closers))
    else Clean
  }

  function Judge(e: ChainEntry, closers: seq<CloserRef>, closed: bool): DecisionClosure {
    DecisionClosure(e.id, Location(e), StatusOf(e, closers, closed), closers)
  }

  /** Every decision of the range with its status, oldest first. */
  function Findings(es: seq<ChainEntry>, m: seq<Group>, closed: bool): seq<DecisionClosure> {
    if es == [] then []
    else if OwesCloser(es[0]) then
      [Judge(es[0], Lookup(After(es[1..], m), es[0].id), closed)] + Findings(es[1..], m, closed)
    else Findings(es[1..], m, closed)
  }

  predicate IsConflicted(f: DecisionClosure) { f.status.Conflicted? }

  predicate IsUnresolved(f: DecisionClosure) { f.status.Unresolved? }

  predicate IsUnchecked(f: DecisionClosure) { f.status.Unchecked? }

  /** The verdict on a range, resumed from the carry of the newer ranges. */
  function ClosureOf(es: seq<ChainEntry>, carry: seq<CloserRef>, closed: bool): ClosureVerdict {
    var m := PushAll([], carry);
    var fs := Findings(es, m, closed);
    ClosureVerdict(|fs|, Filter(IsConflicted, fs), Filter(IsUnresolved, fs), Filter(IsUnchecked, fs), Flatten(After(es, m)))
  }

  /** The walk the source runs, newest row to oldest. */
  method CheckDecisionClosure(entries: seq<ChainEntry>, carry: seq<CloserRef>, upperEdgeClosed: bool)
    returns (verdict: ClosureVerdict)
    ensures verdict == ClosureOf(entries, carry, upperEdgeClosed)
  {
    var unmatched: seq<Group> := [];
    for k := 0 to |carry|
      invariant PushAll(unmatched, carry[k..]) == PushAll([], carry)
    {
      assert carry[k..][1..] == carry[k + 1..];
      unmatched := Push(unmatched, carry[k]);
    }
    ghost var m := PushAll([], carry);

    var decisionsChecked := 0;
    var conflicted: seq<DecisionClosure> := [];
    var unresolved: seq<DecisionClosure> := [];
    var unchecked: seq<DecisionClosure> := [];
    for i := |entries| downto 0
      invariant unmatched == After(entries[i..], m)
      invariant decisionsChecked == |Findings(entries[i..], m, upperEdgeClosed)|
      invariant Reverse(conflicted) == Filter(IsConflicted, Findings(entries[i..], m, upperEdgeClosed))
      invariant Reverse(unresolved) == Filter(IsUnresolved, Findings(entries[i..], m, upperEdgeClosed))
      invariant Reverse(unchecked) == Filter(IsUnchecked, Findings(entries[i..], m, upperEdgeClosed))
    {
      var entry := entries[i];
      assert entries[i..][1..] == entries[i + 1..] && entries[i..][0] == entry;
      var closers := Lookup(unmatched, entry.id);
      unmatched := Delete(unmatched, entry.id);
      if entry.decisionEntryId.Some? {
        unmatched := Push(unmatched, CloserRef(entry.id, Location(entry), entry.decision, entry.outcome, entry.decisionEntryId.value));
      } else if OwesCloser(entry) {
        decisionsChecked := decisionsChecked + 1;
        if !upperEdgeClosed {
          ReverseSnoc(unchecked, DecisionClosure(entry.id, Location(entry), Unchecked, closers));
          unchecked := unchecked + [DecisionClosure(entry.id, Location(entry), Unchecked, closers)];
        } else if |closers| == 0 {
          var kind := if entry.decision == PENDING then Awaiting else Dispatched;
          ReverseSnoc(unresolved, DecisionClosure(entry.id, Location(entry), Unresolved(kind), closers));
          unresolved := unresolved + [DecisionClosure(entry.id, Location(entry), Unresolved(kind), closers)];
        } else if |closers| >= 2 {
          var first := closers[0];
          var agreement := if forall c :: c in closers ==> c.decision == first.decision && c.outcome == first.outcome
            then Duplicated else Contradictory;
          ReverseSnoc(conflicted, DecisionClosure(entry.id, Location(entry), Conflicted(agreement), closers));
          conflicted := conflicted + [DecisionClosure(entry.id, Location(entry), Conflicted(agreement), closers)];
        }
      }
    }
    assert entries[0..] == entries;
    verdict := ClosureVerdict(
      decisionsChecked, Reverse(conflicted), Reverse(unresolved), Reverse(unchecked), Flatten(unmatched));
  }

  // ---------------------------------------------------------------------
  // Resuming
  // ---------------------------------------------------------------------

  lemma {:induction false} AfterKeepsWellKeyed(es: seq<ChainEntry>, m: seq<Group>)
    requires WellKeyed(m)
    ensures WellKeyed(After(es, m))
  {
    if es != [] {
      AfterKeepsWellKeyed(es[1..], m);
      DeleteKeepsWellKeyed(After(es[1..], m), es[0].id);
      if es[0].decisionEntryId.Some? {
        PushKeepsWellKeyed(Delete(After(es[1..], m), es[0].id), RefOf(es[0]));
      }
    }
  }

  lemma {:induction false} AfterOfJoin(older: seq<ChainEntry>, newer: seq<ChainEntry>, m: seq<Group>)
    ensures After(older + newer, m) == After(older, After(newer, m))
  {
    if older == [] {
      JoinEmpty(newer);
    } else {
      AfterOfJoin(older[1..], newer, m);
      JoinRest(older, newer);
    }
  }

  lemma {:induction false} FindingsOfJoin(older: seq<ChainEntry>, newer: seq<ChainEntry>, m: seq<Group>, closed: bool)
    ensures Findings(older + newer, m, closed)
         == Findings(older, After(newer, m), closed) + Findings(newer, m, closed)
  {
    if older == [] {
      JoinEmpty(newer);
    } else {
      FindingsOfJoin(older[1..], newer, m, closed);
      AfterOfJoin(older[1..], newer, m);
      JoinRest(older, newer);
    }
  }

  /** Two verdicts of adjacent ranges read as one. */
  function JoinVerdicts(older: ClosureVerdict, newer: ClosureVerdict): ClosureVerdict {
    ClosureVerdict(
      older.decisionsChecked + newer.decisionsChecked, older.conflicted + newer.conflicted,
      older.unresolved + newer.unresolved, older.unchecked + newer.unchecked, older.carry)
  }

  /** Resuming from a carry is exact, for any rows, any cut and any incoming carry. */
  lemma ResumeIsExact(older: seq<ChainEntry>, newer: seq<ChainEntry>, carry: seq<CloserRef>, closed: bool)
    ensures var n := ClosureOf(newer, carry, closed);
      JoinVerdicts(ClosureOf(older, n.carry, closed), n) == ClosureOf(older + newer, carry, closed)
  {
    var m := PushAll([], carry);
    PushAllKeepsWellKeyed([], carry);
    AfterKeepsWellKeyed(newer, m);
    CarryRebuildsMap(After(newer, m));
    AfterOfJoin(older, newer, m);
    FindingsOfJoin(older, newer, m, closed);
    var fo, fn := Findings(older, After(newer, m), closed), Findings(newer, m, closed);
    FilterOfJoin(IsConflicted, fo, fn);
    FilterOfJoin(IsUnresolved, fo, fn);
    FilterOfJoin(IsUnchecked, fo, fn);
  }

  // ---------------------------------------------------------------------
  // What the verdict means
  // ---------------------------------------------------------------------

  predicate Names(e: ChainEntry, key: Str) { e.decisionEntryId == Some(key) }

  predicate HasId(es: seq<ChainEntry>, key: Str) {
    es != [] && (es[0].id == key || HasId(es[1..], key))
  }

  lemma {:induction false} HasIdMeaning(es: seq<ChainEntry>, key: Str)
    ensures HasId(es, key) <==> exists i :: 0 <= i < |es| && es[i].id == key
  {
    if es != [] {
      HasIdMeaning(es[1..], key);
      assert forall i :: 0 <= i < |es| - 1 ==> es[1..][i] == es[i + 1];
    }
  }

  predicate UniqueIds(es: seq<ChainEntry>) {
    forall i, j :: 0 <= i < j < |es| ==> es[i].id != es[j].id
  }

  /** The rows of `es` naming `key`, newest first. */
  function Naming(es: seq<ChainEntry>, key: Str): seq<CloserRef> {
    if es == [] then [] else Naming(es[1..], key) + NamingRow(es[0], key)
  }

  function NamingRow(e: ChainEntry, key: Str): seq<CloserRef> {
    if Names(e, key) then [RefOf(e)] else []
  }

  /** Of those, the ones no older row of `es` with that id has already taken. */
  function Open(es: seq<ChainEntry>, key: Str): seq<CloserRef> {
    if es == [] then []
    else if es[0].id == key then NamingRow(es[0], key)
    else Open(es[1..], key) + NamingRow(es[0], key)
  }

  lemma LookupAfterStep(m: seq<Group>, e: ChainEntry, key: Str)
    requires WellKeyed(m)
    ensures Lookup(Step(m, e), key) == (if e.id == key then [] else Lookup(m, key)) + NamingRow(e, key)
  {
    LookupAfterDelete(m, e.id, key);
    if e.decisionEntryId.Some? {
      LookupAfterPush(Delete(m, e.id), RefOf(e), key);
    }
  }

  /** What waits under a key after any rows, with any incoming map. */
  lemma {:induction false} WaitingClosers(es: seq<ChainEntry>, m: seq<Group>, key: Str)
    requires WellKeyed(m)
    ensures Lookup(After(es, m), key) == (if HasId(es, key) then [] else Lookup(m, key)) + Open(es, key)
  {
    if es != [] {
      WaitingClosers(es[1..], m, key);
      AfterKeepsWellKeyed(es[1..], m);
      LookupAfterStep(After(es[1..], m), es[0], key);
    }
  }

  /** The oldest rows, up to and with the first that has the id; all rows if none has. */
  function UpToId(es: seq<ChainEntry>, key: Str): (r: seq<ChainEntry>)
    ensures r <= es && forall i :: 0 <= i < |r| - 1 ==> r[i].id != key
    ensures |r| < |es| ==> r != [] && r[|r| - 1].id == key
  {
    if es == [] then []
    else if es[0].id == key then [es[0]]
    else
      assert [es[0]] + es[1..] == es;
      [es[0]] + UpToId(es[1..], key)
  }

  lemma {:induction false} OpenIsNaming(es: seq<ChainEntry>, key: Str)
    ensures Open(es, key) == Naming(UpToId(es, key), key)
  {
    if es != [] {
      var rest := UpToId(es[1..], key);
      OpenIsNaming(es[1..], key);
      assert ([es[0]] + rest)[1..] == rest;
      assert [es[0]][1..] == [];
      JoinEmpty(NamingRow(es[0], key));
    }
  }

  /**
   * The declarative reading: each owing row against the later rows that name
   * it, up to and with the next row of the same id, if there is one.
   */
  function DeclaredFindings(es: seq<ChainEntry>): seq<DecisionClosure> {
    if es == [] then []
    else if OwesCloser(es[0]) then [Judge(es[0], NamersOf(es, 0), true)] + DeclaredFindings(es[1..])
    else DeclaredFindings(es[1..])
  }

  /** The ten tools whose rows close themselves. */
  predicate IsLifecycleTool(tool: Str) {
    || tool == Ascii("session.start") || tool == Ascii("session.end") || tool == Ascii("task.cancel")
    || IsRefinementTool(tool)
  }

  predicate IsRefinementTool(tool: Str) { IsRefinementDraft(tool) || IsRefinementUse(tool) }

  predicate IsRefinementDraft(tool: Str) {
    tool == Ascii("refinement.propose") || tool == Ascii("refinement.validate") || tool == Ascii("refinement.approve")
  }

  predicate IsRefinementUse(tool: Str) {
    || tool == Ascii("refinement.activate") || tool == Ascii("refinement.disable")
    || tool == Ascii("refinement.rollback") || tool == Ascii("refinement.use")
  }

  /** The owing rule by columns: no referent, no lifecycle tool, and a decision of `pending` or `allow`. */
  predicate Owes(e: ChainEntry) {
    && e.decisionEntryId == None && !IsLifecycleTool(e.toolName)
    && (e.decision == Ascii("pending") || e.decision == Ascii("allow"))
  }

  lemma LifecycleTools(tool: Str)
    ensures tool in LIFECYCLE_TOOLS <==> IsLifecycleTool(tool)
  {
  }

  lemma WordsDiffer()
    ensures Ascii("deny") != Ascii("pending") && Ascii("deny") != Ascii("allow") && Ascii("pending") != Ascii("allow")
  {
    assert |Ascii("deny")| == 4 && |Ascii("pending")| == 7 && |Ascii("allow")| == 5;
  }

  lemma OwingRule(e: ChainEntry)
    ensures OwesCloser(e) <==> Owes(e)
  {
    LifecycleTools(e.toolName);
    WordsDiffer();
  }

  /** The rows the order of the clauses is for: a `pending` one that closes another, and a lifecycle row that says `allow`. */
  lemma ClosersAndLifecycleOweNothing(e: ChainEntry)
    ensures e.decision == Ascii("pending") && e.decisionEntryId.Some? ==> !OwesCloser(e)
    ensures e.decision == Ascii("allow") && IsLifecycleTool(e.toolName) ==> !OwesCloser(e)
    ensures e.decision == Ascii("deny") ==> !OwesCloser(e)
  {
    OwingRule(e);
    WordsDiffer();
  }

  /** The closer that row j is, column by column. */
  function CloserAt(es: seq<ChainEntry>, j: nat): CloserRef
    requires j < |es| && es[j].decisionEntryId.Some?
  {
    CloserRef(es[j].id, ChainLocation(es[j].epochId, es[j].sequenceNum), es[j].decision, es[j].outcome, es[j].decisionEntryId.value)
  }

  /** The later rows naming the i-th, newest first. */
  function NamersOf(es: seq<ChainEntry>, i: nat): seq<CloserRef>
    requires i < |es|
  {
    Naming(UpToId(es[i + 1..], es[i].id), es[i].id)
  }

  /** With no incoming carry the walk finds exactly the declared closers. */
  lemma {:induction false} FindingsAreDeclared(es: seq<ChainEntry>)
    ensures Findings(es, [], true) == DeclaredFindings(es)
  {
    if es != [] {
      FindingsAreDeclared(es[1..]);
      WaitingClosers(es[1..], [], es[0].id);
      OpenIsNaming(es[1..], es[0].id);
      JoinEmpty(NamersOf(es, 0));
    }
  }

  /** With unique ids those are all later rows that name it. */
  lemma UniqueIdsReachAll(es: seq<ChainEntry>, i: nat)
    requires UniqueIds(es) && i < |es|
    ensures UpToId(es[i + 1..], es[i].id) == es[i + 1..]
  {
    var rest := es[i + 1..];
    var r := UpToId(rest, es[i].id);
    assert forall m :: 0 <= m < |rest| ==> rest[m] == es[i + 1 + m];
    assert r != [] ==> r[|r| - 1] == rest[|r| - 1];
  }

  lemma NamersShift(es: seq<ChainEntry>, i: nat)
    requires i + 1 < |es|
    ensures NamersOf(es[1..], i) == NamersOf(es, i + 1)
  {
    assert es[1..][i + 1..] == es[i + 2..];
  }

  lemma {:induction false} DeclaredMembers(es: seq<ChainEntry>, f: DecisionClosure)
    ensures f in DeclaredFindings(es) <==> exists i :: 0 <= i < |es| && FoundAt(es, i, f)
  {
    if es != [] {
      var rest := es[1..];
      DeclaredMembers(rest, f);
      OwingRule(es[0]);
      if i :| 0 <= i < |rest| && FoundAt(rest, i, f) {
        NamersShift(es, i);
        assert FoundAt(es, i + 1, f);
      }
      if i :| 0 < i < |es| && FoundAt(es, i, f) {
        NamersShift(es, i - 1);
        assert FoundAt(rest, i - 1, f);
      }
      assert FoundAt(es, 0, f) <==> OwesCloser(es[0]) && f == Judge(es[0], NamersOf(es, 0), true);
    }
  }

  predicate FoundAt(es: seq<ChainEntry>, i: nat, f: DecisionClosure)
    requires i < |es|
  {
    Owes(es[i]) && f == Judge(es[i], NamersOf(es, i), true)
  }

  /** Some two of the closers differ in decision or outcome. */
  predicate Disagree(closers: seq<CloserRef>) {
    exists i, j :: 0 <= i < j < |closers| && (closers[i].decision != closers[j].decision || closers[i].outcome != closers[j].outcome)
  }

  /** Row i owes a closer and none names it. */
  predicate UnresolvedAt(es: seq<ChainEntry>, i: nat, f: DecisionClosure)
    requires i < |es|
  {
    && Owes(es[i]) && NamersOf(es, i) == []
    && f == DecisionClosure(es[i].id, ChainLocation(es[i].epochId, es[i].sequenceNum),
                            Unresolved(if es[i].decision == Ascii("pending") then Awaiting else Dispatched), [])
  }

  /** Row i owes a closer and several name it. */
  predicate ConflictedAt(es: seq<ChainEntry>, i: nat, f: DecisionClosure)
    requires i < |es|
  {
    && Owes(es[i]) && |NamersOf(es, i)| >= 2
    && f == DecisionClosure(es[i].id, ChainLocation(es[i].epochId, es[i].sequenceNum),
                            Conflicted(if Disagree(NamersOf(es, i)) then Contradictory else Duplicated), NamersOf(es, i))
  }

  lemma FoundIsListed(es: seq<ChainEntry>, i: nat, f: DecisionClosure)
    requires i < |es|
    ensures FoundAt(es, i, f) && IsUnresolved(f) <==> UnresolvedAt(es, i, f)
    ensures FoundAt(es, i, f) && IsConflicted(f) <==> ConflictedAt(es, i, f)
  {
    StatusMeaning(es[i], NamersOf(es, i));
  }

  /**
   * With no carry and a closed upper edge a row is listed as unresolved exactly
   * when it owes a closer and no later row names it, and as conflicted exactly
   * when it owes one and at least two do.
   */
  lemma ListedIff(es: seq<ChainEntry>, f: DecisionClosure)
    ensures f in ClosureOf(es, [], true).unresolved <==> exists i :: 0 <= i < |es| && UnresolvedAt(es, i, f)
    ensures f in ClosureOf(es, [], true).conflicted <==> exists i :: 0 <= i < |es| && ConflictedAt(es, i, f)
  {
    FindingsAreDeclared(es);
    FilterMembers(IsUnresolved, DeclaredFindings(es), f);
    FilterMembers(IsConflicted, DeclaredFindings(es), f);
    DeclaredMembers(es, f);
    forall i | 0 <= i < |es|
      ensures FoundAt(es, i, f) && IsUnresolved(f) <==> UnresolvedAt(es, i, f)
      ensures FoundAt(es, i, f) && IsConflicted(f) <==> ConflictedAt(es, i, f)
    {
      FoundIsListed(es, i, f);
    }
  }

  lemma {:induction false} FindingsCount(es: seq<ChainEntry>, m: seq<Group>, closed: bool)
    ensures |Findings(es, m, closed)| == |Filter(Owes, es)|
    ensures forall i :: 0 <= i < |Findings(es, m, closed)| ==> (IsUnchecked(Findings(es, m, closed)[i]) <==> !closed)
  {
    if es != [] {
      FindingsCount(es[1..], m, closed);
      OwingRule(es[0]);
    }
  }

  lemma {:induction false} FilterOfNone<T>(p: T -> bool, s: seq<T>)
    requires forall i :: 0 <= i < |s| ==> !p(s[i])
    ensures Filter(p, s) == []
  {
    if s != [] {
      FilterOfNone(p, s[1..]);
    }
  }

  /**
   * Whatever is carried in, exactly the rows that owe a closer are counted; with
   * an open upper edge they are all listed as unchecked and nothing else is
   * claimed, with a closed one none is.
   */
  lemma CountedAreOwing(es: seq<ChainEntry>, carry: seq<CloserRef>, closed: bool)
    ensures var v := ClosureOf(es, carry, closed);
      && v.decisionsChecked == |Filter(Owes, es)|
      && (closed ==> v.unchecked == [])
      && (!closed ==> |v.unchecked| == |Filter(Owes, es)| && v.conflicted == [] && v.unresolved == [])
  {
    var fs := Findings(es, PushAll([], carry), closed);
    FindingsCount(es, PushAll([], carry), closed);
    if closed {
      FilterOfNone(IsUnchecked, fs);
    } else {
      FilterOfAll(IsUnchecked, fs);
      FilterOfNone(IsConflicted, fs);
      FilterOfNone(IsUnresolved, fs);
    }
  }

  lemma {:induction false} NamingMembers(es: seq<ChainEntry>, key: Str, c: CloserRef)
    ensures c in Naming(es, key) <==> exists j :: 0 <= j < |es| && es[j].decisionEntryId == Some(key) && c == CloserAt(es, j)
  {
    if es != [] {
      var rest := es[1..];
      NamingMembers(rest, key, c);
      if j :| 0 <= j < |rest| && rest[j].decisionEntryId == Some(key) && c == CloserAt(rest, j) {
        assert es[j + 1] == rest[j] && c == CloserAt(es, j + 1);
      }
      if j :| 0 < j < |es| && es[j].decisionEntryId == Some(key) && c == CloserAt(es, j) {
        assert es[j] == rest[j - 1] && c == CloserAt(rest, j - 1);
      }
      assert c in NamingRow(es[0], key) <==> es[0].decisionEntryId == Some(key) && c == CloserAt(es, 0);
    }
  }

  /** Row j is later than row i, names it, and no row between them has its id. */
  predicate NamesRow(es: seq<ChainEntry>, i: nat, j: nat)
    requires i < |es|
  {
    i < j < |es| && es[j].decisionEntryId == Some(es[i].id) && forall m :: i < m < j ==> es[m].id != es[i].id
  }

  lemma UpToIdReaches(tail: seq<ChainEntry>, key: Str, k: nat)
    requires k < |tail|
    ensures k < |UpToId(tail, key)| <==> forall m :: 0 <= m < k ==> tail[m].id != key
  {
    var r := UpToId(tail, key);
    assert forall m :: 0 <= m < |r| ==> r[m] == tail[m];
    if |r| <= k {
      assert tail[|r| - 1].id == key;
    }
  }

  lemma ReachedNames(es: seq<ChainEntry>, i: nat, j: nat)
    requires i < j < |es|
    ensures NamesRow(es, i, j) <==>
      j - i - 1 < |UpToId(es[i + 1..], es[i].id)| && es[j].decisionEntryId == Some(es[i].id)
  {
    var tail := es[i + 1..];
    UpToIdReaches(tail, es[i].id, j - i - 1);
    assert forall m :: 0 <= m < |tail| ==> tail[m] == es[i + 1 + m];
    if forall m :: 0 <= m < j - i - 1 ==> tail[m].id != es[i].id {
      forall m | i < m < j ensures es[m].id != es[i].id {
        assert tail[m - i - 1] == es[m];
      }
    }
  }

  /** Row j, if it names row i, is this closer. */
  predicate NamerIs(es: seq<ChainEntry>, i: nat, j: nat, c: CloserRef)
    requires i < |es|
  {
    NamesRow(es, i, j) && c == CloserAt(es, j)
  }

  lemma ReachedRow(es: seq<ChainEntry>, i: nat, j: nat)
    requires i < j < |es| && j - i - 1 < |UpToId(es[i + 1..], es[i].id)|
    ensures UpToId(es[i + 1..], es[i].id)[j - i - 1] == es[j]
  {
    var tail := es[i + 1..];
    assert UpToId(tail, es[i].id)[j - i - 1] == tail[j - i - 1];
  }

  lemma NamerIsFound(es: seq<ChainEntry>, i: nat, j: nat, c: CloserRef)
    requires i < |es| && NamerIs(es, i, j, c)
    ensures c in NamersOf(es, i)
  {
    var r, key := UpToId(es[i + 1..], es[i].id), es[i].id;
    ReachedNames(es, i, j);
    ReachedRow(es, i, j);
    NamingMembers(r, key, c);
    assert r[j - i - 1].decisionEntryId == Some(key) && c == CloserAt(r, j - i - 1);
  }

  lemma FoundIsNamer(es: seq<ChainEntry>, i: nat, c: CloserRef) returns (j: nat)
    requires i < |es| && c in NamersOf(es, i)
    ensures i < j < |es| && NamerIs(es, i, j, c)
  {
    var r, key := UpToId(es[i + 1..], es[i].id), es[i].id;
    NamingMembers(r, key, c);
    var k :| 0 <= k < |r| && r[k].decisionEntryId == Some(key) && c == CloserAt(r, k);
    j := i + 1 + k;
    ReachedRow(es, i, j);
    ReachedNames(es, i, j);
  }

  /** The closers found for a row are just the later rows that name it, with their own columns. */
  lemma NamersAre(es: seq<ChainEntry>, i: nat, c: CloserRef)
    requires i < |es|
    ensures c in NamersOf(es, i) <==> exists j :: i < j < |es| && NamerIs(es, i, j, c)
  {
    if c in NamersOf(es, i) {
      var j := FoundIsNamer(es, i, c);
    }
    if j :| i < j < |es| && NamerIs(es, i, j, c) {
      NamerIsFound(es, i, j, c);
    }
  }

  /** A status is fixed by the number of closers and whether all pairs of them agree. */
  lemma StatusMeaning(e: ChainEntry, closers: seq<CloserRef>)
    ensures var s := StatusOf(e, closers, true);
      && (s.Unresolved? <==> |closers| == 0) && (s.Clean? <==> |closers| == 1)
      && (s.Conflicted? <==> |closers| >= 2) && !s.Unchecked?
      && (s.Unresolved? ==> (s.openKind == Awaiting <==> e.decision == Ascii("pending")))
      && (s.Conflicted? ==> (s.agreement == Duplicated <==> forall i, j :: 0 <= i < j < |closers| ==>
            closers[i].decision == closers[j].decision && closers[i].outcome == closers[j].outcome))
  {
    var s := StatusOf(e, closers, true);
    if s.Conflicted? && s.agreement == Contradictory {
      var c :| c in closers && !(c.decision == closers[0].decision && c.outcome == closers[0].outcome);
      var k :| 0 <= k < |closers| && closers[k] == c;
      assert 0 < k;
    }
  }

  // ---------------------------------------------------------------------
  // Every closer is accounted for once
  // ---------------------------------------------------------------------

  function OutcomeRow(e: ChainEntry): seq<CloserRef> {
    if e.decisionEntryId.Some? then [RefOf(e)] else []
  }

  function OutcomeRefs(es: seq<ChainEntry>): seq<CloserRef> {
    if es == [] then [] else OutcomeRow(es[0]) + OutcomeRefs(es[1..])
  }

  /** Closers counted against a decision that owes one. */
  function Counted(fs: seq<DecisionClosure>): seq<CloserRef> {
    if fs == [] then [] else fs[0].closers + Counted(fs[1..])
  }

  /** Closers whose referent appeared and owed nothing. */
  function Discarded(es: seq<ChainEntry>, m: seq<Group>): seq<CloserRef> {
    if es == [] then []
    else if OwesCloser(es[0]) then Discarded(es[1..], m)
    else Lookup(After(es[1..], m), es[0].id) + Discarded(es[1..], m)
  }

  lemma {:induction false} DeleteTakesOut(m: seq<Group>, key: Str)
    ensures multiset(Flatten(m)) == multiset(Flatten(Delete(m, key))) + multiset(Lookup(m, key))
  {
    if m != [] {
      DeleteTakesOut(m[1..], key);
    }
  }

  lemma {:induction false} PushPutsIn(m: seq<Group>, ref: CloserRef)
    ensures multiset(Flatten(Push(m, ref))) == multiset(Flatten(m)) + multiset{ref}
  {
    if m != [] {
      PushPutsIn(m[1..], ref);
    }
  }

  lemma StepConserves(m: seq<Group>, e: ChainEntry)
    ensures multiset(OutcomeRow(e)) + multiset(Flatten(m)) == multiset(Lookup(m, e.id)) + multiset(Flatten(Step(m, e)))
  {
    DeleteTakesOut(m, e.id);
    if e.decisionEntryId.Some? {
      PushPutsIn(Delete(m, e.id), RefOf(e));
    }
  }

  /** What one row adds to the counted or to the discarded closers. */
  lemma RowTakes(es: seq<ChainEntry>, m: seq<Group>, closed: bool)
    requires es != []
    ensures multiset(Counted(Findings(es, m, closed))) + multiset(Discarded(es, m))
         == multiset(Counted(Findings(es[1..], m, closed))) + multiset(Discarded(es[1..], m))
          + multiset(Lookup(After(es[1..], m), es[0].id))
  {
    var rest := Findings(es[1..], m, closed);
    if OwesCloser(es[0]) {
      assert Counted(Findings(es, m, closed)) == Lookup(After(es[1..], m), es[0].id) + Counted(rest);
    }
  }

  lemma Balance<T>(row: multiset<T>, rows: multiset<T>, carriedIn: multiset<T>, taken: multiset<T>,
                   waiting: multiset<T>, found: multiset<T>, left: multiset<T>)
    requires rows + carriedIn == taken + waiting && row + waiting == found + left
    ensures row + rows + carriedIn == taken + found + left
  {
    assert row + rows + carriedIn == row + (taken + waiting) == taken + (row + waiting);
  }

  /**
   * Conservation, for any rows and any incoming map: every outcome row and
   * every carried-in closer is counted, discarded, or carried on, exactly once.
   */
  lemma {:induction false} ClosersConserved(es: seq<ChainEntry>, m: seq<Group>, closed: bool)
    ensures multiset(OutcomeRefs(es)) + multiset(Flatten(m))
         == multiset(Counted(Findings(es, m, closed))) + multiset(Discarded(es, m)) + multiset(Flatten(After(es, m)))
  {
    if es != [] {
      ClosersConserved(es[1..], m, closed);
      StepConserves(After(es[1..], m), es[0]);
      RowTakes(es, m, closed);
      assert multiset(OutcomeRefs(es)) == multiset(OutcomeRow(es[0])) + multiset(OutcomeRefs(es[1..]));
      Balance(multiset(OutcomeRow(es[0])), multiset(OutcomeRefs(es[1..])), multiset(Flatten(m)),
              multiset(Counted(Findings(es[1..], m, closed))) + multiset(Discarded(es[1..], m)),
              multiset(Flatten(After(es[1..], m))), multiset(Lookup(After(es[1..], m), es[0].id)),
              multiset(Flatten(After(es, m))));
    }
  }

  /**
   * What is carried on under each id, in order, for any rows and any incoming
   * carry: the closers carried in, unless the range holds the row they name,
   * and then, newest first, the rows naming the id that are not newer than it.
   */
  lemma CarryMeaning(es: seq<ChainEntry>, carry: seq<CloserRef>, closed: bool, key: Str)
    ensures NamingIn(ClosureOf(es, carry, closed).carry, key)
         == (if HasId(es, key) then [] else NamingIn(carry, key)) + Naming(UpToId(es, key), key)
  {
    var m := PushAll([], carry);
    PushAllKeepsWellKeyed([], carry);
    AfterKeepsWellKeyed(es, m);
    NamedInCarry(After(es, m), key);
    WaitingClosers(es, m, key);
    LookupAfterPushAll([], carry, key);
    JoinEmpty(NamingIn(carry, key));
    OpenIsNaming(es, key);
  }
}
