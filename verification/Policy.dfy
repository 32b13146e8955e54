/**
 * The policy evaluator (packages/governance/src/evaluate-policy.ts). Priorities
 * are numbers or not finite; differences of distinct finite doubles keep their
 * sign, so finite priorities are compared as reals. `lower` is `toLowerCase`.
 */
module Policy {
  import opened Sequences
  import opened Wrappers

  datatype Verdict = Allow | Deny

  datatype GrantSource = SessionGrant | TaskGrant | StandingGrant

  datatype Priority = NotFinite | Finite(value: real)

  datatype PolicyEntry = PolicyEntry(
    id: string, source: GrantSource, service: string, verb: string, noun: string, decision: Verdict, priority: Priority)

  datatype PolicyAction = PolicyAction(service: string, verb: string, noun: string)

  datatype DecisionSource = Malformed | Implicit | FromEntry(source: GrantSource)

  datatype PolicyDecision = PolicyDecision(decision: Verdict, source: DecisionSource, entryId: Option<string>)

  const WILDCARD := "*"

  /** `entryMatch`. */
  predicate EntryMatch(lower: string -> string, entry: PolicyEntry, action: PolicyAction) {
    var allowsWildcard := entry.decision == Deny;
    if entry.service == WILDCARD && !allowsWildcard then false
    else if entry.service != WILDCARD && entry.service != action.service then false
    else if entry.verb == WILDCARD && !allowsWildcard then false
    else if entry.verb != WILDCARD && entry.verb != action.verb then false
    else if entry.noun == WILDCARD then allowsWildcard
    else lower(entry.noun) == lower(action.noun)
  }

  function Matched(lower: string -> string, entries: seq<PolicyEntry>, action: PolicyAction): seq<PolicyEntry> {
    Filter(e => EntryMatch(lower, e, action), entries)
  }

  function Rank(e: PolicyEntry): real { if e.priority.Finite? then e.priority.value else 0.0 }

  /** The comparator puts `a` strictly first: higher priority, then deny. */
  predicate Before(a: PolicyEntry, b: PolicyEntry) {
    Rank(a) > Rank(b) || (Rank(a) == Rank(b) && a.decision == Deny && b.decision == Allow)
  }

  function Insert(e: PolicyEntry, sorted: seq<PolicyEntry>): (r: seq<PolicyEntry>)
    ensures r != []
  {
    if sorted == [] || !Before(sorted[0], e) then [e] + sorted else [sorted[0]] + Insert(e, sorted[1..])
  }

  /** The stable sort. */
  function Sort(entries: seq<PolicyEntry>): (r: seq<PolicyEntry>)
    ensures r == [] <==> entries == []
  {
    if entries == [] then [] else Insert(entries[0], Sort(entries[1..]))
  }

  predicate AnyNotFinite(matched: seq<PolicyEntry>) { exists i :: 0 <= i < |matched| && matched[i].priority.NotFinite? }

  /** `evaluatePolicy`. */
  function EvaluatePolicy(lower: string -> string, entries: seq<PolicyEntry>, action: PolicyAction): PolicyDecision {
    var matched := Matched(lower, entries, action);
    if AnyNotFinite(matched) then PolicyDecision(Deny, Malformed, None)
    else
      var sorted := Sort(matched);
      if sorted == [] then PolicyDecision(Deny, Implicit, None)
      else PolicyDecision(sorted[0].decision, FromEntry(sorted[0].source), Some(sorted[0].id))
  }

  // ---------------------------------------------------------------------
  // The sort is a stable sort
  // ---------------------------------------------------------------------

  predicate InOrder(es: seq<PolicyEntry>) { forall i, j :: 0 <= i < j < |es| ==> !Before(es[j], es[i]) }

  lemma {:induction false} InsertAdds(e: PolicyEntry, sorted: seq<PolicyEntry>)
    ensures multiset(Insert(e, sorted)) == multiset(sorted) + multiset{e}
    ensures forall x :: x in Insert(e, sorted) <==> x == e || x in sorted
  {
    if sorted != [] && Before(sorted[0], e) {
      InsertAdds(e, sorted[1..]);
      assert sorted == [sorted[0]] + sorted[1..];
    }
  }

  lemma InOrderCons(e: PolicyEntry, rest: seq<PolicyEntry>)
    ensures InOrder([e] + rest) <==> InOrder(rest) && forall x :: x in rest ==> !Before(x, e)
  {
    var all := [e] + rest;
    assert forall k :: 0 <= k < |rest| ==> all[k + 1] == rest[k];
    if InOrder(rest) && forall x :: x in rest ==> !Before(x, e) {
      forall i, j | 0 <= i < j < |all| ensures !Before(all[j], all[i]) {
        assert all[j] == rest[j - 1] && all[j] in rest;
        assert i > 0 ==> all[i] == rest[i - 1];
      }
    }
    if InOrder(all) {
      forall i, j | 0 <= i < j < |rest| ensures !Before(rest[j], rest[i]) {
        assert !Before(all[j + 1], all[i + 1]);
      }
      forall x | x in rest ensures !Before(x, e) {
        var k :| 0 <= k < |rest| && rest[k] == x;
        assert !Before(all[k + 1], all[0]);
      }
    }
  }

  lemma {:induction false} InsertKeepsOrder(e: PolicyEntry, sorted: seq<PolicyEntry>)
    requires InOrder(sorted)
    ensures InOrder(Insert(e, sorted))
  {
    if sorted == [] {
      InOrderCons(e, sorted);
    } else {
      var rest := sorted[1..];
      assert sorted == [sorted[0]] + rest;
      InOrderCons(sorted[0], rest);
      if Before(sorted[0], e) {
        InsertKeepsOrder(e, rest);
        InsertAdds(e, rest);
        InOrderCons(sorted[0], Insert(e, rest));
      } else {
        InOrderCons(e, sorted);
      }
    }
  }

  predicate SameRank(a: PolicyEntry, b: PolicyEntry) { !Before(a, b) && !Before(b, a) }

  lemma {:induction false} InsertIsStable(e: PolicyEntry, sorted: seq<PolicyEntry>, like: PolicyEntry)
    ensures var p := (x: PolicyEntry) => SameRank(x, like);
      Filter(p, Insert(e, sorted)) == Filter(p, [e]) + Filter(p, sorted)
  {
    var p := (x: PolicyEntry) => SameRank(x, like);
    if sorted == [] || !Before(sorted[0], e) {
      FilterOfJoin(p, [e], sorted);
    } else {
      InsertIsStable(e, sorted[1..], like);
      FilterOfJoin(p, [sorted[0]], Insert(e, sorted[1..]));
      FilterOfJoin(p, [sorted[0]], sorted[1..]);
      assert sorted == [sorted[0]] + sorted[1..];
      assert [e][1..] == [] && [sorted[0]][1..] == [];
    }
  }

  /** The sort puts the entries in the comparator's order. */
  lemma {:induction false} SortOrders(es: seq<PolicyEntry>)
    ensures InOrder(Sort(es)) && multiset(Sort(es)) == multiset(es)
  {
    if es != [] {
      SortOrders(es[1..]);
      InsertKeepsOrder(es[0], Sort(es[1..]));
      InsertAdds(es[0], Sort(es[1..]));
      assert es == [es[0]] + es[1..];
    }
  }

  /** Within one rank the sort keeps the listed order. */
  lemma {:induction false} SortIsStable(es: seq<PolicyEntry>, like: PolicyEntry)
    ensures var p := (x: PolicyEntry) => SameRank(x, like); Filter(p, Sort(es)) == Filter(p, es)
  {
    if es != [] {
      var p := (x: PolicyEntry) => SameRank(x, like);
      SortIsStable(es[1..], like);
      InsertIsStable(es[0], Sort(es[1..]), like);
      FilterOfJoin(p, [es[0]], es[1..]);
      assert es == [es[0]] + es[1..];
    }
  }

  // ---------------------------------------------------------------------
  // The declarative rule
  // ---------------------------------------------------------------------

  /** An allow entry that names the action itself, with no wildcard. */
  predicate GrantsExactly(lower: string -> string, e: PolicyEntry, action: PolicyAction) {
    && e.decision == Allow
    && e.service == action.service && e.service != "*"
    && e.verb == action.verb && e.verb != "*"
    && lower(e.noun) == lower(action.noun) && e.noun != "*"
  }

  /** A deny entry each of whose columns is the wildcard or the action's own. */
  predicate Forbids(lower: string -> string, e: PolicyEntry, action: PolicyAction) {
    && e.decision == Deny
    && (e.service == "*" || e.service == action.service)
    && (e.verb == "*" || e.verb == action.verb)
    && (e.noun == "*" || lower(e.noun) == lower(action.noun))
  }

  predicate Covers(lower: string -> string, e: PolicyEntry, action: PolicyAction) {
    GrantsExactly(lower, e, action) || Forbids(lower, e, action)
  }

  /** What an entry matches, column by column: an allow only what it names, a deny also by wildcard. */
  lemma MatchIsByColumns(lower: string -> string, e: PolicyEntry, action: PolicyAction)
    ensures EntryMatch(lower, e, action) <==> Covers(lower, e, action)
  {
  }

  predicate Matches(lower: string -> string, entries: seq<PolicyEntry>, action: PolicyAction, e: PolicyEntry) {
    e in entries && Covers(lower, e, action)
  }

  /** Both priorities are numbers, and the first is at least the second. */
  predicate AtLeast(a: Priority, b: Priority) { a.Finite? && b.Finite? && a.value >= b.value }

  /** A matched entry whose priority is at least that of every matched entry. */
  ghost predicate TopMatch(lower: string -> string, entries: seq<PolicyEntry>, action: PolicyAction, e: PolicyEntry) {
    Matches(lower, entries, action, e) && forall o :: Matches(lower, entries, action, o) ==> AtLeast(e.priority, o.priority)
  }

  /** Some matched entry has a priority that cannot be ranked. */
  predicate Unrankable(lower: string -> string, entries: seq<PolicyEntry>, action: PolicyAction) {
    exists e :: e in entries && Covers(lower, e, action) && e.priority.NotFinite?
  }

  /** Every matched entry can be ranked, some entry matches, and at the highest priority none denies. */
  ghost predicate Permits(lower: string -> string, entries: seq<PolicyEntry>, action: PolicyAction) {
    && !Unrankable(lower, entries, action)
    && (exists e :: TopMatch(lower, entries, action, e))
    && (forall e :: TopMatch(lower, entries, action, e) ==> e.decision == Allow)
  }

  lemma MatchedAre(lower: string -> string, entries: seq<PolicyEntry>, action: PolicyAction)
    ensures forall e :: e in Matched(lower, entries, action) <==> Matches(lower, entries, action, e)
    ensures AnyNotFinite(Matched(lower, entries, action)) <==> Unrankable(lower, entries, action)
  {
    var matched := Matched(lower, entries, action);
    forall e ensures e in matched <==> Matches(lower, entries, action, e) {
      FilterMembers(e => EntryMatch(lower, e, action), entries, e);
      MatchIsByColumns(lower, e, action);
    }
    if AnyNotFinite(matched) {
      var i :| 0 <= i < |matched| && matched[i].priority.NotFinite?;
      assert matched[i] in matched;
    }
    if e :| e in entries && Covers(lower, e, action) && e.priority.NotFinite? {
      assert e in matched;
    }
  }

  /** The entry sorted to the front is a top match, and denies if any top match does. */
  lemma WinnerIsTop(lower: string -> string, entries: seq<PolicyEntry>, action: PolicyAction)
    requires Matched(lower, entries, action) != [] && !Unrankable(lower, entries, action)
    ensures var w := Sort(Matched(lower, entries, action))[0];
      TopMatch(lower, entries, action, w) && forall e :: TopMatch(lower, entries, action, e) && e.decision == Deny ==> w.decision == Deny
  {
    var matched := Matched(lower, entries, action);
    var sorted := Sort(matched);
    MatchedAre(lower, entries, action);
    SortOrders(matched);
    assert sorted[0] in multiset(sorted);
    forall o | o in matched ensures !Before(o, sorted[0]) {
      assert o in multiset(sorted);
      var i :| 0 <= i < |sorted| && sorted[i] == o;
    }
  }

  /** The decision is the declarative rule. */
  lemma DecisionIsDeclared(lower: string -> string, entries: seq<PolicyEntry>, action: PolicyAction)
    ensures EvaluatePolicy(lower, entries, action).decision == if Permits(lower, entries, action) then Allow else Deny
    ensures EvaluatePolicy(lower, entries, action).source == Malformed <==> Unrankable(lower, entries, action)
    ensures EvaluatePolicy(lower, entries, action).source == Implicit <==> forall e :: !Matches(lower, entries, action, e)
  {
    var matched := Matched(lower, entries, action);
    MatchedAre(lower, entries, action);
    if matched != [] {
      assert matched[0] in matched;
      if !Unrankable(lower, entries, action) {
        WinnerIsTop(lower, entries, action);
      }
    }
  }

  /** The entry named is the first listed of the matched entries that tie for the win. */
  lemma WinnerIsFirstOfItsRank(lower: string -> string, entries: seq<PolicyEntry>, action: PolicyAction)
    requires EvaluatePolicy(lower, entries, action).source.FromEntry?
    ensures var w := Sort(Matched(lower, entries, action))[0];
      var ties := Filter((x: PolicyEntry) => SameRank(x, w), Matched(lower, entries, action));
      ties != [] && ties[0] == w && EvaluatePolicy(lower, entries, action).entryId == Some(w.id)
  {
    var matched := Matched(lower, entries, action);
    SortOrders(matched);
    SortIsStable(matched, Sort(matched)[0]);
  }

  /** The first kept element, and none before it kept. */
  lemma {:induction false} FirstKept(p: PolicyEntry -> bool, s: seq<PolicyEntry>) returns (i: nat)
    requires Filter(p, s) != []
    ensures i < |s| && s[i] == Filter(p, s)[0] && p(s[i]) && forall j :: 0 <= j < i ==> !p(s[j])
  {
    if p(s[0]) {
      return 0;
    }
    assert [] + Filter(p, s[1..]) == Filter(p, s[1..]);
    i := FirstKept(p, s[1..]);
    i := i + 1;
  }

  lemma {:induction false} FilterTwice(p: PolicyEntry -> bool, q: PolicyEntry -> bool, s: seq<PolicyEntry>)
    ensures Filter(p, Filter(q, s)) == Filter(x => q(x) && p(x), s)
  {
    if s != [] {
      FilterTwice(p, q, s[1..]);
      var r := x => q(x) && p(x);
      FilterOfJoin(p, if q(s[0]) then [s[0]] else [], Filter(q, s[1..]));
      FilterOne(p, s[0]);
    }
  }

  /** Listed i-th, the entry carries the decision, its source and its name, at the top priority, and none before it does. */
  ghost predicate NamedFirst(lower: string -> string, entries: seq<PolicyEntry>, action: PolicyAction, i: nat, d: PolicyDecision)
    requires i < |entries|
  {
    && TopMatch(lower, entries, action, entries[i])
    && d == PolicyDecision(entries[i].decision, FromEntry(entries[i].source), Some(entries[i].id))
    && forall j :: 0 <= j < i && TopMatch(lower, entries, action, entries[j]) ==> entries[j].decision != d.decision
  }

  lemma FirstOfTies(lower: string -> string, entries: seq<PolicyEntry>, action: PolicyAction, w: PolicyEntry) returns (i: nat)
    requires var ties := Filter((x: PolicyEntry) => SameRank(x, w), Matched(lower, entries, action)); ties != [] && ties[0] == w
    ensures i < |entries| && entries[i] == w && Covers(lower, w, action)
    ensures forall j :: 0 <= j < i && Covers(lower, entries[j], action) ==> !SameRank(entries[j], w)
  {
    var p, q := (x: PolicyEntry) => SameRank(x, w), (x: PolicyEntry) => EntryMatch(lower, x, action);
    assert Matched(lower, entries, action) == Filter(q, entries) by {
      SameFilter(e => EntryMatch(lower, e, action), q, entries);
    }
    FilterTwice(p, q, entries);
    i := FirstKept(x => q(x) && p(x), entries);
    forall e ensures EntryMatch(lower, e, action) <==> Covers(lower, e, action) {
      MatchIsByColumns(lower, e, action);
    }
  }

  lemma {:induction false} SameFilter(p: PolicyEntry -> bool, q: PolicyEntry -> bool, s: seq<PolicyEntry>)
    requires forall x :: p(x) == q(x)
    ensures Filter(p, s) == Filter(q, s)
  {
    if s != [] {
      SameFilter(p, q, s[1..]);
    }
  }

  /** The entry a decision names is the first listed of those at the top priority that decide so. */
  lemma WinnerIsNamedFirst(lower: string -> string, entries: seq<PolicyEntry>, action: PolicyAction) returns (i: nat)
    requires EvaluatePolicy(lower, entries, action).source.FromEntry?
    ensures i < |entries| && NamedFirst(lower, entries, action, i, EvaluatePolicy(lower, entries, action))
  {
    var w := Sort(Matched(lower, entries, action))[0];
    WinnerIsFirstOfItsRank(lower, entries, action);
    i := FirstOfTies(lower, entries, action, w);
    MatchedAre(lower, entries, action);
    WinnerIsTop(lower, entries, action);
    forall j | 0 <= j < i && TopMatch(lower, entries, action, entries[j]) ensures entries[j].decision != w.decision {
      assert AtLeast(w.priority, entries[j].priority) && AtLeast(entries[j].priority, w.priority);
    }
  }

  /** Listing the same entries in another order gives the same decision. */
  lemma OrderDoesNotMatter(lower: string -> string, a: seq<PolicyEntry>, b: seq<PolicyEntry>, action: PolicyAction)
    requires forall e :: e in a <==> e in b
    ensures EvaluatePolicy(lower, a, action).decision == EvaluatePolicy(lower, b, action).decision
  {
    DecisionIsDeclared(lower, a, action);
    DecisionIsDeclared(lower, b, action);
    assert forall e :: Matches(lower, a, action, e) <==> Matches(lower, b, action, e);
    assert forall e :: TopMatch(lower, a, action, e) <==> TopMatch(lower, b, action, e);
  }

  /** What is permitted with a deny entry added was permitted without it. */
  lemma PermitsWithout(lower: string -> string, was: seq<PolicyEntry>, d: PolicyEntry, now: seq<PolicyEntry>,
                       action: PolicyAction)
    requires d.decision == Deny && Permits(lower, now, action)
    requires forall e :: e in now <==> e == d || e in was
    ensures Permits(lower, was, action)
  {
    var w :| TopMatch(lower, now, action, w);
    assert w != d;
    assert TopMatch(lower, was, action, w);
    forall e | TopMatch(lower, was, action, e) ensures e.decision == Allow {
      assert TopMatch(lower, now, action, e);
    }
  }

  /** Adding a deny entry anywhere never turns a deny into an allow. */
  lemma AddedDenyNeverAllows(lower: string -> string, a: seq<PolicyEntry>, d: PolicyEntry, b: seq<PolicyEntry>,
                             action: PolicyAction)
    requires d.decision == Deny && EvaluatePolicy(lower, a + b, action).decision == Deny
    ensures EvaluatePolicy(lower, a + [d] + b, action).decision == Deny
  {
    DecisionIsDeclared(lower, a + b, action);
    DecisionIsDeclared(lower, a + [d] + b, action);
    if Permits(lower, a + [d] + b, action) {
      PermitsWithout(lower, a + b, d, a + [d] + b, action);
    }
  }

  /**
   * A listed deny that covers the action, and whose priority is at least that of
   * every listed allow that names it, denies it, whatever else is listed.
   */
  lemma DenyPrevails(lower: string -> string, entries: seq<PolicyEntry>, action: PolicyAction, d: PolicyEntry)
    requires d in entries && Forbids(lower, d, action)
    requires forall e :: e in entries && GrantsExactly(lower, e, action) ==> AtLeast(d.priority, e.priority)
    ensures EvaluatePolicy(lower, entries, action).decision == Deny
  {
    DecisionIsDeclared(lower, entries, action);
    if Permits(lower, entries, action) {
      var w :| TopMatch(lower, entries, action, w);
      assert Matches(lower, entries, action, d) && AtLeast(w.priority, d.priority);
      assert TopMatch(lower, entries, action, d);
    }
  }

  /** A listed deny of everything covers every action: it is denied unless an allow outranks it, and never by default. */
  lemma FloorCoversAll(lower: string -> string, entries: seq<PolicyEntry>, action: PolicyAction, d: PolicyEntry)
    requires d in entries && d.decision == Deny && d.service == "*" && d.verb == "*" && d.noun == "*"
    ensures EvaluatePolicy(lower, entries, action).source != Implicit
    ensures EvaluatePolicy(lower, entries, action).decision == Allow ==>
      exists e :: e in entries && GrantsExactly(lower, e, action) && AtLeast(e.priority, d.priority) && e.priority != d.priority
  {
    DecisionIsDeclared(lower, entries, action);
    assert Matches(lower, entries, action, d);
    if Permits(lower, entries, action) {
      var w :| TopMatch(lower, entries, action, w);
      assert w.decision == Allow && AtLeast(w.priority, d.priority);
      if w.priority == d.priority {
        assert TopMatch(lower, entries, action, d);
      }
    }
  }

  /** The highest listed allow that names the action allows it, if no deny that covers it is as high and all can be ranked. */
  lemma AllowPrevails(lower: string -> string, entries: seq<PolicyEntry>, action: PolicyAction, g: PolicyEntry)
    requires g in entries && GrantsExactly(lower, g, action) && g.priority.Finite?
    requires forall e :: e in entries && Covers(lower, e, action) ==>
      AtLeast(g.priority, e.priority) && (e.decision == Deny ==> e.priority != g.priority)
    ensures EvaluatePolicy(lower, entries, action).decision == Allow
  {
    DecisionIsDeclared(lower, entries, action);
    assert TopMatch(lower, entries, action, g);
    forall e | TopMatch(lower, entries, action, e) ensures e.decision == Allow {
      assert AtLeast(e.priority, g.priority);
    }
  }

  /** An allow names a listed allow entry that matches the action exactly, with no wildcard. */
  lemma AllowIsExact(lower: string -> string, entries: seq<PolicyEntry>, action: PolicyAction)
    requires EvaluatePolicy(lower, entries, action).decision == Allow
    ensures exists e :: e in entries && GrantsExactly(lower, e, action) && EvaluatePolicy(lower, entries, action).entryId == Some(e.id)
  {
    MatchedAre(lower, entries, action);
    WinnerIsTop(lower, entries, action);
  }
}
