/**
 * The run-slot claim of `habenula up` (packages/cli/src/engine/run-record.ts
 * and the claim loop of packages/cli/src/commands/up.ts): any number of
 * processes over one record file, interleaved at every file operation.
 *
 * Taken as given: an exclusive create lands with its content in one step, a
 * conditional removal checks and unlinks in one step, claim times strictly
 * increase, pids are not reused, and a run that goes on to spawn records its
 * child's pid before its claim is `STALE_RECORD_MS` old. A create cut short
 * leaves an unparseable file behind (`Litter`).
 */
module RunSlot {
  import opened Wrappers

  const STALE_RECORD_MS := 120_000

  /** The two fields of engine.json that the protocol reads. */
  datatype RunRecord = RunRecord(startedAt: int, pid: Option<nat>)

  datatype Content = Unparseable | Parsed(record: RunRecord)

  /** Where one `up` process stands; each state ends at its next file or process operation. */
  datatype Proc =
    | Claiming(attempt: nat)
    | Collided(attempt: nat)
    | Judging(attempt: nat, seen: Option<RunRecord>, readAt: int)
    | Removing(attempt: nat, stale: Option<RunRecord>)
    | Holding(startedAt: int)
    | Spawned(startedAt: int, pid: nat)
    | Serving(startedAt: int, pid: nat)
    | GivingUp(startedAt: int)
    | Over

  datatype World = World(
    now: int, lastClaim: int, file: Option<Content>, procs: seq<Proc>, alive: set<nat>, used: set<nat>)

  const START := World(0, 0, None, [], {}, {})

  datatype Action =
    | Arrive
    | Create(p: nat)
    | Read(p: nat)
    | Judge(p: nat)
    | Remove(p: nat)
    | Refuse(p: nat)
    | Spawn(p: nat, pid: nat)
    | RecordPid(p: nat)
    | NoticeExit(p: nat)
    | Withdraw(p: nat)
    | Crash(p: nat)
    | ChildDies(pid: nat)
    | Litter
    | Tick(to: int)

  /** Between a won claim and a recorded pid. */
  predicate Pending(s: Proc) { s.Holding? || s.Spawned? }

  /** The run holds the slot: still on its way to recording a child, or its child lives. */
  predicate Live(alive: set<nat>, s: Proc) { Pending(s) || (s.Serving? && s.pid in alive) }

  predicate HasClaim(s: Proc) { Pending(s) || s.Serving? || s.GivingUp? }

  function ParsedIn(file: Option<Content>): Option<RunRecord> {
    if file.Some? && file.value.Parsed? then Some(file.value.record) else None
  }

  /** `loseClaim`'s verdict: neither a live pid nor a young claim without one. */
  predicate ReadsStale(alive: set<nat>, now: int, r: RunRecord) {
    if r.pid.Some? then r.pid.value !in alive else now - r.startedAt >= STALE_RECORD_MS
  }

  /** The file after a removal conditional on `startedAt`. */
  function WithoutClaim(file: Option<Content>, startedAt: int): Option<Content> {
    if ParsedIn(file).Some? && ParsedIn(file).value.startedAt == startedAt then None else file
  }

  function WithoutUnparseable(file: Option<Content>): Option<Content> {
    if file == Some(Unparseable) then None else file
  }

  predicate Enabled(w: World, a: Action) {
    match a
    case Arrive => true
    case Create(p) => p < |w.procs| && w.procs[p].Claiming? && (w.file.None? ==> w.lastClaim < w.now)
    case Read(p) => p < |w.procs| && w.procs[p].Collided?
    case Judge(p) => p < |w.procs| && w.procs[p].Judging?
    case Remove(p) => p < |w.procs| && w.procs[p].Removing?
    case Refuse(p) => p < |w.procs| && w.procs[p].Holding?
    case Spawn(p, pid) => p < |w.procs| && w.procs[p].Holding? && pid !in w.used
    case RecordPid(p) => p < |w.procs| && w.procs[p].Spawned?
    case NoticeExit(p) => p < |w.procs| && w.procs[p].Serving? && w.procs[p].pid !in w.alive
    case Withdraw(p) => p < |w.procs| && w.procs[p].GivingUp?
    case Crash(p) => p < |w.procs| && !w.procs[p].Spawned? && !w.procs[p].Serving?
    case ChildDies(pid) => pid in w.alive
    case Litter => w.file == None
    case Tick(to) =>
      w.now <= to && forall p :: 0 <= p < |w.procs| && Pending(w.procs[p]) ==> to - w.procs[p].startedAt < STALE_RECORD_MS
  }

  function Put(w: World, p: nat, s: Proc): World
    requires p < |w.procs|
  {
    w.(procs := w.procs[p := s])
  }

  function Judged(w: World, s: Proc): Proc
    requires s.Judging?
  {
    if s.seen.None? then Removing(s.attempt, None)
    else if ReadsStale(w.alive, w.now, s.seen.value) then Removing(s.attempt, s.seen)
    else Over
  }

  function Apply(w: World, a: Action): World
    requires Enabled(w, a)
  {
    match a
    case Arrive => w.(procs := w.procs + [Claiming(1)])
    case Create(p) =>
      if w.file.Some? then Put(w, p, Collided(w.procs[p].attempt))
      else Put(w, p, Holding(w.now)).(file := Some(Parsed(RunRecord(w.now, None))), lastClaim := w.now)
    case Read(p) => Put(w, p, Judging(w.procs[p].attempt, ParsedIn(w.file), w.now))
    case Judge(p) => Put(w, p, Judged(w, w.procs[p]))
    case Remove(p) =>
      var s := w.procs[p];
      Put(w, p, if s.attempt == 1 then Claiming(2) else Over).(
        file := if s.stale.None? then WithoutUnparseable(w.file) else WithoutClaim(w.file, s.stale.value.startedAt))
    case Refuse(p) => Put(w, p, GivingUp(w.procs[p].startedAt))
    case Spawn(p, pid) =>
      Put(w, p, Spawned(w.procs[p].startedAt, pid)).(alive := w.alive + {pid}, used := w.used + {pid})
    case RecordPid(p) =>
      var s := w.procs[p];
      Put(w, p, Serving(s.startedAt, s.pid)).(file := Some(Parsed(RunRecord(s.startedAt, Some(s.pid)))))
    case NoticeExit(p) => Put(w, p, GivingUp(w.procs[p].startedAt))
    case Withdraw(p) => Put(w, p, Over).(file := WithoutClaim(w.file, w.procs[p].startedAt))
    case Crash(p) => Put(w, p, Over)
    case ChildDies(pid) => w.(alive := w.alive - {pid})
    case Litter => w.(file := Some(Unparseable))
    case Tick(to) => w.(now := to)
  }

  /**
   * A judgement is prompt when a claim without a pid that it finds too old was
   * already too old when the record was read.
   */
  predicate Prompt(w: World, a: Action) {
    a.Judge? && a.p < |w.procs| && w.procs[a.p].Judging? ==>
      var s := w.procs[a.p];
      s.seen.Some? && s.seen.value.pid.None? && w.now - s.seen.value.startedAt >= STALE_RECORD_MS ==>
        s.readAt - s.seen.value.startedAt >= STALE_RECORD_MS
  }

  /**
   * A judgement is fair when the claim that it condemns is still stale as the
   * file now has it, or is no longer in the file.
   */
  predicate Fair(w: World, a: Action) {
    a.Judge? && a.p < |w.procs| && Condemns(w, w.procs[a.p]) ==>
      var current := ParsedIn(w.file);
      current.Some? && current.value.startedAt == w.procs[a.p].seen.value.startedAt ==> ReadsStale(w.alive, w.now, current.value)
  }

  /** The process holds a record that it is about to find stale. */
  predicate Condemns(w: World, s: Proc) { s.Judging? && s.seen.Some? && ReadsStale(w.alive, w.now, s.seen.value) }

  /** The actions can be taken one after another from an empty slot. */
  predicate Possible(actions: seq<Action>)
    decreases |actions|, 0
  {
    actions != [] ==>
      var init := actions[..|actions| - 1];
      Possible(init) && Enabled(After(init), actions[|actions| - 1])
  }

  function After(actions: seq<Action>): World
    requires Possible(actions)
    decreases |actions|, 1
  {
    if actions == [] then START else Apply(After(actions[..|actions| - 1]), actions[|actions| - 1])
  }

  /** Every judgement of the run is fair. */
  predicate AllFair(actions: seq<Action>)
    requires Possible(actions)
    decreases |actions|
  {
    actions != [] ==>
      var init := actions[..|actions| - 1];
      AllFair(init) && Fair(After(init), actions[|actions| - 1])
  }

  /** Every judgement of the run is prompt. */
  predicate AllPrompt(actions: seq<Action>)
    requires Possible(actions)
    decreases |actions|
  {
    actions != [] ==>
      var init := actions[..|actions| - 1];
      AllPrompt(init) && Prompt(After(init), actions[|actions| - 1])
  }

  /** The first n + 1 actions, once the first n are known to lead to `was`. */
  lemma NextWorld(actions: seq<Action>, n: nat, was: World)
    requires n < |actions| && Possible(actions[..n]) && After(actions[..n]) == was && Enabled(was, actions[n])
    ensures Possible(actions[..n + 1]) && After(actions[..n + 1]) == Apply(was, actions[n])
  {
    assert actions[..n + 1][..n] == actions[..n];
  }

  // ---------------------------------------------------------------------
  // The invariant
  // ---------------------------------------------------------------------

  /** No live run claims this time. */
  predicate DeadClaim(w: World, t: int) {
    forall p :: 0 <= p < |w.procs| && Live(w.alive, w.procs[p]) ==> w.procs[p].startedAt != t
  }

  /** A record with a pid: its claimant serves with that pid, or is past serving. */
  predicate PidIsClaimants(w: World, r: RunRecord)
    requires r.pid.Some?
  {
    forall p :: 0 <= p < |w.procs| && HasClaim(w.procs[p]) && w.procs[p].startedAt == r.startedAt ==>
      w.procs[p] == Serving(r.startedAt, r.pid.value) || w.procs[p].GivingUp?
  }

  /** What is known of any record that was in the file at some time. */
  predicate RecordOk(w: World, r: RunRecord) {
    && r.startedAt <= w.lastClaim
    && (r.pid.Some? ==> r.pid.value in w.used && PidIsClaimants(w, r))
    && (r.pid.Some? && ParsedIn(w.file).Some? && ParsedIn(w.file).value.startedAt == r.startedAt ==> ParsedIn(w.file).value == r)
  }

  /** A live pid in the file belongs to a run that serves with it. */
  predicate FileBacked(w: World) {
    var r := ParsedIn(w.file);
    r.Some? && r.value.pid.Some? && r.value.pid.value in w.alive ==>
      exists q :: 0 <= q < |w.procs| && w.procs[q] == Serving(r.value.startedAt, r.value.pid.value)
  }

  predicate ProcOk(w: World, s: Proc) {
    && (HasClaim(s) ==> s.startedAt <= w.lastClaim)
    && (s.Spawned? || s.Serving? ==> s.pid in w.used)
    && (Pending(s) ==> w.file == Some(Parsed(RunRecord(s.startedAt, None))) && w.now - s.startedAt < STALE_RECORD_MS)
    && (s.Serving? && s.pid in w.alive ==> w.file == Some(Parsed(RunRecord(s.startedAt, Some(s.pid)))))
    && (s.Judging? && s.seen.Some? ==>
          && RecordOk(w, s.seen.value)
          && (s.seen.value.pid.None? && s.readAt - s.seen.value.startedAt >= STALE_RECORD_MS ==> DeadClaim(w, s.seen.value.startedAt)))
    && (s.Removing? && s.stale.Some? ==> RecordOk(w, s.stale.value) && DeadClaim(w, s.stale.value.startedAt))
  }

  predicate ProcsOk(w: World) { forall p :: 0 <= p < |w.procs| ==> ProcOk(w, w.procs[p]) }

  predicate ClaimsDistinct(w: World) {
    forall p, q :: 0 <= p < q < |w.procs| && HasClaim(w.procs[p]) && HasClaim(w.procs[q]) ==>
      w.procs[p].startedAt != w.procs[q].startedAt
  }

  predicate Inv(w: World) {
    && w.lastClaim <= w.now && w.alive <= w.used
    && ProcsOk(w) && ClaimsDistinct(w) && FileBacked(w)
    && (ParsedIn(w.file).Some? ==> RecordOk(w, ParsedIn(w.file).value))
  }

  // ---------------------------------------------------------------------
  // Every step keeps it
  // ---------------------------------------------------------------------

  /** Runs that serve with a live child stay put, so the file stays backed. */
  lemma BackedStays(w: World, w2: World)
    requires FileBacked(w) && w2.file == w.file && w2.alive <= w.alive && |w.procs| <= |w2.procs|
    requires forall q :: 0 <= q < |w.procs| && w.procs[q].Serving? && w.procs[q].pid in w.alive ==> w2.procs[q] == w.procs[q]
    ensures FileBacked(w2)
  {
  }

  /** A process moves to a state in which it is not live, the file untouched. */
  lemma StandDown(w: World, p: nat, s: Proc)
    requires Inv(w) && p < |w.procs| && !Pending(s) && !s.Serving?
    requires HasClaim(s) ==> HasClaim(w.procs[p]) && s.startedAt == w.procs[p].startedAt
    requires ProcOk(w, s) && !(w.procs[p].Serving? && w.procs[p].pid in w.alive)
    ensures Inv(Put(w, p, s))
  {
    var w2 := Put(w, p, s);
    BackedStays(w, w2);
    forall t | DeadClaim(w, t) ensures DeadClaim(w2, t) {
      assert forall q :: 0 <= q < |w2.procs| && Live(w2.alive, w2.procs[q]) ==> w2.procs[q] == w.procs[q];
    }
    forall r | RecordOk(w, r) ensures RecordOk(w2, r) {
    }
    forall q | 0 <= q < |w2.procs| ensures ProcOk(w2, w2.procs[q]) {
      assert ProcOk(w, if q == p then s else w.procs[q]);
    }
  }

  /** A live run's record is the one in the file, so a dead claim's record leaves no live run behind. */
  lemma OnlyTheFileIsLive(w: World, p: nat)
    requires Inv(w) && p < |w.procs| && Live(w.alive, w.procs[p])
    ensures ParsedIn(w.file).Some? && ParsedIn(w.file).value.startedAt == w.procs[p].startedAt
  {
    assert ProcOk(w, w.procs[p]);
  }

  /** The file goes, while no run is live. */
  lemma FileGoes(w: World)
    requires Inv(w) && forall p :: 0 <= p < |w.procs| ==> !Live(w.alive, w.procs[p])
    ensures Inv(w.(file := None))
  {
    var w2 := w.(file := None);
    forall r | RecordOk(w, r) ensures RecordOk(w2, r) {
    }
    forall q | 0 <= q < |w2.procs| ensures ProcOk(w2, w2.procs[q]) {
      assert ProcOk(w, w.procs[q]) && !Live(w.alive, w.procs[q]);
    }
  }

  /** Removing a dead claim's record, or an unparseable file, costs no live run its record. */
  lemma RemovalHarmless(w: World, file: Option<Content>)
    requires Inv(w)
    requires file == WithoutUnparseable(w.file) || exists t :: DeadClaim(w, t) && file == WithoutClaim(w.file, t)
    ensures Inv(w.(file := file))
  {
    if file != w.file {
      forall p | 0 <= p < |w.procs| ensures !Live(w.alive, w.procs[p]) {
        if Live(w.alive, w.procs[p]) {
          OnlyTheFileIsLive(w, p);
        }
      }
      FileGoes(w);
    } else {
      assert w.(file := file) == w;
    }
  }

  lemma RemoveStep(w: World, p: nat)
    requires Inv(w) && Enabled(w, Remove(p))
    ensures Inv(Apply(w, Remove(p)))
  {
    var s := w.procs[p];
    var w2 := Apply(w, Remove(p));
    assert ProcOk(w, s);
    RemovalHarmless(w, w2.file);
    StandDown(w.(file := w2.file), p, w2.procs[p]);
  }

  /** Once a run is giving up, its claim is dead. */
  lemma OwnClaimIsDead(w: World, p: nat)
    requires Inv(w) && p < |w.procs| && w.procs[p].GivingUp?
    ensures DeadClaim(w, w.procs[p].startedAt)
  {
    forall q | 0 <= q < |w.procs| && Live(w.alive, w.procs[q]) ensures w.procs[q].startedAt != w.procs[p].startedAt {
      assert p < q || q < p;
    }
  }

  lemma WithdrawStep(w: World, p: nat)
    requires Inv(w) && Enabled(w, Withdraw(p))
    ensures Inv(Apply(w, Withdraw(p)))
  {
    var w2 := Apply(w, Withdraw(p));
    OwnClaimIsDead(w, p);
    RemovalHarmless(w, w2.file);
    StandDown(w.(file := w2.file), p, Over);
  }

  /** A record read without a pid and already too old is nobody's live claim. */
  lemma OldClaimIsDead(w: World, r: RunRecord)
    requires Inv(w) && ParsedIn(w.file) == Some(r) && r.pid.None? && w.now - r.startedAt >= STALE_RECORD_MS
    ensures DeadClaim(w, r.startedAt)
  {
    forall q | 0 <= q < |w.procs| && Live(w.alive, w.procs[q]) ensures w.procs[q].startedAt != r.startedAt {
      assert ProcOk(w, w.procs[q]);
    }
  }

  lemma ReadStep(w: World, p: nat)
    requires Inv(w) && Enabled(w, Read(p))
    ensures Inv(Apply(w, Read(p)))
  {
    var seen := ParsedIn(w.file);
    if seen.Some? && seen.value.pid.None? && w.now - seen.value.startedAt >= STALE_RECORD_MS {
      OldClaimIsDead(w, seen.value);
    }
    StandDown(w, p, Judging(w.procs[p].attempt, seen, w.now));
  }

  /** A record read with a pid that is now dead is nobody's live claim. */
  lemma DeadPidIsDead(w: World, r: RunRecord)
    requires Inv(w) && RecordOk(w, r) && r.pid.Some? && r.pid.value !in w.alive
    ensures DeadClaim(w, r.startedAt)
  {
    forall q | 0 <= q < |w.procs| && Live(w.alive, w.procs[q]) ensures w.procs[q].startedAt != r.startedAt {
      assert HasClaim(w.procs[q]);
    }
  }

  /** A fair judgement condemns no live run, and an unfair one does. */
  lemma FairIffDead(w: World, p: nat)
    requires Inv(w) && Enabled(w, Judge(p)) && Condemns(w, w.procs[p])
    ensures Fair(w, Judge(p)) <==> DeadClaim(w, w.procs[p].seen.value.startedAt)
  {
    var r := w.procs[p].seen.value;
    assert ProcOk(w, w.procs[p]);
    if r.pid.Some? {
      DeadPidIsDead(w, r);
    }
    forall q | 0 <= q < |w.procs| && Live(w.alive, w.procs[q]) && w.procs[q].startedAt == r.startedAt ensures !Fair(w, Judge(p)) {
      assert ProcOk(w, w.procs[q]);
    }
    if !Fair(w, Judge(p)) {
      var q :| 0 <= q < |w.procs| && w.procs[q] == Serving(r.startedAt, ParsedIn(w.file).value.pid.value);
      assert Live(w.alive, w.procs[q]);
    }
  }

  lemma JudgeStep(w: World, p: nat)
    requires Inv(w) && Enabled(w, Judge(p)) && Fair(w, Judge(p))
    ensures Inv(Apply(w, Judge(p)))
  {
    var s := w.procs[p];
    assert ProcOk(w, s);
    if Condemns(w, s) {
      FairIffDead(w, p);
    }
    StandDown(w, p, Judged(w, s));
  }

  /** With an empty slot no run is live. */
  lemma EmptySlotIsFree(w: World, p: nat)
    requires Inv(w) && ParsedIn(w.file).None? && p < |w.procs|
    ensures !Live(w.alive, w.procs[p])
  {
    assert ProcOk(w, w.procs[p]);
  }

  lemma WinStep(w: World, p: nat)
    requires Inv(w) && Enabled(w, Create(p)) && w.file.None?
    ensures Inv(Apply(w, Create(p)))
  {
    var w2 := Apply(w, Create(p));
    assert forall q :: 0 <= q < |w.procs| ==> ProcOk(w, w.procs[q]);
    forall t | DeadClaim(w, t) && t <= w.lastClaim ensures DeadClaim(w2, t) {
      assert forall q :: 0 <= q < |w2.procs| && q != p ==> w2.procs[q] == w.procs[q];
    }
    forall r | RecordOk(w, r) ensures RecordOk(w2, r) {
      assert forall q :: 0 <= q < |w2.procs| && q != p ==> w2.procs[q] == w.procs[q];
    }
    forall q | 0 <= q < |w2.procs| ensures ProcOk(w2, w2.procs[q]) {
      EmptySlotIsFree(w, q);
      assert ProcOk(w, w.procs[q]);
    }
  }

  /** A live run moves one state on under its own claim, the others staying as they are. */
  lemma SpawnStep(w: World, p: nat, pid: nat)
    requires Inv(w) && Enabled(w, Spawn(p, pid))
    ensures Inv(Apply(w, Spawn(p, pid)))
  {
    var w2 := Apply(w, Spawn(p, pid));
    assert ProcOk(w, w.procs[p]);
    forall t | DeadClaim(w, t) ensures DeadClaim(w2, t) {
      forall q | 0 <= q < |w2.procs| && Live(w2.alive, w2.procs[q]) ensures w2.procs[q].startedAt != t {
        assert ProcOk(w, w.procs[q]);
        assert Live(w.alive, w.procs[q]);
      }
    }
    forall r | RecordOk(w, r) ensures RecordOk(w2, r) {
      assert r.pid.Some? ==> w.procs[p].startedAt != r.startedAt;
    }
    forall q | 0 <= q < |w2.procs| ensures ProcOk(w2, w2.procs[q]) {
      assert ProcOk(w, w.procs[q]);
    }
  }

  lemma RecordStep(w: World, p: nat)
    requires Inv(w) && Enabled(w, RecordPid(p))
    ensures Inv(Apply(w, RecordPid(p)))
  {
    var w2 := Apply(w, RecordPid(p));
    assert ProcOk(w, w.procs[p]);
    forall t | DeadClaim(w, t) ensures DeadClaim(w2, t) {
      forall q | 0 <= q < |w2.procs| && Live(w2.alive, w2.procs[q]) ensures w2.procs[q].startedAt != t {
        assert Live(w.alive, w.procs[q]);
      }
    }
    forall r | RecordOk(w, r) ensures RecordOk(w2, r) {
      assert r.pid.Some? ==> w.procs[p].startedAt != r.startedAt;
    }
    forall q | 0 <= q < |w2.procs| ensures ProcOk(w2, w2.procs[q]) {
      assert ProcOk(w, w.procs[q]);
      assert q < p || p <= q;
    }
    assert PidIsClaimants(w2, ParsedIn(w2.file).value);
    assert w2.procs[p] == Serving(ParsedIn(w2.file).value.startedAt, ParsedIn(w2.file).value.pid.value);
  }

  /** The clock moves, a child dies, a process arrives, or a file is cut short. */
  lemma EnvironmentStep(w: World, a: Action)
    requires Inv(w) && Enabled(w, a) && (a.Tick? || a.ChildDies? || a.Arrive? || a.Litter?)
    ensures Inv(Apply(w, a))
  {
    var w2 := Apply(w, a);
    if !a.Litter? {
      BackedStays(w, w2);
    }
    forall t | DeadClaim(w, t) ensures DeadClaim(w2, t) {
      assert forall q :: 0 <= q < |w2.procs| && Live(w2.alive, w2.procs[q]) ==> q < |w.procs| && w2.procs[q] == w.procs[q];
    }
    forall r | RecordOk(w, r) ensures RecordOk(w2, r) {
    }
    forall q | 0 <= q < |w2.procs| ensures ProcOk(w2, w2.procs[q]) {
      if q < |w.procs| {
        assert ProcOk(w, w.procs[q]);
      }
    }
  }

  lemma StepKeepsInv(w: World, a: Action)
    requires Inv(w) && Enabled(w, a) && Fair(w, a)
    ensures Inv(Apply(w, a))
  {
    match a
    case Create(p) =>
      if w.file.None? {
        WinStep(w, p);
      } else {
        StandDown(w, p, Collided(w.procs[p].attempt));
      }
    case Read(p) => ReadStep(w, p);
    case Judge(p) => JudgeStep(w, p);
    case Remove(p) => RemoveStep(w, p);
    case Refuse(p) =>
      assert ProcOk(w, w.procs[p]);
      StandDown(w, p, GivingUp(w.procs[p].startedAt));
    case Spawn(p, pid) => SpawnStep(w, p, pid);
    case RecordPid(p) => RecordStep(w, p);
    case NoticeExit(p) =>
      assert ProcOk(w, w.procs[p]);
      StandDown(w, p, GivingUp(w.procs[p].startedAt));
    case Withdraw(p) => WithdrawStep(w, p);
    case Crash(p) => StandDown(w, p, Over);
    case Arrive => EnvironmentStep(w, a);
    case ChildDies(_) => EnvironmentStep(w, a);
    case Litter => EnvironmentStep(w, a);
    case Tick(_) => EnvironmentStep(w, a);
  }

  lemma {:induction false} RunKeepsInv(actions: seq<Action>)
    requires Possible(actions) && AllFair(actions)
    ensures Inv(After(actions))
  {
    if actions != [] {
      RunKeepsInv(actions[..|actions| - 1]);
      StepKeepsInv(After(actions[..|actions| - 1]), actions[|actions| - 1]);
    }
  }

  // ---------------------------------------------------------------------
  // Every run
  // ---------------------------------------------------------------------

  /** At most one run is live, and the file is its record. */
  predicate OneHolder(w: World) {
    && (forall p, q :: 0 <= p < q < |w.procs| ==> !(Live(w.alive, w.procs[p]) && Live(w.alive, w.procs[q])))
    && (forall p :: 0 <= p < |w.procs| && Live(w.alive, w.procs[p]) ==>
          ParsedIn(w.file).Some? && ParsedIn(w.file).value.startedAt == w.procs[p].startedAt)
  }

  lemma InvMeansOneHolder(w: World)
    requires Inv(w)
    ensures OneHolder(w)
  {
    forall p | 0 <= p < |w.procs| && Live(w.alive, w.procs[p])
      ensures ParsedIn(w.file).Some? && ParsedIn(w.file).value.startedAt == w.procs[p].startedAt
    {
      OnlyTheFileIsLive(w, p);
    }
  }

  /**
   * In every run whose judgements are fair, however many `up` processes
   * interleave, at most one live run holds the slot.
   */
  lemma AtMostOneLiveRun(actions: seq<Action>)
    requires Possible(actions) && AllFair(actions)
    ensures OneHolder(After(actions))
  {
    RunKeepsInv(actions);
    InvMeansOneHolder(After(actions));
  }

  /** The claim a process is about to take out of the file: its own, or the one it read as stale. */
  function Target(s: Proc): Option<int> {
    if s.GivingUp? then Some(s.startedAt)
    else if s.Removing? && s.stale.Some? then Some(s.stale.value.startedAt)
    else None
  }

  predicate IsRemoval(a: Action) { a.Remove? || a.Withdraw? }

  /** A removal that deletes a record deletes the remover's target, which is no live run's. */
  predicate DeletesOnlyItsTarget(w: World, a: Action)
    requires Enabled(w, a) && IsRemoval(a)
  {
    var r := ParsedIn(w.file);
    r.Some? && Apply(w, a).file != w.file ==>
      && Target(w.procs[a.p]) == Some(r.value.startedAt)
      && DeadClaim(w, r.value.startedAt)
  }

  /**
   * In every run whose judgements are fair, a removal deletes no record but
   * one its remover claimed or read as stale, and never a live run's.
   */
  lemma RemovalsAreSound(actions: seq<Action>, a: Action)
    requires Possible(actions) && AllFair(actions) && Enabled(After(actions), a) && IsRemoval(a)
    ensures DeletesOnlyItsTarget(After(actions), a)
  {
    RunKeepsInv(actions);
    var w := After(actions);
    assert ProcOk(w, w.procs[a.p]);
    if a.Withdraw? {
      OwnClaimIsDead(w, a.p);
    }
  }

  // ---------------------------------------------------------------------
  // What fairness is for
  // ---------------------------------------------------------------------

  /**
   * After any run of fair judgements, let a process judge its record stale and
   * then remove it, nobody else moving in between. The slot is still held by
   * at most one run, with its record in the file, exactly when the judgement
   * was fair.
   */
  lemma RemovalIsSafeIffFair(actions: seq<Action>, p: nat)
    requires Possible(actions) && AllFair(actions)
    requires Enabled(After(actions), Judge(p)) && Condemns(After(actions), After(actions).procs[p])
    ensures var w := After(actions); var w1 := Apply(w, Judge(p));
      Enabled(w1, Remove(p)) && (OneHolder(Apply(w1, Remove(p))) <==> Fair(w, Judge(p)))
  {
    RunKeepsInv(actions);
    var w := After(actions);
    var w1 := Apply(w, Judge(p));
    var w2 := Apply(w1, Remove(p));
    FairIffDead(w, p);
    if Fair(w, Judge(p)) {
      StepKeepsInv(w, Judge(p));
      StepKeepsInv(w1, Remove(p));
      InvMeansOneHolder(w2);
    } else {
      var q :| 0 <= q < |w.procs| && Live(w.alive, w.procs[q]) && w.procs[q].startedAt == w.procs[p].seen.value.startedAt;
      OnlyTheFileIsLive(w, q);
      assert Live(w2.alive, w2.procs[q]) && w2.file == None;
    }
  }

  /** A prompt judgement is fair: a claim already too old when read has no live run behind it. */
  lemma PromptIsFair(w: World, a: Action)
    requires Inv(w) && Enabled(w, a) && Prompt(w, a)
    ensures Fair(w, a)
  {
    if a.Judge? && Condemns(w, w.procs[a.p]) {
      var r := w.procs[a.p].seen.value;
      assert ProcOk(w, w.procs[a.p]);
      if r.pid.Some? {
        DeadPidIsDead(w, r);
      }
      FairIffDead(w, a.p);
    }
  }

  /** In particular runs that judge each record as soon as they have read it are fair. */
  lemma {:induction false} PromptRunsAreFair(actions: seq<Action>)
    requires Possible(actions) && AllPrompt(actions)
    ensures AllFair(actions)
  {
    if actions != [] {
      var init := actions[..|actions| - 1];
      PromptRunsAreFair(init);
      RunKeepsInv(init);
      PromptIsFair(After(init), actions[|actions| - 1]);
    }
  }

  /** The second run reads a fresh claim, and judges it two minutes later. */
  const LATE_RUN: seq<Action> := [
    Tick(1), Arrive, Create(0), Arrive, Create(1), Read(1),
    Spawn(0, 7), RecordPid(0), Tick(1 + STALE_RECORD_MS),
    Judge(1), Remove(1), Tick(2 + STALE_RECORD_MS), Create(1)
  ]

  const YOUNG := RunRecord(1, None)
  const HELD := RunRecord(1, Some(7))

  lemma LateRunClaims()
    ensures Possible(LATE_RUN[..3]) && After(LATE_RUN[..3]) == World(1, 1, Some(Parsed(YOUNG)), [Holding(1)], {}, {})
  {
    NextWorld(LATE_RUN, 0, START);
    NextWorld(LATE_RUN, 1, START.(now := 1));
    NextWorld(LATE_RUN, 2, START.(now := 1, procs := [Claiming(1)]));
  }

  lemma LateRunCollides()
    ensures Possible(LATE_RUN[..5])
    ensures After(LATE_RUN[..5]) == World(1, 1, Some(Parsed(YOUNG)), [Holding(1), Collided(1)], {}, {})
  {
    LateRunClaims();
    NextWorld(LATE_RUN, 3, World(1, 1, Some(Parsed(YOUNG)), [Holding(1)], {}, {}));
    NextWorld(LATE_RUN, 4, World(1, 1, Some(Parsed(YOUNG)), [Holding(1), Claiming(1)], {}, {}));
  }

  lemma LateRunReads()
    ensures Possible(LATE_RUN[..6])
    ensures After(LATE_RUN[..6]) == World(1, 1, Some(Parsed(YOUNG)), [Holding(1), Judging(1, Some(YOUNG), 1)], {}, {})
  {
    LateRunCollides();
    NextWorld(LATE_RUN, 5, World(1, 1, Some(Parsed(YOUNG)), [Holding(1), Collided(1)], {}, {}));
  }

  lemma LateRunSpawns()
    ensures Possible(LATE_RUN[..8])
    ensures After(LATE_RUN[..8]) == World(1, 1, Some(Parsed(HELD)), [Serving(1, 7), Judging(1, Some(YOUNG), 1)], {7}, {7})
  {
    LateRunReads();
    NextWorld(LATE_RUN, 6, World(1, 1, Some(Parsed(YOUNG)), [Holding(1), Judging(1, Some(YOUNG), 1)], {}, {}));
    NextWorld(LATE_RUN, 7, World(1, 1, Some(Parsed(YOUNG)), [Spawned(1, 7), Judging(1, Some(YOUNG), 1)], {7}, {7}));
  }

  lemma LateRunServes()
    ensures Possible(LATE_RUN[..9])
    ensures After(LATE_RUN[..9])
         == World(1 + STALE_RECORD_MS, 1, Some(Parsed(HELD)), [Serving(1, 7), Judging(1, Some(YOUNG), 1)], {7}, {7})
  {
    LateRunSpawns();
    NextWorld(LATE_RUN, 8, World(1, 1, Some(Parsed(HELD)), [Serving(1, 7), Judging(1, Some(YOUNG), 1)], {7}, {7}));
  }

  lemma LateRunRemoves()
    ensures Possible(LATE_RUN[..11])
    ensures After(LATE_RUN[..11]) == World(1 + STALE_RECORD_MS, 1, None, [Serving(1, 7), Claiming(2)], {7}, {7})
  {
    LateRunServes();
    var t := 1 + STALE_RECORD_MS;
    NextWorld(LATE_RUN, 9, World(t, 1, Some(Parsed(HELD)), [Serving(1, 7), Judging(1, Some(YOUNG), 1)], {7}, {7}));
    NextWorld(LATE_RUN, 10, World(t, 1, Some(Parsed(HELD)), [Serving(1, 7), Removing(1, Some(YOUNG))], {7}, {7}));
  }

  lemma LateRunReclaims()
    ensures Possible(LATE_RUN[..13])
    ensures After(LATE_RUN[..13]).alive == {7} && After(LATE_RUN[..13]).procs == [Serving(1, 7), Holding(2 + STALE_RECORD_MS)]
  {
    LateRunRemoves();
    var t := 1 + STALE_RECORD_MS;
    NextWorld(LATE_RUN, 11, World(t, 1, None, [Serving(1, 7), Claiming(2)], {7}, {7}));
    NextWorld(LATE_RUN, 12, World(t + 1, 1, None, [Serving(1, 7), Claiming(2)], {7}, {7}));
  }

  /**
   * The code judges the record it read, not the one in the file, so the slot
   * is not exclusive as it stands: a record read young and judged old is
   * removed although its run has recorded a child since.
   */
  lemma LateJudgementBreaksTheSlot()
    ensures Possible(LATE_RUN) && !AllFair(LATE_RUN) && !OneHolder(After(LATE_RUN))
  {
    LateRunReclaims();
    assert LATE_RUN[..13] == LATE_RUN;
    var w := After(LATE_RUN);
    assert Live(w.alive, w.procs[0]) && Live(w.alive, w.procs[1]);
    if AllFair(LATE_RUN) {
      AtMostOneLiveRun(LATE_RUN);
    }
  }

  // ---------------------------------------------------------------------
  // What earlier runs leave behind
  // ---------------------------------------------------------------------

  /** Whatever record is in the file was claimed before now. */
  predicate LeftBefore(file: Option<Content>, now: int) {
    0 <= now && (ParsedIn(file).Some? ==> 0 < ParsedIn(file).value.startedAt <= now)
  }

  /** Only a claim younger than the bound can still be on its way to a child. */
  predicate MayGoOn(file: Option<Content>, now: int) {
    ParsedIn(file).Some? && (ParsedIn(file).value.pid.None? ==> now - ParsedIn(file).value.startedAt < STALE_RECORD_MS)
  }

  /** The world in which a file is found, its run still going on or long dead. */
  function Found(file: Option<Content>, now: int, goesOn: bool): World {
    match ParsedIn(file)
    case None => START.(now := now, file := file)
    case Some(RunRecord(t, None)) => World(now, t, file, [if goesOn then Holding(t) else Over], {}, {})
    case Some(RunRecord(t, Some(pid))) => World(now, t, file, [Serving(t, pid)], if goesOn then {pid} else {}, {pid})
  }

  /** The actions lead to this world, every judgement on the way fair. */
  predicate LeadTo(actions: seq<Action>, w: World) { Possible(actions) && AllFair(actions) && After(actions) == w }

  lemma Then(actions: seq<Action>, w: World, a: Action) returns (more: seq<Action>)
    requires LeadTo(actions, w) && Enabled(w, a) && !a.Judge?
    ensures LeadTo(more, Apply(w, a))
  {
    more := actions + [a];
    assert more[..|actions|] == actions;
  }

  lemma ClaimedAt(t: int) returns (actions: seq<Action>)
    requires 0 < t
    ensures LeadTo(actions, World(t, t, Some(Parsed(RunRecord(t, None))), [Holding(t)], {}, {}))
  {
    actions := Then([], START, Tick(t));
    actions := Then(actions, START.(now := t), Arrive);
    actions := Then(actions, START.(now := t, procs := [Claiming(1)]), Create(0));
  }

  lemma ServedAt(t: int, pid: nat) returns (actions: seq<Action>)
    requires 0 < t
    ensures LeadTo(actions, World(t, t, Some(Parsed(RunRecord(t, Some(pid)))), [Serving(t, pid)], {pid}, {pid}))
  {
    var file := Some(Parsed(RunRecord(t, None)));
    actions := ClaimedAt(t);
    actions := Then(actions, World(t, t, file, [Holding(t)], {}, {}), Spawn(0, pid));
    actions := Then(actions, World(t, t, file, [Spawned(t, pid)], {pid}, {pid}), RecordPid(0));
  }

  /**
   * Starting over any file that earlier runs left, crashed, killed or still
   * going, starts at a world that a run of fair judgements reaches: every
   * theorem about such runs holds of what follows.
   */
  lemma FoundIsReached(file: Option<Content>, now: int, goesOn: bool) returns (actions: seq<Action>)
    requires LeftBefore(file, now) && (goesOn ==> MayGoOn(file, now))
    ensures LeadTo(actions, Found(file, now, goesOn))
  {
    var r := ParsedIn(file);
    var was := if r.Some? then Found(file, r.value.startedAt, goesOn) else START.(file := file);
    if file.None? {
      actions := [];
    } else if r.None? {
      actions := Then([], START, Litter);
    } else if r.value.pid.None? {
      actions := ClaimedAt(r.value.startedAt);
      if !goesOn {
        actions := Then(actions, Found(file, r.value.startedAt, true), Crash(0));
      }
    } else {
      actions := ServedAt(r.value.startedAt, r.value.pid.value);
      if !goesOn {
        actions := Then(actions, Found(file, r.value.startedAt, true), ChildDies(r.value.pid.value));
      }
    }
    actions := Then(actions, was, Tick(now));
  }

  // ---------------------------------------------------------------------
  // A run that nobody interrupts
  // ---------------------------------------------------------------------

  /** The file holds a record to wait on: its pid is alive, or it has none and is younger than two minutes. */
  predicate MustWait(file: Option<Content>, alive: set<nat>, now: int) {
    match file
    case None => false
    case Some(Unparseable) => false
    case Some(Parsed(r)) => if r.pid.Some? then r.pid.value in alive else now - r.startedAt < 120_000
  }

  lemma WinsFreeSlot(w: World, p: nat)
    requires p < |w.procs| && w.procs[p].Claiming? && w.file == None && w.lastClaim < w.now
    ensures Enabled(w, Create(p))
    ensures var w1 := Apply(w, Create(p));
      w1.procs == w.procs[p := Holding(w.now)] && w1.file == Some(Parsed(RunRecord(w.now, None))) && w1.lastClaim == w.now
  {
  }

  /** A collision read and judged at once: over if it must wait, and else the old content goes. */
  lemma CollidesAndJudges(w: World, p: nat) returns (w3: World)
    requires p < |w.procs| && w.procs[p] == Claiming(1) && w.file.Some?
    ensures Enabled(w, Create(p)) && Enabled(Apply(w, Create(p)), Read(p))
    ensures Enabled(Apply(Apply(w, Create(p)), Read(p)), Judge(p))
    ensures w3 == Apply(Apply(Apply(w, Create(p)), Read(p)), Judge(p))
    ensures MustWait(w.file, w.alive, w.now) ==> w3 == w.(procs := w.procs[p := Over])
    ensures !MustWait(w.file, w.alive, w.now) ==> Enabled(w3, Remove(p)) && Apply(w3, Remove(p)) == w.(file := None, procs := w.procs[p := Claiming(2)])
  {
    var w1 := Apply(w, Create(p));
    assert w1 == Put(w, p, Collided(1));
    var w2 := Apply(w1, Read(p));
    assert w2 == Put(w, p, Judging(1, ParsedIn(w.file), w.now));
    w3 := Apply(w2, Judge(p));
    if MustWait(w.file, w.alive, w.now) {
      assert w3 == Put(w, p, Over);
    } else {
      assert w3 == Put(w, p, Removing(1, ParsedIn(w.file)));
    }
  }

  /**
   * An `up` whose steps nobody interrupts: it takes a free slot; over a record
   * it must wait on it ends and leaves the file alone; over anything else it
   * removes it and takes the slot.
   */
  lemma UninterruptedRun(w: World, p: nat) returns (w2: World)
    requires p < |w.procs| && w.procs[p] == Claiming(1) && w.lastClaim < w.now
    ensures MustWait(w.file, w.alive, w.now) ==> w2 == w.(procs := w.procs[p := Over])
    ensures !MustWait(w.file, w.alive, w.now) ==>
      w2 == w.(file := Some(Parsed(RunRecord(w.now, None))), lastClaim := w.now, procs := w.procs[p := Holding(w.now)])
    ensures w2 == if w.file == None then Apply(w, Create(p)) else
      var w3 := Apply(Apply(Apply(w, Create(p)), Read(p)), Judge(p));
      if w3.procs[p].Removing? then Apply(Apply(w3, Remove(p)), Create(p)) else w3
  {
    if w.file == None {
      WinsFreeSlot(w, p);
      w2 := Apply(w, Create(p));
      return;
    }
    w2 := CollidesAndJudges(w, p);
    if !MustWait(w.file, w.alive, w.now) {
      WinsFreeSlot(Apply(w2, Remove(p)), p);
      w2 := Apply(Apply(w2, Remove(p)), Create(p));
    }
  }

  /** A run that withdraws leaves no record with its claim behind. */
  lemma WithdrawnLeavesNoRecord(w: World, p: nat)
    requires Enabled(w, Withdraw(p))
    ensures match Apply(w, Withdraw(p)).file
      case Some(Parsed(r)) => r.startedAt != w.procs[p].startedAt
      case _ => true
  {
  }

  // ---------------------------------------------------------------------
  // One reclaim at most
  // ---------------------------------------------------------------------

  function Creates(actions: seq<Action>, p: nat): nat {
    if actions == [] then 0
    else Creates(actions[..|actions| - 1], p) + if actions[|actions| - 1] == Create(p) then 1 else 0
  }

  /** How many creates a process in this state has tried at most. */
  function Tried(s: Proc): nat {
    match s
    case Claiming(attempt) => if attempt > 0 then attempt - 1 else 0
    case Collided(attempt) => attempt
    case Judging(attempt, _, _) => attempt
    case Removing(attempt, _) => attempt
    case _ => 2
  }

  predicate OnAttempt(s: Proc) { (s.Claiming? || s.Collided? || s.Judging? || s.Removing?) ==> 1 <= s.attempt <= 2 }

  /** A step counts the create it makes, and no other. */
  lemma TriedStep(w: World, a: Action, p: nat)
    requires Enabled(w, a) && (p < |w.procs| ==> OnAttempt(w.procs[p]))
    ensures |w.procs| <= |Apply(w, a).procs|
    ensures p < |Apply(w, a).procs| ==> OnAttempt(Apply(w, a).procs[p]) && Tried(Apply(w, a).procs[p]) <= 2
    ensures p < |w.procs| ==> Tried(w.procs[p]) + (if a == Create(p) then 1 else 0) <= Tried(Apply(w, a).procs[p])
    ensures a == Create(p) ==> p < |w.procs|
  {
  }

  /** In every run each process tries the exclusive create at most twice. */
  lemma {:induction false} AtMostTwoCreates(actions: seq<Action>, p: nat)
    requires Possible(actions)
    ensures p < |After(actions).procs| ==> OnAttempt(After(actions).procs[p]) && Creates(actions, p) <= Tried(After(actions).procs[p]) <= 2
    ensures p >= |After(actions).procs| ==> Creates(actions, p) == 0
  {
    if actions != [] {
      AtMostTwoCreates(actions[..|actions| - 1], p);
      TriedStep(After(actions[..|actions| - 1]), actions[|actions| - 1], p);
    }
  }
}
