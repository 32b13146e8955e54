/**
 * The record file and the processes over it as the objects they are. Each
 * method of `UpRuns` is the code up to the next file or process operation, and
 * is held to one step of `RunSlot`; `ClaimAlone` is the whole claim loop when
 * nothing interleaves.
 */
module RunRecordFile {
  import opened Wrappers
  import opened RunSlot

  class RecordFile {
    var content: Option<Content>

    constructor ()
      ensures content == None
    {
      content := None;
    }

    /** A record, or nothing for an absent or unparseable file. */
    method ReadRunRecord() returns (record: Option<RunRecord>)
      ensures record == ParsedIn(content)
    {
      if content.Some? && content.value.Parsed? {
        return Some(content.value.record);
      }
      return None;
    }

    /** The `wx` create. */
    method CreateExclusive(record: RunRecord) returns (created: bool)
      modifies this
      ensures created <==> old(content).None?
      ensures content == if created then Some(Parsed(record)) else old(content)
    {
      created := content.None?;
      if created {
        content := Some(Parsed(record));
      }
    }

    /** The rename: whatever was there is replaced. */
    method WriteRunRecord(record: RunRecord)
      modifies this
      ensures content == Some(Parsed(record))
    {
      content := Some(Parsed(record));
    }

    /** Remove the record only if it still carries this claim time. */
    method RemoveRunRecordIfUnchanged(startedAt: int) returns (removed: bool)
      modifies this
      ensures content == WithoutClaim(old(content), startedAt)
      ensures removed <==> content != old(content)
    {
      var current := ReadRunRecord();
      if current.None? || current.value.startedAt != startedAt {
        return false;
      }
      content := None;
      return true;
    }

    /** Remove the file only if it is still unparseable. */
    method RemoveUnparseableRunRecord() returns (removed: bool)
      modifies this
      ensures content == WithoutUnparseable(old(content))
      ensures removed <==> content != old(content)
    {
      if content.None? {
        return false;
      }
      if content.value.Parsed? {
        return false;
      }
      content := None;
      return true;
    }
  }

  /** A record that another run must wait on: a live pid, or a young claim without one. */
  predicate Blocks(file: Option<Content>, alive: set<nat>, now: int) {
    ParsedIn(file).Some? && !ReadsStale(alive, now, ParsedIn(file).value)
  }

  /**
   * The claim loop of an `up` that runs alone. It gets the slot exactly when no
   * record blocks it, whatever else was in the file, within its two attempts.
   */
  method ClaimAlone(file: RecordFile, alive: set<nat>, clock: nat -> int) returns (claim: Option<int>)
    modifies file
    ensures claim.Some? <==> !Blocks(old(file.content), alive, clock(1))
    ensures claim.Some? ==> file.content == Some(Parsed(RunRecord(claim.value, None)))
    ensures claim.None? ==> file.content == old(file.content)
  {
    claim := None;
    var attempt := 1;
    while attempt <= 2
      invariant 1 <= attempt <= 2
      invariant attempt == 1 ==> file.content == old(file.content)
      invariant attempt == 2 ==> file.content == None && !Blocks(old(file.content), alive, clock(1))
      decreases 2 - attempt
    {
      var startedAt := clock(2 * (attempt - 1));
      var won := file.CreateExclusive(RunRecord(startedAt, None));
      if won {
        return Some(startedAt);
      }
      var seen := file.ReadRunRecord();
      if seen.None? {
        var _ := file.RemoveUnparseableRunRecord();
      } else {
        if seen.value.pid.Some? && seen.value.pid.value in alive {
          return None;
        }
        if seen.value.pid.None? && clock(1) - seen.value.startedAt < STALE_RECORD_MS {
          return None;
        }
        var _ := file.RemoveRunRecordIfUnchanged(seen.value.startedAt);
      }
      if attempt == 2 {
        return None;
      }
      attempt := attempt + 1;
    }
  }

  // ---------------------------------------------------------------------
  // `down`'s rule
  // ---------------------------------------------------------------------

  datatype OwnershipProof = Ours | NoRecord | ClaimPending | Stale | PidAlivePortSilent | Foreign

  /** `proveOwnership`, given what a health probe of the recorded port says. */
  function ProveOwnership(file: Option<Content>, alive: set<nat>, now: int, answers: bool): OwnershipProof {
    if file.None? then NoRecord
    else if file.value.Unparseable? then Stale
    else
      var r := file.value.record;
      if r.pid.None? then (if now - r.startedAt < STALE_RECORD_MS then ClaimPending else Stale)
      else if r.pid.value in alive then (if answers then Ours else PidAlivePortSilent)
      else if answers then Foreign
      else Stale
  }

  /** Each answer of `down`, by what the record says, whether its pid lives, its age, and whether the port answers. */
  lemma OwnershipByColumns(file: Option<Content>, alive: set<nat>, now: int, answers: bool)
    ensures var proof := ProveOwnership(file, alive, now, answers);
      && (proof == NoRecord <==> file == None)
      && (file == Some(Unparseable) ==> proof == Stale)
      && (forall r :: file == Some(Parsed(r)) ==>
            && (proof == Ours <==> r.pid.Some? && r.pid.value in alive && answers)
            && (proof == PidAlivePortSilent <==> r.pid.Some? && r.pid.value in alive && !answers)
            && (proof == Foreign <==> r.pid.Some? && r.pid.value !in alive && answers)
            && (proof == ClaimPending <==> r.pid == None && now - r.startedAt < 120_000)
            && (proof == Stale <==> (r.pid.Some? && r.pid.value !in alive && !answers) || (r.pid == None && now - r.startedAt >= 120_000)))
  {
  }

  /**
   * The two staleness rules cannot disagree: whatever `down` would call stale,
   * an `up` reclaims, and a record that `up` waits on is never called stale or
   * foreign.
   */
  lemma StaleRulesAgree(file: Option<Content>, alive: set<nat>, now: int, answers: bool)
    ensures var proof := ProveOwnership(file, alive, now, answers);
      && (Blocks(file, alive, now) <==> proof.Ours? || proof.PidAlivePortSilent? || proof.ClaimPending?)
      && (proof.Stale? || proof.Foreign? <==> file.Some? && !Blocks(file, alive, now))
  {
  }

  // ---------------------------------------------------------------------
  // Interleaved processes
  // ---------------------------------------------------------------------

  class UpRuns {
    const file: RecordFile
    var now: int
    var lastClaim: int
    var procs: seq<Proc>
    var alive: set<nat>
    var used: set<nat>

    ghost function Snapshot(): World
      reads this, file
    {
      World(now, lastClaim, file.content, procs, alive, used)
    }

    ghost predicate Valid()
      reads this, file
    {
      Inv(Snapshot())
    }

    /** Over the file as it is found: absent, unparseable, or a record whose run is dead or still going. */
    constructor (file: RecordFile, now: int, goesOn: bool)
      requires LeftBefore(file.content, now) && (goesOn ==> MayGoOn(file.content, now))
      ensures this.file == file && Valid() && Snapshot() == Found(file.content, now, goesOn)
      ensures exists actions :: LeadTo(actions, Snapshot())
    {
      this.file, this.now := file, now;
      var r := ParsedIn(file.content);
      if r.None? {
        lastClaim, procs, alive, used := 0, [], {}, {};
      } else if r.value.pid.None? {
        lastClaim, procs, alive, used := r.value.startedAt, [if goesOn then Holding(r.value.startedAt) else Over], {}, {};
      } else {
        var pid := r.value.pid.value;
        lastClaim, procs := r.value.startedAt, [Serving(r.value.startedAt, pid)];
        alive, used := if goesOn then {pid} else {}, {pid};
      }
      ghost var actions := FoundIsReached(file.content, now, goesOn);
      RunKeepsInv(actions);
    }

    /** The exclusive create of `claimRunSlot`. */
    method TryCreate(p: nat)
      requires Valid() && Enabled(Snapshot(), Create(p))
      modifies this, file
      ensures Valid() && Snapshot() == Apply(old(Snapshot()), Create(p))
    {
      StepKeepsInv(Snapshot(), Create(p));
      var won := file.CreateExclusive(RunRecord(now, None));
      if won {
        procs, lastClaim := procs[p := Holding(now)], now;
      } else {
        procs := procs[p := Collided(procs[p].attempt)];
      }
    }

    /** A failed create reads the record it collided with. */
    method ReadCollided(p: nat)
      requires Valid() && Enabled(Snapshot(), Read(p))
      modifies this
      ensures Valid() && Snapshot() == Apply(old(Snapshot()), Read(p))
    {
      StepKeepsInv(Snapshot(), Read(p));
      var seen := file.ReadRunRecord();
      procs := procs[p := Judging(procs[p].attempt, seen, now)];
    }

    /** `loseClaim`, up to the removal or the wait. */
    method LoseClaim(p: nat)
      requires Valid() && Enabled(Snapshot(), Judge(p))
      modifies this
      ensures Snapshot() == Apply(old(Snapshot()), Judge(p))
      ensures Fair(old(Snapshot()), Judge(p)) ==> Valid()
    {
      if Fair(Snapshot(), Judge(p)) {
        StepKeepsInv(Snapshot(), Judge(p));
      }
      var attempt, seen := procs[p].attempt, procs[p].seen;
      if seen.None? {
        procs := procs[p := Removing(attempt, None)];
      } else if seen.value.pid.Some? && seen.value.pid.value in alive {
        procs := procs[p := Over];
      } else if seen.value.pid.None? && now - seen.value.startedAt < STALE_RECORD_MS {
        procs := procs[p := Over];
      } else {
        procs := procs[p := Removing(attempt, seen)];
      }
    }

    /** The removal before a reclaim, and the end of a second attempt. */
    method RemoveStale(p: nat)
      requires Valid() && Enabled(Snapshot(), Remove(p))
      modifies this, file
      ensures Valid() && Snapshot() == Apply(old(Snapshot()), Remove(p))
    {
      StepKeepsInv(Snapshot(), Remove(p));
      var attempt, stale := procs[p].attempt, procs[p].stale;
      if stale.None? {
        var _ := file.RemoveUnparseableRunRecord();
      } else {
        var _ := file.RemoveRunRecordIfUnchanged(stale.value.startedAt);
      }
      procs := procs[p := if attempt == 1 then Claiming(2) else Over];
    }

    /** The winner's child is started. */
    method SpawnChild(p: nat, pid: nat)
      requires Valid() && Enabled(Snapshot(), Spawn(p, pid))
      modifies this
      ensures Valid() && Snapshot() == Apply(old(Snapshot()), Spawn(p, pid))
    {
      StepKeepsInv(Snapshot(), Spawn(p, pid));
      procs := procs[p := Spawned(procs[p].startedAt, pid)];
      alive, used := alive + {pid}, used + {pid};
    }

    /** The winner rewrites the record with its child's pid. */
    method RecordChild(p: nat)
      requires Valid() && Enabled(Snapshot(), RecordPid(p))
      modifies this, file
      ensures Valid() && Snapshot() == Apply(old(Snapshot()), RecordPid(p))
    {
      StepKeepsInv(Snapshot(), RecordPid(p));
      var s := procs[p];
      file.WriteRunRecord(RunRecord(s.startedAt, Some(s.pid)));
      procs := procs[p := Serving(s.startedAt, s.pid)];
    }

    /** A refused, failed or exited run takes its own record away. */
    method RemoveOwn(p: nat)
      requires Valid() && Enabled(Snapshot(), Withdraw(p))
      modifies this, file
      ensures Valid() && Snapshot() == Apply(old(Snapshot()), Withdraw(p))
    {
      StepKeepsInv(Snapshot(), Withdraw(p));
      var _ := file.RemoveRunRecordIfUnchanged(procs[p].startedAt);
      procs := procs[p := Over];
    }
  }
}
