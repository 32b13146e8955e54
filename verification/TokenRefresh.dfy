/**
 * Single-flight token refresh over a compare-and-swap row
 * (packages/credentials/src/token-refresh.ts and credential-store.ts).
 *
 * One isolate runs every call, so what happens between two awaits is one
 * step; between steps anything may happen, a reconnect or a disconnect
 * included. `decrypt` is the load path's parse and decryption, up to its guard
 * against an empty access token, and every encryption yields a ciphertext not
 * seen before.
 */
module TokenRefresh {
  import opened Sequences
  import opened Wrappers

  datatype StoredCredential = StoredCredential(
    accessToken: string, refreshToken: string, expiryUnix: real, scopes: seq<string>)

  /** What a provider's refresh function came back with. */
  datatype Minted = Threw | Malformed | Shaped(credential: StoredCredential)

  datatype RefreshError = CredentialNotFound | Undecryptable | ProviderFailed | InvalidCredential | EncryptionFailed

  type Outcome = Result<StoredCredential, RefreshError>

  type Decrypt = string -> Option<StoredCredential>

  /** Where a refresh stands; each phase but the last ends at one await. */
  datatype Phase =
    | Minting
    | Sealing(updated: StoredCredential)
    | Stored(stored: StoredCredential, landedAt: Option<nat>)
    | Settled(result: Outcome, settledLanding: Option<nat>)
    | Cleared(final: Outcome, finalLanding: Option<nat>)

  /** One `doRefresh`, with the row it was read from and when. */
  datatype Flight = Flight(
    user: string, service: string, baseline: string, readAt: nat, oldCredential: StoredCredential, phase: Phase)
  {
    function Key(): string { RefreshKey(user, service) }
  }

  /** One `getValidCredential`. */
  datatype CallState =
    | Loading(baseline: Option<string>, readAt: nat)
    | Waiting(flight: nat)
    | Done(outcome: Outcome, via: Option<nat>)

  datatype Call = Call(user: string, service: string, state: CallState)
  {
    function Key(): string { RefreshKey(user, service) }
  }

  /** Who wrote a row: a connection, or the refresh with this number. */
  datatype Author = Connection | Refresh(flight: nat)

  /** What happened to the rows, in order. */
  datatype Event = Wrote(service: string, ciphertext: string, author: Author) | Dropped(service: string)

  datatype World = World(
    rows: map<string, string>, inflight: map<string, nat>, flights: seq<Flight>, calls: seq<Call>, log: seq<Event>)

  const START := World(map[], map[], [], [], [])

  function RefreshKey(user: string, service: string): string { user + ":" + service }

  function Row(rows: map<string, string>, service: string): Option<string> {
    if service in rows then Some(rows[service]) else None
  }

  /** `assertStoredCredential` on what the provider returned. */
  predicate Usable(m: Minted) { m.Shaped? && m.credential.accessToken != "" }

  predicate Fresh(log: seq<Event>, ciphertext: string) {
    forall i :: 0 <= i < |log| && log[i].Wrote? ==> log[i].ciphertext != ciphertext
  }

  predicate InFlight(f: Flight) { !f.phase.Cleared? }

  function Landing(p: Phase): Option<nat> {
    match p
    case Minting => None
    case Sealing(_) => None
    case Stored(_, at) => at
    case Settled(_, at) => at
    case Cleared(_, at) => at
  }

  // ---------------------------------------------------------------------
  // Steps
  // ---------------------------------------------------------------------

  datatype Action =
    | Begin(user: string, service: string)
    | Load(call: nat, now: int)
    | Mint(flight: nat, minted: Minted)
    | Seal(flight: nat, ciphertext: string)
    | SealFails(flight: nat)
    | Settle(flight: nat)
    | Clear(flight: nat)
    | Resume(call: nat)
    | Reconnect(service: string, ciphertext: string)
    | Disconnect(service: string)

  predicate FlightIn(w: World, f: nat) { f < |w.flights| }

  /** Whether the world can take this step next. */
  predicate Enabled(decrypt: Decrypt, w: World, a: Action) {
    match a
    case Begin(_, _) => true
    case Load(c, _) => c < |w.calls| && w.calls[c].state.Loading?
    case Mint(f, _) => FlightIn(w, f) && w.flights[f].phase.Minting?
    case Seal(f, ct) =>
      FlightIn(w, f) && w.flights[f].phase.Sealing? && Fresh(w.log, ct) && decrypt(ct) == Some(w.flights[f].phase.updated)
    case SealFails(f) => FlightIn(w, f) && w.flights[f].phase.Sealing?
    case Settle(f) => FlightIn(w, f) && w.flights[f].phase.Stored?
    case Clear(f) => FlightIn(w, f) && w.flights[f].phase.Settled?
    case Resume(c) =>
      c < |w.calls| && w.calls[c].state.Waiting?
      && FlightIn(w, w.calls[c].state.flight) && w.flights[w.calls[c].state.flight].phase.Cleared?
    case Reconnect(_, ct) => Fresh(w.log, ct)
    case Disconnect(_) => true
  }

  function WithPhase(w: World, f: nat, p: Phase): World
    requires FlightIn(w, f)
  {
    w.(flights := w.flights[f := w.flights[f].(phase := p)])
  }

  function WithCall(w: World, c: nat, s: CallState): World
    requires c < |w.calls|
  {
    w.(calls := w.calls[c := w.calls[c].(state := s)])
  }

  /** What a load makes of a ciphertext: a credential with an empty access token is refused. */
  function Opened(decrypt: Decrypt, ciphertext: string): Option<StoredCredential> {
    match decrypt(ciphertext)
    case None => None
    case Some(credential) => if credential.accessToken == "" then None else Some(credential)
  }

  /** The call's own load has come back. */
  function Loaded(decrypt: Decrypt, w: World, c: nat, now: int): World
    requires c < |w.calls| && w.calls[c].state.Loading?
  {
    var call := w.calls[c];
    match call.state.baseline
    case None => WithCall(w, c, Done(Err(CredentialNotFound), None))
    case Some(raw) =>
      match Opened(decrypt, raw)
      case None => WithCall(w, c, Done(Err(Undecryptable), None))
      case Some(credential) =>
        var key := call.Key();
        if credential.expiryUnix > (now + 60) as real then WithCall(w, c, Done(Ok(credential), None))
        else if key in w.inflight then WithCall(w, c, Waiting(w.inflight[key]))
        else
          WithCall(w, c, Waiting(|w.flights|)).(
            flights := w.flights + [Flight(call.user, call.service, raw, call.state.readAt, credential, Minting)],
            inflight := w.inflight[key := |w.flights|])
  }

  /** The write-back: it lands only on the ciphertext the refresh was read from. */
  function Sealed(w: World, f: nat, ct: string): World
    requires FlightIn(w, f) && w.flights[f].phase.Sealing?
  {
    var fl := w.flights[f];
    if Row(w.rows, fl.service) == Some(fl.baseline) then
      WithPhase(w, f, Stored(fl.phase.updated, Some(|w.log|))).(
        rows := w.rows[fl.service := ct], log := w.log + [Wrote(fl.service, ct, Refresh(f))])
    else WithPhase(w, f, Stored(fl.phase.updated, None))
  }

  function Apply(decrypt: Decrypt, w: World, a: Action): World
    requires Enabled(decrypt, w, a)
  {
    match a
    case Begin(user, service) =>
      w.(calls := w.calls + [Call(user, service, Loading(Row(w.rows, service), |w.log|))])
    case Load(c, now) => Loaded(decrypt, w, c, now)
    case Mint(f, minted) =>
      WithPhase(w, f,
        if minted.Threw? then Settled(Err(ProviderFailed), None)
        else if !Usable(minted) then Settled(Err(InvalidCredential), None)
        else Sealing(minted.credential))
    case Seal(f, ct) => Sealed(w, f, ct)
    case SealFails(f) => WithPhase(w, f, Settled(Err(EncryptionFailed), None))
    case Settle(f) =>
      var p := w.flights[f].phase;
      WithPhase(w, f, Settled(if p.landedAt.Some? then Ok(p.stored) else Err(CredentialNotFound), p.landedAt))
    case Clear(f) =>
      var p := w.flights[f].phase;
      WithPhase(w, f, Cleared(p.result, p.settledLanding)).(inflight := w.inflight - {w.flights[f].Key()})
    case Resume(c) =>
      WithCall(w, c, Done(w.flights[w.calls[c].state.flight].phase.final, Some(w.calls[c].state.flight)))
    case Reconnect(service, ct) =>
      w.(rows := w.rows[service := ct], log := w.log + [Wrote(service, ct, Connection)])
    case Disconnect(service) =>
      w.(rows := w.rows - {service}, log := w.log + [Dropped(service)])
  }

  /** The actions can be taken one after another from the empty world. */
  predicate Possible(decrypt: Decrypt, actions: seq<Action>)
    decreases |actions|, 0
  {
    actions != [] ==>
      var init := actions[..|actions| - 1];
      Possible(decrypt, init) && Enabled(decrypt, After(decrypt, init), actions[|actions| - 1])
  }

  function After(decrypt: Decrypt, actions: seq<Action>): World
    requires Possible(decrypt, actions)
    decreases |actions|, 1
  {
    if actions == [] then START
    else Apply(decrypt, After(decrypt, actions[..|actions| - 1]), actions[|actions| - 1])
  }

  // ---------------------------------------------------------------------
  // The rows, read off the log
  // ---------------------------------------------------------------------

  function RowAfter(log: seq<Event>, service: string): Option<string> {
    if log == [] then None
    else
      var last := log[|log| - 1];
      if last.service != service then RowAfter(log[..|log| - 1], service)
      else if last.Wrote? then Some(last.ciphertext) else None
  }

  lemma RowAfterSnoc(log: seq<Event>, e: Event, service: string)
    ensures RowAfter(log + [e], service)
         == if e.service != service then RowAfter(log, service) else if e.Wrote? then Some(e.ciphertext) else None
  {
    assert (log + [e])[..|log|] == log;
  }

  /** No two writes share a ciphertext. */
  predicate DistinctWrites(log: seq<Event>) {
    forall i, j :: 0 <= i < j < |log| && log[i].Wrote? && log[j].Wrote? ==> log[i].ciphertext != log[j].ciphertext
  }

  /** Nothing happened to the service's row from entry n up to entry m. */
  predicate Untouched(log: seq<Event>, n: nat, m: nat, service: string)
    requires n <= m <= |log|
  {
    forall i :: n <= i < m ==> log[i].service != service
  }

  /** The j-th entry wrote this ciphertext, and nothing has touched the row since. */
  predicate WroteLast(log: seq<Event>, j: nat, service: string, ciphertext: string)
    requires j < |log|
  {
    log[j].Wrote? && log[j].service == service && log[j].ciphertext == ciphertext && Untouched(log, j + 1, |log|, service)
  }

  /** A row's ciphertext was written by some entry of the log. */
  lemma {:induction false} RowWasWritten(log: seq<Event>, service: string)
    requires RowAfter(log, service).Some?
    ensures exists j :: 0 <= j < |log| && WroteLast(log, j, service, RowAfter(log, service).value)
  {
    var n := |log| - 1;
    if log[n].service == service {
      assert WroteLast(log, n, service, RowAfter(log, service).value);
    } else {
      RowWasWritten(log[..n], service);
      var j :| 0 <= j < n && WroteLast(log[..n], j, service, RowAfter(log[..n], service).value);
      assert forall i :: j <= i < n ==> log[i] == log[..n][i];
      assert WroteLast(log, j, service, RowAfter(log, service).value);
    }
  }

  /** Comparing ciphertexts detects every change: the row is as it was read exactly when nothing touched it. */
  lemma {:induction false} RowUnchangedIff(log: seq<Event>, n: nat, service: string, baseline: string)
    requires DistinctWrites(log) && n <= |log| && RowAfter(log[..n], service) == Some(baseline)
    ensures RowAfter(log, service) == Some(baseline) <==> Untouched(log, n, |log|, service)
    decreases |log|
  {
    if n == |log| {
      assert log[..n] == log;
    } else {
      var m := |log| - 1;
      var init := log[..m];
      assert init[..n] == log[..n];
      if log[m].service == service {
        RowWasWritten(log[..n], service);
        var j :| 0 <= j < n && WroteLast(log[..n], j, service, baseline);
        assert log[j] == log[..n][j];
      } else {
        RowUnchangedIff(init, n, service, baseline);
        assert forall i :: n <= i < m ==> init[i] == log[i];
        assert Untouched(init, n, m, service) <==> Untouched(log, n, |log|, service);
      }
    }
  }

  // ---------------------------------------------------------------------
  // A store that was used before
  // ---------------------------------------------------------------------

  /** The rows that a history leaves. */
  function RowsOf(log: seq<Event>): map<string, string> {
    if log == [] then map[]
    else
      var rows, last := RowsOf(log[..|log| - 1]), log[|log| - 1];
      if last.Wrote? then rows[last.service := last.ciphertext] else rows - {last.service}
  }

  lemma HistoryGrows(log: seq<Event>, e: Event)
    ensures RowsOf(log + [e]) == if e.Wrote? then RowsOf(log)[e.service := e.ciphertext] else RowsOf(log) - {e.service}
    ensures DistinctWrites(log) && (e.Wrote? ==> Fresh(log, e.ciphertext)) ==> DistinctWrites(log + [e])
  {
    assert (log + [e])[..|log|] == log;
  }

  /** The events before entry n, to a refresher that started there: none of the writes is its own. */
  function Seen(log: seq<Event>, n: nat): (r: seq<Event>)
    requires n <= |log|
    ensures |r| == |log|
    ensures forall i :: 0 <= i < n ==>
      r[i] == if log[i].Wrote? then Wrote(log[i].service, log[i].ciphertext, Connection) else log[i]
    ensures forall i :: n <= i < |log| ==> r[i] == log[i]
  {
    seq(|log|, i requires 0 <= i < |log| =>
      if i < n && log[i].Wrote? then Wrote(log[i].service, log[i].ciphertext, Connection) else log[i])
  }

  lemma SeenGrows(log: seq<Event>, n: nat, e: Event)
    requires n <= |log|
    ensures Seen(log + [e], n) == Seen(log, n) + [e]
  {
  }

  /** A refresher just started over a store with this history. */
  function Resting(log: seq<Event>): World { World(RowsOf(log), map[], [], [], Seen(log, |log|)) }

  /** The connections and disconnects with that history. */
  function Replay(log: seq<Event>): (r: seq<Action>)
    ensures |r| == |log|
    ensures forall i :: 0 <= i < |log| ==>
      r[i] == if log[i].Wrote? then Reconnect(log[i].service, log[i].ciphertext) else Disconnect(log[i].service)
  {
    seq(|log|, i requires 0 <= i < |log| =>
      if log[i].Wrote? then Reconnect(log[i].service, log[i].ciphertext) else Disconnect(log[i].service))
  }

  lemma PartsOfHistory(log: seq<Event>)
    requires log != []
    ensures var init, last := log[..|log| - 1], log[|log| - 1];
      && Replay(log)[..|log| - 1] == Replay(init)
      && Seen(log, |log|) == Seen(init, |init|) + [if last.Wrote? then Wrote(last.service, last.ciphertext, Connection) else last]
  {
  }

  /**
   * Starting over a store with any history, an earlier refresher's writes
   * included, starts at a world the protocol can reach: every theorem about
   * runs holds of what follows.
   */
  lemma {:induction false} RestingIsReached(decrypt: Decrypt, log: seq<Event>)
    requires DistinctWrites(log)
    ensures Possible(decrypt, Replay(log)) && After(decrypt, Replay(log)) == Resting(log)
  {
    if log != [] {
      var init, last := log[..|log| - 1], log[|log| - 1];
      RestingIsReached(decrypt, init);
      PartsOfHistory(log);
      assert last.Wrote? ==> Fresh(Seen(init, |init|), last.ciphertext);
      assert Enabled(decrypt, Resting(init), Replay(log)[|log| - 1]);
    }
  }

  // ---------------------------------------------------------------------
  // The invariant
  // ---------------------------------------------------------------------

  ghost predicate RowsAreReplayed(w: World) { forall s :: Row(w.rows, s) == RowAfter(w.log, s) }

  /** A row was read as `baseline` when the log had `n` entries. */
  predicate ReadAs(log: seq<Event>, n: nat, service: string, baseline: Option<string>) {
    n <= |log| && RowAfter(log[..n], service) == baseline
  }

  /** The refresh's write is the n-th entry, over the row it read, with nothing in between. */
  predicate LandedAt(decrypt: Decrypt, log: seq<Event>, f: nat, fl: Flight, n: nat, value: StoredCredential) {
    && fl.readAt <= n < |log| && log[n].Wrote? && log[n].service == fl.service && log[n].author == Refresh(f)
    && decrypt(log[n].ciphertext) == Some(value)
    && Untouched(log, fl.readAt, n, fl.service)
  }

  predicate OutcomeOk(decrypt: Decrypt, log: seq<Event>, f: nat, fl: Flight, result: Outcome, at: Option<nat>) {
    && (result.Ok? <==> at.Some?)
    && (result.Ok? ==> LandedAt(decrypt, log, f, fl, at.value, result.value))
  }

  predicate HasToken(credential: StoredCredential) { credential.accessToken != "" }

  /** Past the guard a refresh holds no credential with an empty access token. */
  predicate Tokened(p: Phase) {
    match p
    case Minting => true
    case Sealing(v) => HasToken(v)
    case Stored(v, _) => HasToken(v)
    case Settled(r, _) => r.Ok? ==> HasToken(r.value)
    case Cleared(r, _) => r.Ok? ==> HasToken(r.value)
  }

  predicate FlightOk(decrypt: Decrypt, log: seq<Event>, f: nat, fl: Flight) {
    && ReadAs(log, fl.readAt, fl.service, Some(fl.baseline)) && Tokened(fl.phase)
    && match fl.phase {
      case Minting => true
      case Sealing(_) => true
      case Stored(v, at) => at.Some? ==> LandedAt(decrypt, log, f, fl, at.value, v)
      case Settled(r, at) => OutcomeOk(decrypt, log, f, fl, r, at)
      case Cleared(r, at) => OutcomeOk(decrypt, log, f, fl, r, at)
    }
  }

  predicate FlightsOk(decrypt: Decrypt, w: World) {
    forall f :: 0 <= f < |w.flights| ==> FlightOk(decrypt, w.log, f, w.flights[f])
  }

  /** The map holds exactly the refreshes in flight, each under its key. */
  predicate InflightOk(w: World) {
    && (forall k :: k in w.inflight ==> FlightIn(w, w.inflight[k]) && InFlight(w.flights[w.inflight[k]]) && w.flights[w.inflight[k]].Key() == k)
    && (forall f :: 0 <= f < |w.flights| && InFlight(w.flights[f]) ==> w.flights[f].Key() in w.inflight && w.inflight[w.flights[f].Key()] == f)
  }

  predicate CallOk(w: World, c: Call) {
    match c.state
    case Loading(baseline, at) => ReadAs(w.log, at, c.service, baseline)
    case Waiting(f) => FlightIn(w, f) && w.flights[f].Key() == c.Key()
    case Done(outcome, via) =>
      && (outcome.Ok? ==> HasToken(outcome.value))
      && (via.Some? ==>
            && FlightIn(w, via.value) && w.flights[via.value].Key() == c.Key()
            && w.flights[via.value].phase.Cleared? && w.flights[via.value].phase.final == outcome)
  }

  predicate CallsOk(w: World) { forall c :: 0 <= c < |w.calls| ==> CallOk(w, w.calls[c]) }

  /** Every refresh write in the log is the one its refresh remembers. */
  predicate WritesOk(w: World) {
    forall i :: 0 <= i < |w.log| && w.log[i].Wrote? && w.log[i].author.Refresh? ==>
      FlightIn(w, w.log[i].author.flight) && Landing(w.flights[w.log[i].author.flight].phase) == Some(i)
  }

  ghost predicate Inv(decrypt: Decrypt, w: World) {
    && RowsAreReplayed(w) && DistinctWrites(w.log)
    && FlightsOk(decrypt, w) && InflightOk(w) && CallsOk(w) && WritesOk(w)
  }

  // ---------------------------------------------------------------------
  // Every step keeps it
  // ---------------------------------------------------------------------

  lemma ReadAsGrows(log: seq<Event>, e: Event, n: nat, service: string, baseline: Option<string>)
    requires ReadAs(log, n, service, baseline)
    ensures ReadAs(log + [e], n, service, baseline)
  {
    assert (log + [e])[..n] == log[..n];
  }

  lemma FlightGrows(decrypt: Decrypt, log: seq<Event>, e: Event, f: nat, fl: Flight)
    requires FlightOk(decrypt, log, f, fl)
    ensures FlightOk(decrypt, log + [e], f, fl)
  {
    ReadAsGrows(log, e, fl.readAt, fl.service, Some(fl.baseline));
  }

  /** The log grows by one entry, and the rows with it. */
  lemma LogStep(decrypt: Decrypt, w: World, rows: map<string, string>, e: Event)
    requires FlightsOk(decrypt, w) && CallsOk(w) && RowsAreReplayed(w) && DistinctWrites(w.log)
    requires e.Wrote? ==> Fresh(w.log, e.ciphertext)
    requires rows == if e.Wrote? then w.rows[e.service := e.ciphertext] else w.rows - {e.service}
    ensures var w2 := w.(rows := rows, log := w.log + [e]);
      FlightsOk(decrypt, w2) && CallsOk(w2) && RowsAreReplayed(w2) && DistinctWrites(w2.log)
  {
    var w2 := w.(rows := rows, log := w.log + [e]);
    forall s ensures Row(w2.rows, s) == RowAfter(w2.log, s) {
      RowAfterSnoc(w.log, e, s);
    }
    forall f | 0 <= f < |w.flights| ensures FlightOk(decrypt, w2.log, f, w2.flights[f]) {
      FlightGrows(decrypt, w.log, e, f, w.flights[f]);
    }
    forall c | 0 <= c < |w.calls| ensures CallOk(w2, w2.calls[c]) {
      assert CallOk(w, w.calls[c]);
      if w.calls[c].state.Loading? {
        ReadAsGrows(w.log, e, w.calls[c].state.readAt, w.calls[c].service, w.calls[c].state.baseline);
      }
    }
  }

  /** A connection or a disconnect. */
  lemma ConnectionStep(decrypt: Decrypt, w: World, rows: map<string, string>, e: Event)
    requires Inv(decrypt, w) && (e.Wrote? ==> e.author.Connection? && Fresh(w.log, e.ciphertext))
    requires rows == if e.Wrote? then w.rows[e.service := e.ciphertext] else w.rows - {e.service}
    ensures Inv(decrypt, w.(rows := rows, log := w.log + [e]))
  {
    LogStep(decrypt, w, rows, e);
  }

  /** Calls stay sound as long as keys are kept and cleared refreshes do not change. */
  lemma CallsFollow(w: World, w2: World)
    requires CallsOk(w) && w2.calls == w.calls && w2.log == w.log && |w.flights| <= |w2.flights|
    requires forall f :: 0 <= f < |w.flights| ==>
      w2.flights[f].Key() == w.flights[f].Key() && (w.flights[f].phase.Cleared? ==> w2.flights[f].phase == w.flights[f].phase)
    ensures CallsOk(w2)
  {
    forall c | 0 <= c < |w.calls| ensures CallOk(w2, w2.calls[c]) {
      assert CallOk(w, w.calls[c]);
    }
  }

  /** A refresh in flight moves on without writing. */
  lemma PhaseStep(decrypt: Decrypt, w: World, f: nat, p: Phase)
    requires Inv(decrypt, w) && FlightIn(w, f)
    requires InFlight(w.flights[f]) && !p.Cleared? && Landing(p) == Landing(w.flights[f].phase)
    requires FlightOk(decrypt, w.log, f, w.flights[f].(phase := p))
    ensures Inv(decrypt, WithPhase(w, f, p))
  {
    CallsFollow(w, WithPhase(w, f, p));
  }

  /** The write-back lands exactly when nothing has touched the row since it was read. */
  lemma LandsIffUntouched(decrypt: Decrypt, w: World, f: nat, ct: string)
    requires Inv(decrypt, w) && Enabled(decrypt, w, Seal(f, ct))
    ensures w.flights[f].readAt <= |w.log|
    ensures var w2 := Apply(decrypt, w, Seal(f, ct));
      if Untouched(w.log, w.flights[f].readAt, |w.log|, w.flights[f].service) then
        && w2.log == w.log + [Wrote(w.flights[f].service, ct, Refresh(f))]
        && w2.rows == w.rows[w.flights[f].service := ct]
        && w2.flights[f].phase == Stored(w.flights[f].phase.updated, Some(|w.log|))
      else w2.log == w.log && w2.rows == w.rows && w2.flights[f].phase == Stored(w.flights[f].phase.updated, None)
  {
    var fl := w.flights[f];
    assert FlightOk(decrypt, w.log, f, fl);
    RowUnchangedIff(w.log, fl.readAt, fl.service, fl.baseline);
  }

  lemma WritesRemembered(w: World, w2: World, f: nat, e: Event)
    requires WritesOk(w) && FlightIn(w, f) && Landing(w.flights[f].phase) == None
    requires w2.log == w.log + [e] && e.Wrote? && e.author == Refresh(f)
    requires |w2.flights| == |w.flights| && Landing(w2.flights[f].phase) == Some(|w.log|)
    requires forall g :: 0 <= g < |w.flights| && g != f ==> w2.flights[g] == w.flights[g]
    ensures WritesOk(w2)
  {
    forall i | 0 <= i < |w2.log| && w2.log[i].Wrote? && w2.log[i].author.Refresh?
      ensures FlightIn(w2, w2.log[i].author.flight) && Landing(w2.flights[w2.log[i].author.flight].phase) == Some(i)
    {
      if i < |w.log| {
        assert w2.log[i] == w.log[i];
      }
    }
  }

  /** The log has the write that the flight is about to remember. */
  lemma RememberWrite(decrypt: Decrypt, w: World, f: nat, ct: string, rows: map<string, string>)
    requires Inv(decrypt, w) && Enabled(decrypt, w, Seal(f, ct))
    requires Untouched(w.log, w.flights[f].readAt, |w.log|, w.flights[f].service)
    requires rows == w.rows[w.flights[f].service := ct]
    ensures var e, p := Wrote(w.flights[f].service, ct, Refresh(f)), Stored(w.flights[f].phase.updated, Some(|w.log|));
      Inv(decrypt, WithPhase(w.(rows := rows, log := w.log + [e]), f, p))
  {
    var fl := w.flights[f];
    var e, p := Wrote(fl.service, ct, Refresh(f)), Stored(fl.phase.updated, Some(|w.log|));
    var w1 := w.(rows := rows, log := w.log + [e]);
    LogStep(decrypt, w, rows, e);
    var w2 := WithPhase(w1, f, p);
    CallsFollow(w1, w2);
    WritesRemembered(w, w2, f, e);
    assert FlightOk(decrypt, w1.log, f, w1.flights[f]);
    assert LandedAt(decrypt, w2.log, f, w2.flights[f], |w.log|, fl.phase.updated);
    forall g | 0 <= g < |w2.flights| ensures FlightOk(decrypt, w2.log, g, w2.flights[g]) {
      assert FlightOk(decrypt, w1.log, g, w1.flights[g]);
    }
  }

  lemma SealStep(decrypt: Decrypt, w: World, f: nat, ct: string)
    requires Inv(decrypt, w) && Enabled(decrypt, w, Seal(f, ct))
    ensures Inv(decrypt, Apply(decrypt, w, Seal(f, ct)))
  {
    var fl := w.flights[f];
    assert FlightOk(decrypt, w.log, f, fl);
    RowUnchangedIff(w.log, fl.readAt, fl.service, fl.baseline);
    if Row(w.rows, fl.service) == Some(fl.baseline) {
      RememberWrite(decrypt, w, f, ct, w.rows[fl.service := ct]);
    } else {
      PhaseStep(decrypt, w, f, Stored(fl.phase.updated, None));
    }
  }

  /** The refresh that clears leaves the map, and no other does. */
  lemma ClearKeepsInflight(decrypt: Decrypt, w: World, f: nat)
    requires InflightOk(w) && Enabled(decrypt, w, Clear(f))
    ensures InflightOk(Apply(decrypt, w, Clear(f)))
  {
    assert w.inflight[w.flights[f].Key()] == f;
  }

  lemma ClearKeepsFlights(decrypt: Decrypt, w: World, f: nat)
    requires FlightsOk(decrypt, w) && Enabled(decrypt, w, Clear(f))
    ensures FlightsOk(decrypt, Apply(decrypt, w, Clear(f)))
  {
    assert FlightOk(decrypt, w.log, f, w.flights[f]);
  }

  lemma ClearStep(decrypt: Decrypt, w: World, f: nat)
    requires Inv(decrypt, w) && Enabled(decrypt, w, Clear(f))
    ensures Inv(decrypt, Apply(decrypt, w, Clear(f)))
  {
    CallsFollow(w, Apply(decrypt, w, Clear(f)));
    ClearKeepsInflight(decrypt, w, f);
    ClearKeepsFlights(decrypt, w, f);
  }

  lemma CallStep(decrypt: Decrypt, w: World, c: nat, s: CallState)
    requires Inv(decrypt, w) && c < |w.calls| && CallOk(w, w.calls[c].(state := s))
    ensures Inv(decrypt, WithCall(w, c, s))
  {
    var w2 := WithCall(w, c, s);
    forall d | 0 <= d < |w2.calls| ensures CallOk(w2, w2.calls[d]) {
      assert CallOk(w, w.calls[d]);
    }
  }

  /** A refresh starts under a key that had none. */
  lemma LaunchStep(decrypt: Decrypt, w: World, fl: Flight)
    requires Inv(decrypt, w) && fl.Key() !in w.inflight && fl.phase.Minting?
    requires ReadAs(w.log, fl.readAt, fl.service, Some(fl.baseline))
    ensures Inv(decrypt, w.(flights := w.flights + [fl], inflight := w.inflight[fl.Key() := |w.flights|]))
  {
    CallsFollow(w, w.(flights := w.flights + [fl], inflight := w.inflight[fl.Key() := |w.flights|]));
  }

  lemma LoadLaunches(decrypt: Decrypt, w: World, c: nat, now: int)
    requires Inv(decrypt, w) && Enabled(decrypt, w, Load(c, now)) && Apply(decrypt, w, Load(c, now)).flights != w.flights
    ensures Inv(decrypt, Apply(decrypt, w, Load(c, now)))
  {
    assert CallOk(w, w.calls[c]);
    var w2 := Apply(decrypt, w, Load(c, now));
    LaunchStep(decrypt, w, w2.flights[|w.flights|]);
    CallStep(decrypt, w.(flights := w2.flights, inflight := w2.inflight), c, Waiting(|w.flights|));
  }

  lemma LoadStep(decrypt: Decrypt, w: World, c: nat, now: int)
    requires Inv(decrypt, w) && Enabled(decrypt, w, Load(c, now))
    ensures Inv(decrypt, Apply(decrypt, w, Load(c, now)))
  {
    if Apply(decrypt, w, Load(c, now)).flights == w.flights {
      CallStep(decrypt, w, c, Apply(decrypt, w, Load(c, now)).calls[c].state);
    } else {
      LoadLaunches(decrypt, w, c, now);
    }
  }

  lemma BeginStep(decrypt: Decrypt, w: World, user: string, service: string)
    requires Inv(decrypt, w)
    ensures Inv(decrypt, Apply(decrypt, w, Begin(user, service)))
  {
    assert w.log[..|w.log|] == w.log;
    CallsFollow(w, w);
  }

  lemma ResumeStep(decrypt: Decrypt, w: World, c: nat)
    requires Inv(decrypt, w) && Enabled(decrypt, w, Resume(c))
    ensures Inv(decrypt, Apply(decrypt, w, Resume(c)))
  {
    assert CallOk(w, w.calls[c]);
    assert FlightOk(decrypt, w.log, w.calls[c].state.flight, w.flights[w.calls[c].state.flight]);
    CallStep(decrypt, w, c, Apply(decrypt, w, Resume(c)).calls[c].state);
  }

  lemma StepKeepsInv(decrypt: Decrypt, w: World, a: Action)
    requires Inv(decrypt, w) && Enabled(decrypt, w, a)
    ensures Inv(decrypt, Apply(decrypt, w, a))
  {
    match a
    case Begin(user, service) => BeginStep(decrypt, w, user, service);
    case Load(c, now) => LoadStep(decrypt, w, c, now);
    case Mint(f, minted) => PhaseStep(decrypt, w, f, Apply(decrypt, w, a).flights[f].phase);
    case Seal(f, ct) => SealStep(decrypt, w, f, ct);
    case SealFails(f) => PhaseStep(decrypt, w, f, Settled(Err(EncryptionFailed), None));
    case Settle(f) => PhaseStep(decrypt, w, f, Apply(decrypt, w, a).flights[f].phase);
    case Clear(f) => ClearStep(decrypt, w, f);
    case Resume(c) => ResumeStep(decrypt, w, c);
    case Reconnect(service, ct) => ConnectionStep(decrypt, w, w.rows[service := ct], Wrote(service, ct, Connection));
    case Disconnect(service) => ConnectionStep(decrypt, w, w.rows - {service}, Dropped(service));
  }

  lemma {:induction false} RunKeepsInv(decrypt: Decrypt, actions: seq<Action>)
    requires Possible(decrypt, actions)
    ensures Inv(decrypt, After(decrypt, actions))
  {
    if actions != [] {
      RunKeepsInv(decrypt, actions[..|actions| - 1]);
      StepKeepsInv(decrypt, After(decrypt, actions[..|actions| - 1]), actions[|actions| - 1]);
    }
  }

  // ---------------------------------------------------------------------
  // Every run
  // ---------------------------------------------------------------------

  /** After any run, a refresh's write-back lands exactly when its service has not been touched since the read. */
  lemma WriteLandsIffUntouched(decrypt: Decrypt, actions: seq<Action>, f: nat, ct: string)
    requires Possible(decrypt, actions) && Enabled(decrypt, After(decrypt, actions), Seal(f, ct))
    ensures var w := After(decrypt, actions); var fl := w.flights[f]; var w2 := Apply(decrypt, w, Seal(f, ct));
      && fl.readAt <= |w.log|
      && if Untouched(w.log, fl.readAt, |w.log|, fl.service) then
           w2.rows == w.rows[fl.service := ct] && w2.flights[f].phase == Stored(fl.phase.updated, Some(|w.log|))
         else w2.rows == w.rows && w2.flights[f].phase == Stored(fl.phase.updated, None)
  {
    RunKeepsInv(decrypt, actions);
    LandsIffUntouched(decrypt, After(decrypt, actions), f, ct);
  }

  /** The n-th entry is a refresh's write over the very row that refresh was read from. */
  predicate OverOwnBaseline(w: World, n: nat)
    requires n < |w.log| && w.log[n].Wrote? && w.log[n].author.Refresh?
  {
    var f := w.log[n].author.flight;
    && FlightIn(w, f) && w.flights[f].readAt <= n && w.flights[f].service == w.log[n].service
    && RowAfter(w.log[..n], w.log[n].service) == Some(w.flights[f].baseline)
    && Untouched(w.log, w.flights[f].readAt, n, w.log[n].service)
  }

  lemma LandingRow(decrypt: Decrypt, log: seq<Event>, f: nat, fl: Flight, n: nat, value: StoredCredential)
    requires DistinctWrites(log) && ReadAs(log, fl.readAt, fl.service, Some(fl.baseline)) && LandedAt(decrypt, log, f, fl, n, value)
    ensures RowAfter(log[..n], fl.service) == Some(fl.baseline)
  {
    assert log[..n][..fl.readAt] == log[..fl.readAt];
    RowUnchangedIff(log[..n], fl.readAt, fl.service, fl.baseline);
    assert forall i :: fl.readAt <= i < n ==> log[..n][i] == log[i];
  }

  /**
   * In every run, a refresh writes only over the ciphertext it was read from,
   * with no connection or disconnect of the service in between: no reconnect
   * is overwritten and no disconnected row recreated.
   */
  lemma NoConnectionOverwritten(decrypt: Decrypt, actions: seq<Action>)
    requires Possible(decrypt, actions)
    ensures var w := After(decrypt, actions);
      forall n :: 0 <= n < |w.log| && w.log[n].Wrote? && w.log[n].author.Refresh? ==> OverOwnBaseline(w, n)
  {
    RunKeepsInv(decrypt, actions);
    var w := After(decrypt, actions);
    forall n | 0 <= n < |w.log| && w.log[n].Wrote? && w.log[n].author.Refresh? ensures OverOwnBaseline(w, n) {
      var f := w.log[n].author.flight;
      assert FlightOk(decrypt, w.log, f, w.flights[f]);
      var p := w.flights[f].phase;
      var value := if p.Stored? then p.stored else if p.Settled? then p.result.value else p.final.value;
      LandingRow(decrypt, w.log, f, w.flights[f], n, value);
    }
  }

  /** No two calls share a refresh key but ask for different services. */
  predicate KeysTellServices(actions: seq<Action>) {
    forall a, b :: a in actions && b in actions && SameKey(a, b) ==> a.service == b.service
  }

  predicate SameKey(a: Action, b: Action) {
    a.Begin? && b.Begin? && RefreshKey(a.user, a.service) == RefreshKey(b.user, b.service)
  }

  /** Every call and every refresh goes back to a call that began. */
  predicate BegunIn(actions: seq<Action>, w: World) {
    && (forall c :: 0 <= c < |w.calls| ==> Begin(w.calls[c].user, w.calls[c].service) in actions)
    && (forall f :: 0 <= f < |w.flights| ==> Begin(w.flights[f].user, w.flights[f].service) in actions)
  }

  lemma BegunGrows(actions: seq<Action>, w: World, a: Action)
    requires BegunIn(actions, w)
    ensures BegunIn(actions + [a], w)
  {
  }

  lemma BegunStep(decrypt: Decrypt, actions: seq<Action>, w: World, a: Action)
    requires Enabled(decrypt, w, a) && BegunIn(actions, w) && a in actions
    ensures BegunIn(actions, Apply(decrypt, w, a))
  {
  }

  lemma {:induction false} AllBegun(decrypt: Decrypt, actions: seq<Action>)
    requires Possible(decrypt, actions)
    ensures BegunIn(actions, After(decrypt, actions))
  {
    if actions != [] {
      var init, last := actions[..|actions| - 1], actions[|actions| - 1];
      AllBegun(decrypt, init);
      BegunGrows(init, After(decrypt, init), last);
      assert init + [last] == actions;
      BegunStep(decrypt, actions, After(decrypt, init), last);
    }
  }

  /** The store belongs to one user, and so do the calls on it. */
  predicate OneUser(user: string, actions: seq<Action>) {
    forall i :: 0 <= i < |actions| && actions[i].Begin? ==> actions[i].user == user
  }

  lemma SameUserSameService(user: string, s: string, t: string)
    ensures RefreshKey(user, s) == RefreshKey(user, t) <==> s == t
  {
    assert RefreshKey(user, s)[|user| + 1..] == s && RefreshKey(user, t)[|user| + 1..] == t;
  }

  /** Over one user's store the key tells the service. */
  lemma OneUserTellsServices(user: string, actions: seq<Action>)
    requires OneUser(user, actions)
    ensures KeysTellServices(actions)
  {
    forall a, b | a in actions && b in actions && SameKey(a, b) ensures a.service == b.service {
      SameUserSameService(user, a.service, b.service);
    }
  }

  /** What a caller that waited on a refresh is told. */
  predicate ToldTruly(decrypt: Decrypt, w: World, call: Call)
    requires call.state.Done? && call.state.via.Some? && FlightIn(w, call.state.via.value)
  {
    var f, out := call.state.via.value, call.state.outcome;
    && w.flights[f].service == call.service
    && if out.Ok? then exists n :: 0 <= n < |w.log| && LandedAt(decrypt, w.log, f, w.flights[f], n, out.value)
       else forall n :: 0 <= n < |w.log| && w.log[n].Wrote? ==> w.log[n].author != Refresh(f)
  }

  /** What a refresh told is true of the row of its own service. */
  lemma ClearedTellsTruly(decrypt: Decrypt, w: World, call: Call)
    requires Inv(decrypt, w) && CallOk(w, call) && call.state.Done? && call.state.via.Some?
    ensures FlightIn(w, call.state.via.value)
    ensures w.flights[call.state.via.value].service == call.service ==> ToldTruly(decrypt, w, call)
  {
    var f := call.state.via.value;
    assert FlightOk(decrypt, w.log, f, w.flights[f]);
    if call.state.outcome.Ok? {
      assert LandedAt(decrypt, w.log, f, w.flights[f], w.flights[f].phase.finalLanding.value, call.state.outcome.value);
    }
  }

  /**
   * In every run in which no two calls share a refresh key for different
   * services, a caller that returns a refreshed credential returns the one
   * that landed on its service's row, and a caller that is refused waited on a
   * refresh that wrote nothing.
   */
  lemma RefreshedCallersToldTruly(decrypt: Decrypt, actions: seq<Action>)
    requires Possible(decrypt, actions) && KeysTellServices(actions)
    ensures var w := After(decrypt, actions);
      forall c :: 0 <= c < |w.calls| && w.calls[c].state.Done? && w.calls[c].state.via.Some? ==>
        FlightIn(w, w.calls[c].state.via.value) && ToldTruly(decrypt, w, w.calls[c])
  {
    RunKeepsInv(decrypt, actions);
    AllBegun(decrypt, actions);
    var w := After(decrypt, actions);
    forall c | 0 <= c < |w.calls| && w.calls[c].state.Done? && w.calls[c].state.via.Some?
      ensures FlightIn(w, w.calls[c].state.via.value) && ToldTruly(decrypt, w, w.calls[c])
    {
      assert CallOk(w, w.calls[c]);
      ClearedTellsTruly(decrypt, w, w.calls[c]);
      SameKeySameService(actions, w.calls[c], w.flights[w.calls[c].state.via.value]);
    }
  }

  lemma SameKeySameService(actions: seq<Action>, call: Call, f: Flight)
    requires KeysTellServices(actions) && call.Key() == f.Key()
    requires Begin(call.user, call.service) in actions && Begin(f.user, f.service) in actions
    ensures f.service == call.service
  {
    assert SameKey(Begin(call.user, call.service), Begin(f.user, f.service));
  }

  /** In particular in every run over one user's store. */
  lemma OneUserToldTruly(decrypt: Decrypt, user: string, actions: seq<Action>)
    requires Possible(decrypt, actions) && OneUser(user, actions)
    ensures var w := After(decrypt, actions);
      forall c :: 0 <= c < |w.calls| && w.calls[c].state.Done? && w.calls[c].state.via.Some? ==>
        FlightIn(w, w.calls[c].state.via.value) && ToldTruly(decrypt, w, w.calls[c])
  {
    OneUserTellsServices(user, actions);
    RefreshedCallersToldTruly(decrypt, actions);
  }

  // A shared key misleads

  /** Every ciphertext decrypts to an expired credential with that text as its token. */
  function Expired(ciphertext: string): Option<StoredCredential> { Some(StoredCredential(ciphertext, "", 0.0, [])) }

  predicate LeadTo(decrypt: Decrypt, actions: seq<Action>, w: World) {
    Possible(decrypt, actions) && After(decrypt, actions) == w
  }

  lemma Then(decrypt: Decrypt, actions: seq<Action>, w: World, a: Action)
    requires LeadTo(decrypt, actions, w) && Enabled(decrypt, w, a)
    ensures LeadTo(decrypt, actions + [a], Apply(decrypt, w, a))
  {
    assert (actions + [a])[..|actions|] == actions;
  }

  function Begun(u: string, s: string, v: string, t: string): World {
    World(map[s := "1", t := "2"], map[], [],
          [Call(u, s, Loading(Some("1"), 2)), Call(v, t, Loading(Some("2"), 2))],
          [Wrote(s, "1", Connection), Wrote(t, "2", Connection)])
  }

  lemma TwoConnected(s: string, t: string) returns (actions: seq<Action>)
    requires s != t
    ensures actions == [Reconnect(s, "1")] + [Reconnect(t, "2")]
    ensures LeadTo(Expired, actions, World(map[s := "1", t := "2"], map[], [], [], [Wrote(s, "1", Connection), Wrote(t, "2", Connection)]))
  {
    Then(Expired, [], START, Reconnect(s, "1"));
    JoinEmpty([Reconnect(s, "1")]);
    var w := World(map[s := "1"], map[], [], [], [Wrote(s, "1", Connection)]);
    assert Apply(Expired, START, Reconnect(s, "1")) == w;
    Then(Expired, [Reconnect(s, "1")], w, Reconnect(t, "2"));
    actions := [Reconnect(s, "1")] + [Reconnect(t, "2")];
  }

  /** Two connections, and a call for each service. */
  lemma TwoCallsBegin(u: string, s: string, v: string, t: string) returns (actions: seq<Action>)
    requires s != t
    ensures actions == [Reconnect(s, "1")] + [Reconnect(t, "2")] + [Begin(u, s)] + [Begin(v, t)]
    ensures LeadTo(Expired, actions, Begun(u, s, v, t))
  {
    actions := TwoConnected(s, t);
    var w := Begun(u, s, v, t).(calls := []);
    Then(Expired, actions, w, Begin(u, s));
    actions := actions + [Begin(u, s)];
    Then(Expired, actions, w.(calls := [Call(u, s, Loading(Some("1"), 2))]), Begin(v, t));
    actions := actions + [Begin(v, t)];
  }

  const MINTED := StoredCredential("3", "", 0.0, [])

  /** The second load finds the first one's refresh in flight. */
  lemma BothWait(u: string, s: string, v: string, t: string, f: Flight, actions: seq<Action>) returns (more: seq<Action>)
    requires s != t && RefreshKey(u, s) == RefreshKey(v, t) && LeadTo(Expired, actions, Begun(u, s, v, t))
    requires f == Flight(u, s, "1", 2, StoredCredential("1", "", 0.0, []), Minting)
    ensures more == actions + [Load(0, 0)] + [Load(1, 0)]
    ensures LeadTo(Expired, more, Begun(u, s, v, t).(
      inflight := map[f.Key() := 0], flights := [f], calls := [Call(u, s, Waiting(0)), Call(v, t, Waiting(0))]))
  {
    var w := Begun(u, s, v, t);
    Then(Expired, actions, w, Load(0, 0));
    var w1 := w.(inflight := map[f.Key() := 0], flights := [f], calls := [Call(u, s, Waiting(0)), Call(v, t, Loading(Some("2"), 2))]);
    assert Apply(Expired, w, Load(0, 0)) == w1;
    Then(Expired, actions + [Load(0, 0)], w1, Load(1, 0));
    more := actions + [Load(0, 0)] + [Load(1, 0)];
  }

  /** The refresh mints, stores and clears. */
  lemma RefreshClears(w: World, f: Flight, actions: seq<Action>) returns (more: seq<Action>)
    requires LeadTo(Expired, actions, w) && w.flights == [f] && f.phase.Minting? && Row(w.rows, f.service) == Some(f.baseline)
    requires Fresh(w.log, "3")
    ensures more == actions + [Mint(0, Shaped(MINTED))] + [Seal(0, "3")] + [Settle(0)] + [Clear(0)]
    ensures LeadTo(Expired, more, World(w.rows[f.service := "3"], w.inflight - {f.Key()},
      [f.(phase := Cleared(Ok(MINTED), Some(|w.log|)))], w.calls, w.log + [Wrote(f.service, "3", Refresh(0))]))
  {
    more := actions + [Mint(0, Shaped(MINTED))];
    Then(Expired, actions, w, Mint(0, Shaped(MINTED)));
    var w1 := w.(flights := [f.(phase := Sealing(MINTED))]);
    Then(Expired, more, w1, Seal(0, "3"));
    more := more + [Seal(0, "3")];
    var w2 := w.(rows := w.rows[f.service := "3"], log := w.log + [Wrote(f.service, "3", Refresh(0))]);
    var w3 := w2.(flights := [f.(phase := Stored(MINTED, Some(|w.log|)))]);
    Then(Expired, more, w3, Settle(0));
    more := more + [Settle(0)];
    var w4 := w2.(flights := [f.(phase := Settled(Ok(MINTED), Some(|w.log|)))]);
    Then(Expired, more, w4, Clear(0));
    more := more + [Clear(0)];
  }

  /** Some caller that waited on a refresh is told what is not true of its own service. */
  predicate Misled(decrypt: Decrypt, w: World) {
    exists c :: 0 <= c < |w.calls| && w.calls[c].state.Done? && w.calls[c].state.via.Some?
      && FlightIn(w, w.calls[c].state.via.value) && !ToldTruly(decrypt, w, w.calls[c])
  }

  /** No call begins but these two. */
  predicate OnlyBegins(actions: seq<Action>, a: Action, b: Action) {
    forall i :: 0 <= i < |actions| && actions[i].Begin? ==> actions[i] == a || actions[i] == b
  }

  /** One refresh, started by the first call, has cleared while the second waits for it. */
  lemma RefreshShared(u: string, s: string, v: string, t: string) returns (actions: seq<Action>)
    requires s != t && RefreshKey(u, s) == RefreshKey(v, t)
    ensures Possible(Expired, actions) && OnlyBegins(actions, Begin(u, s), Begin(v, t))
    ensures var w := After(Expired, actions);
      && |w.calls| == 2 && w.calls[1] == Call(v, t, Waiting(0))
      && |w.flights| == 1 && w.flights[0].phase.Cleared? && w.flights[0].service == s
  {
    actions := TwoCallsBegin(u, s, v, t);
    var f := Flight(u, s, "1", 2, StoredCredential("1", "", 0.0, []), Minting);
    actions := BothWait(u, s, v, t, f, actions);
    actions := RefreshClears(After(Expired, actions), f, actions);
  }

  /**
   * The condition cannot be dropped: where two calls share a key for different
   * services, the second can be handed the credential of the first one's.
   */
  lemma SharedKeyMisleads(u: string, s: string, v: string, t: string) returns (actions: seq<Action>)
    requires s != t && RefreshKey(u, s) == RefreshKey(v, t)
    ensures Possible(Expired, actions) && Misled(Expired, After(Expired, actions))
    ensures OnlyBegins(actions, Begin(u, s), Begin(v, t))
  {
    actions := RefreshShared(u, s, v, t);
    ResumeMisleads(After(Expired, actions), v, t, actions);
    actions := actions + [Resume(1)];
  }

  lemma ResumeMisleads(w: World, v: string, t: string, actions: seq<Action>)
    requires LeadTo(Expired, actions, w) && |w.calls| == 2 && w.calls[1] == Call(v, t, Waiting(0))
    requires |w.flights| == 1 && w.flights[0].phase.Cleared? && w.flights[0].service != t
    ensures Possible(Expired, actions + [Resume(1)]) && Misled(Expired, After(Expired, actions + [Resume(1)]))
  {
    Then(Expired, actions, w, Resume(1));
    var w2 := Apply(Expired, w, Resume(1));
    assert w2.calls[1] == Call(v, t, Done(w.flights[0].phase.final, Some(0)));
    assert !ToldTruly(Expired, w2, w2.calls[1]);
  }

  /** Such a pair: user "a" with service "b:c", and user "a:b" with service "c". */
  lemma ColonsShareAKey()
    ensures RefreshKey("a", "b:c") == RefreshKey("a:b", "c")
  {
  }

  // ---------------------------------------------------------------------
  // No empty token
  // ---------------------------------------------------------------------

  /**
   * In every run each row that a refresh wrote decrypts to a credential with an
   * access token, and every caller that is told a credential gets one with an
   * access token.
   */
  lemma TokensAreUsable(decrypt: Decrypt, actions: seq<Action>)
    requires Possible(decrypt, actions)
    ensures var w := After(decrypt, actions);
      && (forall n :: 0 <= n < |w.log| && w.log[n].Wrote? && w.log[n].author.Refresh? ==>
            decrypt(w.log[n].ciphertext).Some? && decrypt(w.log[n].ciphertext).value.accessToken != "")
      && (forall c :: 0 <= c < |w.calls| && w.calls[c].state.Done? && w.calls[c].state.outcome.Ok? ==>
            w.calls[c].state.outcome.value.accessToken != "")
  {
    RunKeepsInv(decrypt, actions);
    var w := After(decrypt, actions);
    forall n | 0 <= n < |w.log| && w.log[n].Wrote? && w.log[n].author.Refresh?
      ensures decrypt(w.log[n].ciphertext).Some? && decrypt(w.log[n].ciphertext).value.accessToken != ""
    {
      LandedHasToken(decrypt, w, n, w.log[n].author.flight);
    }
    forall c | 0 <= c < |w.calls| && w.calls[c].state.Done? && w.calls[c].state.outcome.Ok?
      ensures w.calls[c].state.outcome.value.accessToken != ""
    {
      assert CallOk(w, w.calls[c]);
    }
  }

  lemma LandedHasToken(decrypt: Decrypt, w: World, n: nat, f: nat)
    requires Inv(decrypt, w) && n < |w.log| && w.log[n].Wrote? && w.log[n].author == Refresh(f)
    ensures decrypt(w.log[n].ciphertext).Some? && decrypt(w.log[n].ciphertext).value.accessToken != ""
  {
    assert FlightIn(w, f) && FlightOk(decrypt, w.log, f, w.flights[f]);
    assert Landing(w.flights[f].phase) == Some(n);
  }

  /** The provider's answer is no credential at all, or one with an empty access token. */
  predicate Bad(m: Minted) { m.Threw? || m.Malformed? || m.credential.accessToken == "" }

  /** The refresh has failed with this error, and wrote nothing. */
  predicate Failed(w: World, f: nat, error: RefreshError) {
    FlightIn(w, f) && (w.flights[f].phase == Settled(Err(error), None) || w.flights[f].phase == Cleared(Err(error), None))
  }

  lemma MintFails(decrypt: Decrypt, w: World, f: nat, m: Minted)
    requires Enabled(decrypt, w, Mint(f, m)) && Bad(m)
    ensures Failed(Apply(decrypt, w, Mint(f, m)), f, if m.Threw? then ProviderFailed else InvalidCredential)
  {
  }

  lemma FailedStays(decrypt: Decrypt, w: World, a: Action, f: nat, error: RefreshError)
    requires Enabled(decrypt, w, a) && Failed(w, f, error)
    ensures Failed(Apply(decrypt, w, a), f, error)
  {
  }

  lemma {:induction false} MintedBadly(decrypt: Decrypt, actions: seq<Action>, i: nat, f: nat, m: Minted)
    requires Possible(decrypt, actions) && i < |actions| && actions[i] == Mint(f, m) && Bad(m)
    ensures Failed(After(decrypt, actions), f, if m.Threw? then ProviderFailed else InvalidCredential)
  {
    var n := |actions| - 1;
    var w := After(decrypt, actions[..n]);
    if i == n {
      MintFails(decrypt, w, f, m);
    } else {
      MintedBadly(decrypt, actions[..n], i, f, m);
      FailedStays(decrypt, w, actions[n], f, if m.Threw? then ProviderFailed else InvalidCredential);
    }
  }

  lemma FailedTellsAll(decrypt: Decrypt, w: World, f: nat, error: RefreshError)
    requires Inv(decrypt, w) && Failed(w, f, error)
    ensures forall n :: 0 <= n < |w.log| && w.log[n].Wrote? ==> w.log[n].author != Refresh(f)
    ensures forall c :: 0 <= c < |w.calls| && w.calls[c].state.Done? && w.calls[c].state.via == Some(f) ==>
      w.calls[c].state.outcome == Err(error)
  {
    forall c | 0 <= c < |w.calls| && w.calls[c].state.Done? && w.calls[c].state.via == Some(f)
      ensures w.calls[c].state.outcome == Err(error)
    {
      assert CallOk(w, w.calls[c]);
    }
  }

  /**
   * In every run a refresh whose provider threw, or answered with no credential
   * or an empty access token, never writes, and every caller that waited on it
   * is told that error.
   */
  lemma BadRefreshWritesNothing(decrypt: Decrypt, actions: seq<Action>, i: nat, f: nat, m: Minted)
    requires Possible(decrypt, actions) && i < |actions| && actions[i] == Mint(f, m)
    requires m.Threw? || m.Malformed? || m.credential.accessToken == ""
    ensures var w, error := After(decrypt, actions), if m.Threw? then ProviderFailed else InvalidCredential;
      && (forall n :: 0 <= n < |w.log| && w.log[n].Wrote? ==> w.log[n].author != Refresh(f))
      && (forall c :: 0 <= c < |w.calls| && w.calls[c].state.Done? && w.calls[c].state.via == Some(f) ==>
            w.calls[c].state.outcome == Err(error))
  {
    RunKeepsInv(decrypt, actions);
    MintedBadly(decrypt, actions, i, f, m);
    FailedTellsAll(decrypt, After(decrypt, actions), f, if m.Threw? then ProviderFailed else InvalidCredential);
  }

  /** How the storing of a refresh ends: its credential if the write landed, not found if not, an error if it never got so far. */
  lemma StoringMeaning(decrypt: Decrypt, w: World, f: nat, v: StoredCredential, at: Option<nat>)
    requires FlightIn(w, f)
    ensures w.flights[f].phase == Stored(v, at) ==>
      Apply(decrypt, w, Settle(f)).flights[f].phase == Settled(if at == None then Err(CredentialNotFound) else Ok(v), at)
    ensures w.flights[f].phase == Sealing(v) ==>
      Apply(decrypt, w, SealFails(f)).flights[f].phase == Settled(Err(EncryptionFailed), None)
  {
  }

  // ---------------------------------------------------------------------
  // What a load leads to
  // ---------------------------------------------------------------------

  /** The credential is good for more than a minute. */
  predicate StillValid(credential: StoredCredential, now: int) { credential.expiryUnix > now as real + 60.0 }

  /**
   * A load by cases. No row: not found. A row that does not open, or opens on an
   * empty access token: refused. A credential good for more than a minute: that
   * one, at once. Otherwise a refresh, the one in flight under the key if there
   * is one, and else a new one based on the row as it was read.
   */
  lemma LoadMeaning(decrypt: Decrypt, w: World, c: nat, now: int, u: string, service: string, raw: Option<string>, n: nat)
    requires c < |w.calls| && w.calls[c] == Call(u, service, Loading(raw, n))
    ensures var w2, key := Apply(decrypt, w, Load(c, now)), u + ":" + service;
      && |w2.calls| == |w.calls| && w2.rows == w.rows && w2.log == w.log
      && (w2.calls[c].state == Done(Err(CredentialNotFound), None) <==> raw == None)
      && (w2.calls[c].state == Done(Err(Undecryptable), None) <==>
            raw.Some? && (decrypt(raw.value) == None || decrypt(raw.value).value.accessToken == ""))
      && (forall v :: w2.calls[c].state == Done(Ok(v), None) <==>
            raw.Some? && decrypt(raw.value) == Some(v) && v.accessToken != "" && StillValid(v, now))
      && (w2.calls[c].state.Waiting? <==>
            && raw.Some? && decrypt(raw.value).Some? && decrypt(raw.value).value.accessToken != ""
            && !StillValid(decrypt(raw.value).value, now))
      && (w2.calls[c].state.Waiting? ==>
            if key in w.inflight then w2.flights == w.flights && w2.calls[c].state.flight == w.inflight[key]
            else
              && w2.calls[c].state.flight == |w.flights| && w2.inflight == w.inflight[key := |w.flights|]
              && w2.flights == w.flights + [Flight(u, service, raw.value, n, decrypt(raw.value).value, Minting)])
      && (!w2.calls[c].state.Waiting? ==> w2.flights == w.flights && w2.inflight == w.inflight)
  {
  }

  /**
   * In every run at most one refresh per key is in flight, and a caller never
   * waits on a promise that is lost: it is in flight under the caller's own
   * key, or has cleared and can be resumed.
   */
  lemma OneRefreshPerKey(decrypt: Decrypt, actions: seq<Action>)
    requires Possible(decrypt, actions)
    ensures var w := After(decrypt, actions);
      && (forall f, g :: 0 <= f < g < |w.flights| && w.flights[f].Key() == w.flights[g].Key() ==>
            !(InFlight(w.flights[f]) && InFlight(w.flights[g])))
      && (forall c :: 0 <= c < |w.calls| && w.calls[c].state.Waiting? ==>
            Enabled(decrypt, w, Resume(c)) || (w.calls[c].Key() in w.inflight && w.inflight[w.calls[c].Key()] == w.calls[c].state.flight))
  {
    RunKeepsInv(decrypt, actions);
    var w := After(decrypt, actions);
    forall c | 0 <= c < |w.calls| && w.calls[c].state.Waiting?
      ensures Enabled(decrypt, w, Resume(c)) || (w.calls[c].Key() in w.inflight && w.inflight[w.calls[c].Key()] == w.calls[c].state.flight)
    {
      assert CallOk(w, w.calls[c]);
    }
  }
}
