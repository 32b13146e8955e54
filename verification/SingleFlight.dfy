/**
 * The refresher and its row store as the objects they are: each method is the
 * code between two awaits, and is held to one step of `TokenRefresh`.
 */
module SingleFlight {
  import opened Wrappers
  import opened TokenRefresh

  /** The ciphertexts that the rows hold; a service that needs no credential has a row without one. */
  function Credentials(rows: map<string, Option<string>>): map<string, string> {
    map service | service in rows && rows[service].Some? :: rows[service].value
  }

  lemma CredentialsAfter(rows: map<string, Option<string>>, service: string)
    ensures forall c :: Credentials(rows[service := Some(c)]) == Credentials(rows)[service := c]
    ensures Credentials(rows[service := None]) == Credentials(rows) - {service} == Credentials(rows - {service})
  {
  }

  /** What a connection does to the credentials: it supplies one, or leaves the row bare. */
  function ConnectEvent(service: string, credential: Option<string>): Event {
    if credential.Some? then Wrote(service, credential.value, Connection) else Dropped(service)
  }

  /** The service rows of one user's store, and the history of what happened to their credentials. */
  class RowStore {
    var rows: map<string, Option<string>>
    var log: seq<Event>

    /** The credentials are what the history left, and every write had a ciphertext of its own. */
    ghost predicate Valid()
      reads this
    {
      Credentials(rows) == RowsOf(log) && DistinctWrites(log)
    }

    constructor ()
      ensures Valid() && rows == map[] && log == []
    {
      rows, log := map[], [];
    }

    method Read(service: string) returns (ciphertext: Option<string>)
      ensures ciphertext == Row(Credentials(rows), service)
    {
      ciphertext := if service in rows then rows[service] else None;
    }

    /** Overwrite an existing row; with an expected ciphertext, only if the row still holds it. */
    method Write(service: string, ciphertext: string, expected: Option<string>, author: Author) returns (landed: bool)
      modifies this
      ensures landed <==> service in old(rows) && (expected.None? || old(rows)[service] == expected)
      ensures rows == if landed then old(rows)[service := Some(ciphertext)] else old(rows)
      ensures log == if landed then old(log) + [Wrote(service, ciphertext, author)] else old(log)
      ensures old(Valid()) && Fresh(old(log), ciphertext) ==> Valid()
    {
      HistoryGrows(log, Wrote(service, ciphertext, author));
      CredentialsAfter(rows, service);
      if service !in rows {
        return false;
      }
      if expected.Some? && rows[service] != expected {
        return false;
      }
      rows := rows[service := Some(ciphertext)];
      log := log + [Wrote(service, ciphertext, author)];
      return true;
    }

    /** A connection creates the row or replaces its credential, by none if it comes without one. */
    method Connect(service: string, credential: Option<string>)
      modifies this
      ensures rows == old(rows)[service := credential] && log == old(log) + [ConnectEvent(service, credential)]
      ensures old(Valid()) && (credential.Some? ==> Fresh(old(log), credential.value)) ==> Valid()
    {
      HistoryGrows(log, ConnectEvent(service, credential));
      CredentialsAfter(rows, service);
      rows := rows[service := credential];
      log := log + [ConnectEvent(service, credential)];
    }

    /** The row goes with its credential; the answer says whether there was one. */
    method Disconnect(service: string) returns (removed: bool)
      modifies this
      ensures removed <==> service in old(rows)
      ensures rows == old(rows) - {service} && log == old(log) + [Dropped(service)]
      ensures old(Valid()) ==> Valid()
    {
      HistoryGrows(log, Dropped(service));
      CredentialsAfter(rows, service);
      removed := service in rows;
      rows := rows - {service};
      log := log + [Dropped(service)];
    }
  }

  class SingleFlightRefresher {
    const store: RowStore
    const decrypt: Decrypt
    ghost const openedAt: nat
    var inflight: map<string, nat>
    var flights: seq<Flight>
    var calls: seq<Call>

    /** The world as this refresher sees it: what was written before it was set up is not its own. */
    ghost function Snapshot(): World
      reads this, store
      requires openedAt <= |store.log|
    {
      World(Credentials(store.rows), inflight, flights, calls, Seen(store.log, openedAt))
    }

    ghost predicate Valid()
      reads this, store
    {
      openedAt <= |store.log| && store.Valid() && Inv(decrypt, Snapshot())
    }

    /** Over a store in any state, with rows that connections or an earlier refresher wrote. */
    constructor (store: RowStore, decrypt: Decrypt)
      requires store.Valid()
      ensures this.store == store && this.decrypt == decrypt
      ensures Valid() && Snapshot() == Resting(store.log) && Snapshot().rows == Credentials(store.rows)
      ensures Possible(decrypt, Replay(store.log)) && After(decrypt, Replay(store.log)) == Snapshot()
    {
      this.store, this.decrypt := store, decrypt;
      openedAt := |store.log|;
      inflight, flights, calls := map[], [], [];
      RestingIsReached(decrypt, store.log);
      RunKeepsInv(decrypt, Replay(store.log));
    }

    method SetPhase(f: nat, p: Phase)
      requires f < |flights|
      modifies this`flights
      ensures flights == old(flights)[f := old(flights)[f].(phase := p)]
    {
      flights := flights[f := flights[f].(phase := p)];
    }

    method SetCall(c: nat, s: CallState)
      requires c < |calls|
      modifies this`calls
      ensures calls == old(calls)[c := old(calls)[c].(state := s)]
    {
      calls := calls[c := calls[c].(state := s)];
    }

    /** `getValidCredential` up to its first await: read the row the refresh will be based on. */
    method GetValidCredential(user: string, service: string) returns (call: nat)
      requires Valid()
      modifies this
      ensures call == old(|calls|)
      ensures Valid() && Snapshot() == Apply(decrypt, old(Snapshot()), Begin(user, service))
    {
      StepKeepsInv(decrypt, Snapshot(), Begin(user, service));
      var baseline := store.Read(service);
      call := |calls|;
      calls := calls + [Call(user, service, Loading(baseline, |store.log|))];
    }

    /** The load came back: return, fail, join the refresh in flight, or start one. */
    method CredentialLoaded(call: nat, now: int)
      requires Valid() && Enabled(decrypt, Snapshot(), Load(call, now))
      modifies this
      ensures Valid() && Snapshot() == Apply(decrypt, old(Snapshot()), Load(call, now))
    {
      StepKeepsInv(decrypt, Snapshot(), Load(call, now));
      var c := calls[call];
      if c.state.baseline.None? {
        SetCall(call, Done(Err(CredentialNotFound), None));
        return;
      }
      var credential := decrypt(c.state.baseline.value);
      if credential.Some? && credential.value.accessToken == "" {
        credential := None;
      }
      if credential.None? {
        SetCall(call, Done(Err(Undecryptable), None));
      } else if credential.value.expiryUnix > (now + 60) as real {
        SetCall(call, Done(Ok(credential.value), None));
      } else {
        var key := RefreshKey(c.user, c.service);
        if key in inflight {
          SetCall(call, Waiting(inflight[key]));
        } else {
          var f := |flights|;
          flights := flights + [Flight(c.user, c.service, c.state.baseline.value, c.state.readAt, credential.value, Minting)];
          inflight := inflight[key := f];
          SetCall(call, Waiting(f));
        }
      }
    }

    /** `doRefresh` after the provider call: the loud-failure guard, then on to encryption. */
    method ProviderReturned(f: nat, minted: Minted)
      requires Valid() && Enabled(decrypt, Snapshot(), Mint(f, minted))
      modifies this
      ensures Valid() && Snapshot() == Apply(decrypt, old(Snapshot()), Mint(f, minted))
    {
      StepKeepsInv(decrypt, Snapshot(), Mint(f, minted));
      match minted {
        case Threw => SetPhase(f, Settled(Err(ProviderFailed), None));
        case Malformed => SetPhase(f, Settled(Err(InvalidCredential), None));
        case Shaped(updated) =>
          if updated.accessToken == "" {
            SetPhase(f, Settled(Err(InvalidCredential), None));
          } else {
            SetPhase(f, Sealing(updated));
          }
      }
    }

    /** `storeCredential` after encryption: the compare-and-swap. */
    method Encrypted(f: nat, ciphertext: string)
      requires Valid() && Enabled(decrypt, Snapshot(), Seal(f, ciphertext))
      modifies this, store
      ensures Valid() && Snapshot() == Apply(decrypt, old(Snapshot()), Seal(f, ciphertext))
    {
      StepKeepsInv(decrypt, Snapshot(), Seal(f, ciphertext));
      var flight, at := flights[f], |store.log|;
      SeenGrows(store.log, openedAt, Wrote(flight.service, ciphertext, Refresh(f)));
      CredentialsAfter(store.rows, flight.service);
      var landed := store.Write(flight.service, ciphertext, Some(flight.baseline), Refresh(f));
      SetPhase(f, Stored(flight.phase.updated, if landed then Some(at) else None));
    }

    method EncryptionRejected(f: nat)
      requires Valid() && Enabled(decrypt, Snapshot(), SealFails(f))
      modifies this
      ensures Valid() && Snapshot() == Apply(decrypt, old(Snapshot()), SealFails(f))
    {
      StepKeepsInv(decrypt, Snapshot(), SealFails(f));
      SetPhase(f, Settled(Err(EncryptionFailed), None));
    }

    /** The write's answer came back: a write that did not land is a refused refresh. */
    method WriteAnswered(f: nat)
      requires Valid() && Enabled(decrypt, Snapshot(), Settle(f))
      modifies this
      ensures Valid() && Snapshot() == Apply(decrypt, old(Snapshot()), Settle(f))
    {
      StepKeepsInv(decrypt, Snapshot(), Settle(f));
      var p := flights[f].phase;
      if p.landedAt.None? {
        SetPhase(f, Settled(Err(CredentialNotFound), None));
      } else {
        SetPhase(f, Settled(Ok(p.stored), p.landedAt));
      }
    }

    /** The `finally` handler: forget the refresh, whatever became of it. */
    method Finally(f: nat)
      requires Valid() && Enabled(decrypt, Snapshot(), Clear(f))
      modifies this
      ensures Valid() && Snapshot() == Apply(decrypt, old(Snapshot()), Clear(f))
    {
      StepKeepsInv(decrypt, Snapshot(), Clear(f));
      var flight := flights[f];
      inflight := inflight - {RefreshKey(flight.user, flight.service)};
      SetPhase(f, Cleared(flight.phase.result, flight.phase.settledLanding));
    }

    /** A caller awaiting the promise resumes with its outcome. */
    method CallerResumed(call: nat) returns (outcome: Outcome)
      requires Valid() && Enabled(decrypt, Snapshot(), Resume(call))
      modifies this
      ensures Valid() && Snapshot() == Apply(decrypt, old(Snapshot()), Resume(call))
      ensures calls[call].state.outcome == outcome
    {
      StepKeepsInv(decrypt, Snapshot(), Resume(call));
      var f := calls[call].state.flight;
      outcome := flights[f].phase.final;
      SetCall(call, Done(outcome, Some(f)));
    }

    method Reconnected(service: string, ciphertext: string)
      requires Valid() && Enabled(decrypt, Snapshot(), Reconnect(service, ciphertext))
      modifies store
      ensures Valid() && Snapshot() == Apply(decrypt, old(Snapshot()), Reconnect(service, ciphertext))
    {
      StepKeepsInv(decrypt, Snapshot(), Reconnect(service, ciphertext));
      SeenGrows(store.log, openedAt, Wrote(service, ciphertext, Connection));
      CredentialsAfter(store.rows, service);
      store.Connect(service, Some(ciphertext));
    }

    /** To a refresh a connection without a credential is a disconnect: there is nothing to overwrite any more. */
    method ReconnectedBare(service: string)
      requires Valid()
      modifies store
      ensures Valid() && Snapshot() == Apply(decrypt, old(Snapshot()), Disconnect(service))
    {
      StepKeepsInv(decrypt, Snapshot(), Disconnect(service));
      SeenGrows(store.log, openedAt, Dropped(service));
      CredentialsAfter(store.rows, service);
      store.Connect(service, None);
    }

    method Disconnected(service: string)
      requires Valid()
      modifies store
      ensures Valid() && Snapshot() == Apply(decrypt, old(Snapshot()), Disconnect(service))
    {
      StepKeepsInv(decrypt, Snapshot(), Disconnect(service));
      SeenGrows(store.log, openedAt, Dropped(service));
      CredentialsAfter(store.rows, service);
      var _ := store.Disconnect(service);
    }
  }
}
