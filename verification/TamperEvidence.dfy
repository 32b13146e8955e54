/**
 * Tamper evidence as a reduction: two break-free ranges that end in the same
 * stored hash hold the same rows back to their newest sequence-0 row, or a
 * collision of the hash function can be read off them. Nothing before that row
 * is bound within its epoch.
 */
module TamperEvidence {
  import opened Sequences
  import opened Wrappers
  import opened Utf16
  import opened EntryHash
  import opened VerifyChain

  /** A clean verdict on some rows, in whatever order and of whatever epochs. */
  predicate CleanRange(sha: Bytes -> Bytes, es: seq<ChainEntry>) {
    es != [] && RangeVerdict(Rehash(sha), es, None).breaks == []
  }

  /** The rows from the newest sequence-0 row on; all rows if there is none. */
  function Since(es: seq<ChainEntry>): (r: seq<ChainEntry>)
    ensures es != [] ==> r != []
  {
    if es == [] then []
    else
      var last := es[|es| - 1];
      if last.sequenceNum == 0 then [last] else Since(es[..|es| - 1]) + [last]
  }

  lemma SinceSnoc(es: seq<ChainEntry>, e: ChainEntry)
    ensures Since(es + [e]) == (if e.sequenceNum == 0 then [] else Since(es)) + [e]
  {
    assert (es + [e])[..|es|] == es;
    JoinEmpty([e]);
  }

  /** Where those rows start: no newer row has sequence number 0, and older rows only if this one has. */
  predicate StartsAt(es: seq<ChainEntry>, k: nat)
    requires k < |es|
  {
    && Since(es) == es[k..] && (k > 0 ==> es[k].sequenceNum == 0)
    && forall i :: k < i < |es| ==> es[i].sequenceNum != 0
  }

  lemma StartStays(es: seq<ChainEntry>, e: ChainEntry, k: nat)
    requires k < |es| && StartsAt(es, k) && e.sequenceNum != 0
    ensures StartsAt(es + [e], k)
  {
    SinceSnoc(es, e);
    assert (es + [e])[k..] == es[k..] + [e];
  }

  lemma {:induction false} SinceStart(es: seq<ChainEntry>) returns (k: nat)
    requires es != []
    ensures k < |es| && StartsAt(es, k)
  {
    var n := |es| - 1;
    if es[n].sequenceNum == 0 || n == 0 {
      return n;
    }
    SplitLast(es);
    k := SinceStart(es[..n]);
    StartStays(es[..n], es[n], k);
  }

  /** Walk both ranges backwards to the first pair of rows hashed from different bytes. */
  function FindCollision(a: seq<ChainEntry>, b: seq<ChainEntry>): Option<(Bytes, Bytes)>
  {
    if a == [] || b == [] then None
    else
      var x, y := HashInput(a[|a| - 1]), HashInput(b[|b| - 1]);
      if x != y then Some((x, y)) else FindCollision(a[..|a| - 1], b[..|b| - 1])
  }

  predicate Collides(sha: Bytes -> Bytes, pair: (Bytes, Bytes)) {
    pair.0 != pair.1 && sha(pair.0) == sha(pair.1)
  }

  /** The two rows agree on all 20 hashed fields and on the stored hash. */
  predicate SameRow(x: ChainEntry, y: ChainEntry) { SameHashedFields(x, y) && x.hash == y.hash }

  /** Counted from the newest end, the rows agree over the shorter length. */
  predicate AgreeBackwards(a: seq<ChainEntry>, b: seq<ChainEntry>) {
    PairedBackwards(SameRow, a, b)
  }

  /** A collision is exhibited, or the rows agree backwards. */
  predicate SameHistory(sha: Bytes -> Bytes, a: seq<ChainEntry>, b: seq<ChainEntry>) {
    match FindCollision(a, b)
    case Some(pair) => Collides(sha, pair)
    case None => AgreeBackwards(a, b)
  }

  predicate Rehashes(sha: Bytes -> Bytes, e: ChainEntry) { Rehash(sha)(e) == e.hash }

  lemma CleanIffRules(sha: Bytes -> Bytes, es: seq<ChainEntry>)
    requires es != []
    ensures CleanRange(sha, es) <==> RulesHold(Rehash(sha), es)
  {
    BreakFreeIffRulesHold(Rehash(sha), es);
  }

  /** Rows are clean together exactly when both parts are and the link across the cut holds. */
  lemma CleanJoinIff(sha: Bytes -> Bytes, older: seq<ChainEntry>, newer: seq<ChainEntry>)
    requires older != [] && newer != []
    ensures CleanRange(sha, older + newer)
       <==> CleanRange(sha, older) && CleanRange(sha, newer) && LinkHolds(older[|older| - 1], newer[0])
  {
    CleanIffRules(sha, older);
    CleanIffRules(sha, newer);
    CleanIffRules(sha, older + newer);
    RulesOfJoin(Rehash(sha), older, newer);
  }

  lemma RulesOfJoin(rehash: ChainEntry -> Str, older: seq<ChainEntry>, newer: seq<ChainEntry>)
    requires older != [] && newer != []
    ensures RulesHold(rehash, older + newer)
       <==> RulesHold(rehash, older) && RulesHold(rehash, newer) && LinkHolds(older[|older| - 1], newer[0])
  {
    var all, n := older + newer, |older|;
    assert forall i :: 0 <= i < n ==> all[i] == older[i];
    assert forall i :: 0 <= i < |newer| ==> all[n + i] == newer[i];
    if RulesHold(rehash, all) {
      assert LinkHolds(all[n - 1], all[n]);
      forall i | 0 <= i < |newer| ensures RowIntact(rehash, newer[i]) {
        assert RowIntact(rehash, all[n + i]);
      }
      forall i | 0 < i < |newer| ensures LinkHolds(newer[i - 1], newer[i]) {
        assert LinkHolds(all[n + i - 1], all[n + i]);
      }
    }
  }

  lemma CleanInit(sha: Bytes -> Bytes, es: seq<ChainEntry>)
    requires CleanRange(sha, es) && |es| > 1
    ensures CleanRange(sha, es[..|es| - 1])
    ensures es[|es| - 1].sequenceNum != 0 ==> es[|es| - 1].prevHash == es[|es| - 2].hash
  {
    SplitLast(es);
    CleanJoinIff(sha, es[..|es| - 1], [es[|es| - 1]]);
  }

  lemma CleanLastRehashes(sha: Bytes -> Bytes, es: seq<ChainEntry>)
    requires CleanRange(sha, es)
    ensures Rehashes(sha, es[|es| - 1])
  {
    BreakFreeIffRulesHold(Rehash(sha), es);
    assert RowIntact(Rehash(sha), es[|es| - 1]);
  }

  /** Stored hashes are hexadecimal, so links that agree as bytes agree as text. */
  lemma LinksAgree(sha: Bytes -> Bytes, a: seq<ChainEntry>, b: seq<ChainEntry>)
    requires CleanRange(sha, a) && CleanRange(sha, b) && |a| > 1 && |b| > 1
    requires SameHashedFields(a[|a| - 1], b[|b| - 1]) && a[|a| - 1].sequenceNum != 0
    ensures var p, q := a[..|a| - 1], b[..|b| - 1];
      CleanRange(sha, p) && CleanRange(sha, q) && p[|p| - 1].hash == q[|q| - 1].hash
  {
    CleanInit(sha, a);
    CleanInit(sha, b);
    var p, q := a[..|a| - 1], b[..|b| - 1];
    CleanLastRehashes(sha, p);
    CleanLastRehashes(sha, q);
    HexInjective(sha(HashInput(p[|p| - 1])), []);
    HexInjective(sha(HashInput(q[|q| - 1])), []);
    Utf8OfAscii(p[|p| - 1].hash);
    Utf8OfAscii(q[|q| - 1].hash);
  }

  /** Equal stored hashes on two rows that rehash: the same 20 fields, or a collision on the spot. */
  lemma SameHashSameRow(sha: Bytes -> Bytes, x: ChainEntry, y: ChainEntry)
    requires Rehashes(sha, x) && Rehashes(sha, y) && x.hash == y.hash
    ensures if HashInput(x) == HashInput(y) then SameRow(x, y) else Collides(sha, (HashInput(x), HashInput(y)))
  {
    HexInjective(sha(HashInput(x)), sha(HashInput(y)));
    HashInputInjective(x, y);
  }

  lemma OneMorePair(sha: Bytes -> Bytes, a: seq<ChainEntry>, b: seq<ChainEntry>, x: ChainEntry, y: ChainEntry)
    requires SameHistory(sha, a, b) && HashInput(x) == HashInput(y) && SameRow(x, y)
    ensures SameHistory(sha, a + [x], b + [y])
  {
    var p, q := a + [x], b + [y];
    assert p[..|p| - 1] == a && q[..|q| - 1] == b;
    if FindCollision(a, b).None? {
      PairedOneMore(SameRow, p, q);
    }
  }

  lemma NoRows(sha: Bytes -> Bytes, a: seq<ChainEntry>, b: seq<ChainEntry>)
    requires a == [] || b == []
    ensures SameHistory(sha, a, b)
  {
  }

  /** One row more on each side. */
  lemma HistoryStep(sha: Bytes -> Bytes, p: seq<ChainEntry>, q: seq<ChainEntry>, x: ChainEntry, y: ChainEntry)
    requires SameRow(x, y) && HashInput(x) == HashInput(y)
    requires x.sequenceNum != 0 ==> SameHistory(sha, Since(p), Since(q))
    ensures SameHistory(sha, Since(p + [x]), Since(q + [y]))
  {
    SinceSnoc(p, x);
    SinceSnoc(q, y);
    NoRows(sha, [], []);
    OneMorePair(sha, if x.sequenceNum == 0 then [] else Since(p), if x.sequenceNum == 0 then [] else Since(q), x, y);
  }

  lemma DifferentTips(sha: Bytes -> Bytes, p: seq<ChainEntry>, q: seq<ChainEntry>, x: ChainEntry, y: ChainEntry)
    requires Collides(sha, (HashInput(x), HashInput(y)))
    ensures SameHistory(sha, Since(p + [x]), Since(q + [y]))
  {
    SinceSnoc(p, x);
    SinceSnoc(q, y);
  }

  /** Behind two rows that agree and are no sequence-0 rows: nothing, or ranges that end alike. */
  lemma EarlierHistory(sha: Bytes -> Bytes, a: seq<ChainEntry>, b: seq<ChainEntry>)
    requires CleanRange(sha, a) && CleanRange(sha, b)
    requires SameHashedFields(a[|a| - 1], b[|b| - 1]) && a[|a| - 1].sequenceNum != 0
    ensures var p, q := a[..|a| - 1], b[..|b| - 1];
      if p == [] || q == [] then SameHistory(sha, Since(p), Since(q))
      else CleanRange(sha, p) && CleanRange(sha, q) && p[|p| - 1].hash == q[|q| - 1].hash
  {
    var p, q := a[..|a| - 1], b[..|b| - 1];
    if p == [] || q == [] {
      NoRows(sha, Since(p), Since(q));
    } else {
      LinksAgree(sha, a, b);
    }
  }

  /**
   * Two clean ranges with the same newest stored hash, their rows in any order
   * and of any epochs, agree backwards, row by row over the shorter length, as
   * far as the newest sequence-0 row of each, unless `FindCollision` exhibits
   * two different framed inputs with equal digest.
   */
  lemma {:induction false} SameTipSameHistory(sha: Bytes -> Bytes, a: seq<ChainEntry>, b: seq<ChainEntry>)
    requires CleanRange(sha, a) && CleanRange(sha, b)
    requires a[|a| - 1].hash == b[|b| - 1].hash
    ensures SameHistory(sha, Since(a), Since(b))
    decreases |a|
  {
    var p, q, x, y := a[..|a| - 1], b[..|b| - 1], a[|a| - 1], b[|b| - 1];
    SplitLast(a);
    SplitLast(b);
    CleanLastRehashes(sha, a);
    CleanLastRehashes(sha, b);
    SameHashSameRow(sha, x, y);
    if HashInput(x) != HashInput(y) {
      DifferentTips(sha, p, q, x, y);
    } else {
      if x.sequenceNum != 0 {
        EarlierHistory(sha, a, b);
        if p != [] && q != [] {
          SameTipSameHistory(sha, p, q);
        }
      }
      HistoryStep(sha, p, q, x, y);
    }
  }

  /** In chain order a range of one epoch has a sequence-0 row only at its start, so all of it is bound. */
  lemma ChainOrderIsAllBound(es: seq<ChainEntry>)
    requires Ascending(es) && forall i :: 0 <= i < |es| ==> es[i].epochId == es[0].epochId
    ensures Since(es) == es
  {
    if es != [] {
      var k := SinceStart(es);
      if k > 0 {
        assert SortsBelow(es[k - 1], es[k]);
        StrLessTrichotomy(es[0].epochId, es[0].epochId);
      }
    }
  }

  lemma ChainOrderSameHistory(sha: Bytes -> Bytes, a: seq<ChainEntry>, b: seq<ChainEntry>)
    requires CleanRange(sha, a) && CleanRange(sha, b) && a[|a| - 1].hash == b[|b| - 1].hash
    requires Ascending(a) && forall i :: 0 <= i < |a| ==> a[i].epochId == a[0].epochId
    requires Ascending(b) && forall i :: 0 <= i < |b| ==> b[i].epochId == b[0].epochId
    ensures SameHistory(sha, a, b)
  {
    ChainOrderIsAllBound(a);
    ChainOrderIsAllBound(b);
    SameTipSameHistory(sha, a, b);
  }

  // ---------------------------------------------------------------------
  // What lies before
  // ---------------------------------------------------------------------

  lemma CleanSuffix(sha: Bytes -> Bytes, older: seq<ChainEntry>, newer: seq<ChainEntry>)
    requires older != [] && newer != [] && CleanRange(sha, older + newer)
    ensures CleanRange(sha, newer)
  {
    CleanJoinIff(sha, older, newer);
  }

  lemma CleanFrom(sha: Bytes -> Bytes, es: seq<ChainEntry>, k: nat)
    requires CleanRange(sha, es) && k < |es|
    ensures CleanRange(sha, es[k..])
  {
    CutAt(es, k);
    if k == 0 {
      JoinEmpty(es);
    } else {
      CleanSuffix(sha, es[..k], es[k..]);
    }
  }

  lemma CleanSince(sha: Bytes -> Bytes, es: seq<ChainEntry>)
    requires CleanRange(sha, es)
    ensures CleanRange(sha, Since(es)) && Since(es)[|Since(es)| - 1] == es[|es| - 1]
  {
    var k := SinceStart(es);
    CleanFrom(sha, es, k);
  }

  lemma CutAt(es: seq<ChainEntry>, k: nat)
    requires k <= |es|
    ensures es == es[..k] + es[k..]
  {
  }

  /**
   * Nothing before the newest sequence-0 row is bound: any clean rows that end
   * in its epoch may stand there, and the range is clean, with the same tip.
   */
  lemma SpliceIsClean(sha: Bytes -> Bytes, other: seq<ChainEntry>, es: seq<ChainEntry>)
    requires CleanRange(sha, other) && CleanRange(sha, es)
    requires Since(es)[0].sequenceNum == 0 && other[|other| - 1].epochId == Since(es)[0].epochId
    ensures CleanRange(sha, other + Since(es)) && (other + Since(es))[|other + Since(es)| - 1] == es[|es| - 1]
  {
    CleanSince(sha, es);
    CleanJoinIff(sha, other, Since(es));
    JoinLast(other, Since(es));
  }

  /** A sequence-0 row with this id, hashed. */
  function GenesisRow(sha: Bytes -> Bytes, id: Str): ChainEntry {
    var e := ChainEntry([], 0, GENESIS_SENTINEL, id, [], [], [], [], [], [], [], [], [], [], [], [], None, None, 0, None, [], None);
    e.(hash := Rehash(sha)(e))
  }

  lemma GenesisRowIsIntact(sha: Bytes -> Bytes, id: Str)
    ensures RowIntact(Rehash(sha), GenesisRow(sha, id))
  {
  }

  lemma TwoRowsHold(rehash: ChainEntry -> Str, x: ChainEntry, y: ChainEntry)
    requires RowIntact(rehash, x) && RowIntact(rehash, y) && LinkHolds(x, y)
    ensures RulesHold(rehash, [x, y])
  {
  }

  lemma GenesisRowsAreClean(sha: Bytes -> Bytes, x: Str, y: Str)
    ensures CleanRange(sha, [GenesisRow(sha, x), GenesisRow(sha, y)])
  {
    GenesisRowIsIntact(sha, x);
    GenesisRowIsIntact(sha, y);
    TwoRowsHold(Rehash(sha), GenesisRow(sha, x), GenesisRow(sha, y));
    BreakFreeIffRulesHold(Rehash(sha), [GenesisRow(sha, x), GenesisRow(sha, y)]);
  }

  lemma OtherIdOtherRow(x: ChainEntry, y: ChainEntry)
    requires IsAscii(x.id) && IsAscii(y.id) && x.id != y.id
    ensures !SameRow(x, y)
  {
    Utf8OfAscii(x.id);
    Utf8OfAscii(y.id);
  }

  /**
   * Two clean ranges of one epoch with the same tip that hold different rows,
   * whatever the hash function: the first row is free although it is in range.
   */
  lemma SameTipOtherHistory(sha: Bytes -> Bytes, x: Str, y: Str, t: Str)
    requires IsAscii(x) && IsAscii(y) && x != y
    ensures var a, b := [GenesisRow(sha, x), GenesisRow(sha, t)], [GenesisRow(sha, y), GenesisRow(sha, t)];
      CleanRange(sha, a) && CleanRange(sha, b) && a[1] == b[1] && !SameRow(a[0], b[0])
  {
    GenesisRowsAreClean(sha, x, t);
    GenesisRowsAreClean(sha, y, t);
    OtherIdOtherRow(GenesisRow(sha, x), GenesisRow(sha, y));
  }

  /**
   * Across a genesis only `epochPrevHash` links back, which no hash covers.
   * Where both ranges state the same one, the epochs before agree likewise.
   */
  lemma SameEpochLinkSameHistory(sha: Bytes -> Bytes, p: seq<ChainEntry>, a: seq<ChainEntry>, q: seq<ChainEntry>, b: seq<ChainEntry>)
    requires p != [] && a != [] && CleanRange(sha, p + a) && p[|p| - 1].epochId != a[0].epochId
    requires q != [] && b != [] && CleanRange(sha, q + b) && q[|q| - 1].epochId != b[0].epochId
    requires a[0].epochPrevHash == b[0].epochPrevHash
    ensures SameHistory(sha, Since(p), Since(q))
  {
    CleanJoinIff(sha, p, a);
    CleanJoinIff(sha, q, b);
    SameTipSameHistory(sha, p, q);
  }
}
