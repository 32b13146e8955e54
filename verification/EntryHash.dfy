/**
 * The entry hash of packages/audit/src/hash.ts: length-prefixed framing of the
 * 20 hashed fields. SHA-256 itself is an arbitrary function `sha` on bytes.
 */
module EntryHash {
  import opened Sequences
  import opened Wrappers
  import opened Utf16

  const GENESIS_SENTINEL: Str := Ascii("GENESIS")

  const COLON: Unit := 58
  const MINUS: Unit := 45
  const DIGIT_ZERO: Unit := 48

  /**
   * A row of the audit log. The last two columns, the stored hash and the link
   * to the epoch before, are not hashed. `costUsd` is the text it prints as.
   */
  datatype ChainEntry = ChainEntry(
    epochId: Str, sequenceNum: int, prevHash: Str, id: Str, timestamp: Str,
    userId: Str, agentId: Str, sessionId: Str, origin: Str, service: Str,
    verb: Str, noun: Str, toolName: Str, parametersMetadata: Str, decision: Str,
    outcome: Str, errorMessage: Option<Str>, decisionEntryId: Option<Str>,
    latencyMs: int, costUsd: Option<Str>,
    hash: Str, epochPrevHash: Option<Str>)

  /** `String(n)` on a non-negative integer. */
  function Decimal(n: nat): (r: Str)
    ensures r != [] && forall i :: 0 <= i < |r| ==> DIGIT_ZERO <= r[i] < COLON
  {
    if n < 10 then [DIGIT_ZERO + n] else Decimal(n / 10) + [DIGIT_ZERO + n % 10]
  }

  /** `String(n)` on an integer. */
  function IntegerText(n: int): Str {
    if n < 0 then [MINUS] + Decimal(-n) else Decimal(n)
  }

  /** `value ?? ""`. */
  function OrEmpty(value: Option<Str>): Str {
    match value case None => [] case Some(v) => v
  }

  /** The value, preceded by how many bytes it takes. */
  function FrameField(value: Str): Str {
    Decimal(|Utf8(value)|) + [COLON] + value
  }

  function JoinFrames(values: seq<Str>): Str {
    if values == [] then [] else FrameField(values[0]) + JoinFrames(values[1..])
  }

  /** The 20 field texts, in the format's order. */
  function FieldTexts(e: ChainEntry): (r: seq<Str>)
    ensures |r| == 20
  {
    [ e.epochId, IntegerText(e.sequenceNum), e.prevHash, e.id, e.timestamp,
      e.userId, e.agentId, e.sessionId, e.origin, e.service,
      e.verb, e.noun, e.toolName, e.parametersMetadata, e.decision,
      e.outcome, OrEmpty(e.errorMessage), OrEmpty(e.decisionEntryId),
      IntegerText(e.latencyMs), OrEmpty(e.costUsd) ]
  }

  /** The bytes handed to SHA-256. */
  function HashInput(e: ChainEntry): Bytes { Utf8(JoinFrames(FieldTexts(e))) }

  function HexDigit(n: int): Unit
    requires 0 <= n < 16
  {
    if n < 10 then 48 + n else 87 + n
  }

  /** `digest("hex")`. */
  function Hex(b: Bytes): Str {
    if b == [] then [] else [HexDigit(b[0] / 16), HexDigit(b[0] % 16)] + Hex(b[1..])
  }

  /** `computeEntryHash`, with SHA-256 as a parameter. */
  function ComputeEntryHash(sha: Bytes -> Bytes, e: ChainEntry): Str {
    Hex(sha(HashInput(e)))
  }

  /** `ComputeEntryHash` as the row hash a verifier is given. */
  function Rehash(sha: Bytes -> Bytes): ChainEntry -> Str {
    (e: ChainEntry) => ComputeEntryHash(sha, e)
  }

  // ---------------------------------------------------------------------
  // Reading the framing back
  // ---------------------------------------------------------------------

  /** Decimal digits up to the first colon: the number read and what follows. */
  function ReadLength(b: Bytes, acc: nat): Option<(nat, Bytes)> {
    if b == [] then None
    else if b[0] == COLON then Some((acc, b[1..]))
    else if DIGIT_ZERO <= b[0] < COLON then ReadLength(b[1..], acc * 10 + (b[0] - DIGIT_ZERO))
    else None
  }

  /** Digits, colon, then exactly that many bytes, `n` times over. */
  function ReadFields(b: Bytes, n: nat): Option<(seq<Bytes>, Bytes)>
    decreases n
  {
    if n == 0 then Some(([], b))
    else
      match ReadLength(b, 0)
      case None => None
      case Some((len, rest)) =>
        if len > |rest| then None
        else
          match ReadFields(rest[len..], n - 1)
          case None => None
          case Some((fields, tail)) => Some(([rest[..len]] + fields, tail))
  }

  function Encoded(values: seq<Str>): (r: seq<Bytes>)
    ensures |r| == |values|
    ensures forall i :: 0 <= i < |values| ==> r[i] == Utf8(values[i])
  {
    seq(|values|, i requires 0 <= i < |values| => Utf8(values[i]))
  }

  lemma EncodedCons(values: seq<Str>)
    requires values != []
    ensures Encoded(values) == [Utf8(values[0])] + Encoded(values[1..])
  {
  }

  /** The bytes of one frame, built from the value's own bytes. */
  function FrameBytes(value: Str): Bytes {
    Decimal(|Utf8(value)|) + Ascii(":") + Utf8(value)
  }

  function JoinFrameBytes(values: seq<Str>): Bytes {
    if values == [] then [] else FrameBytes(values[0]) + JoinFrameBytes(values[1..])
  }

  lemma {:induction false} ReadLengthOfDecimal(n: nat, tail: Bytes)
    ensures ReadLength(Decimal(n) + tail, 0) == ReadLength(tail, n)
  {
    if n >= 10 {
      var last: Bytes := [DIGIT_ZERO + n % 10];
      ReadLengthOfDecimal(n / 10, last + tail);
      assert Decimal(n) + tail == Decimal(n / 10) + (last + tail);
      assert (last + tail)[1..] == tail;
    } else {
      assert (Decimal(n) + tail)[1..] == tail;
    }
  }

  /** Each frame encodes to its own length prefix over its own bytes. */
  lemma FrameEncodes(value: Str)
    ensures Utf8(FrameField(value)) == FrameBytes(value)
  {
    var prefix := Decimal(|Utf8(value)|) + [COLON];
    Utf8OfJoin(prefix, value);
    Utf8OfAscii(prefix);
  }

  lemma JoinStartsWithDigit(values: seq<Str>)
    ensures values == [] ==> JoinFrames(values) == []
    ensures values != [] ==> JoinFrames(values) != [] && DIGIT_ZERO <= JoinFrames(values)[0] < COLON
  {
  }

  /**
   * The bytes of the joined frames are the joined bytes of the frames, whatever
   * surrogates the values begin or end with: a frame starts with a digit.
   */
  lemma {:induction false} JoinEncodes(values: seq<Str>)
    ensures Utf8(JoinFrames(values)) == JoinFrameBytes(values)
  {
    if values != [] {
      JoinStartsWithDigit(values[1..]);
      Utf8OfJoin(FrameField(values[0]), JoinFrames(values[1..]));
      FrameEncodes(values[0]);
      JoinEncodes(values[1..]);
    }
  }

  /** Reading one frame gives its value's bytes and leaves what follows it. */
  lemma ReadOneFrame(value: Str, after: Bytes)
    ensures ReadLength(FrameBytes(value) + after, 0) == Some((|Utf8(value)|, Utf8(value) + after))
  {
    var v := Utf8(value);
    assert FrameBytes(value) + after == Decimal(|v|) + ([COLON] + (v + after));
    ReadLengthOfDecimal(|v|, [COLON] + (v + after));
  }

  /** One field off the front of a read. */
  lemma ReadFieldsStep(value: Str, n: nat, after: Bytes)
    requires ReadFields(after, n).Some?
    ensures ReadFields(FrameBytes(value) + after, n + 1)
         == Some(([Utf8(value)] + ReadFields(after, n).value.0, ReadFields(after, n).value.1))
  {
    var v := Utf8(value);
    ReadOneFrame(value, after);
    assert (v + after)[..|v|] == v && (v + after)[|v|..] == after;
  }

  lemma {:induction false} ReadFieldsOfJoin(values: seq<Str>, tail: Bytes)
    ensures ReadFields(JoinFrameBytes(values) + tail, |values|) == Some((Encoded(values), tail))
  {
    if values == [] {
      JoinEmpty(tail);
    } else {
      var after := JoinFrameBytes(values[1..]) + tail;
      ReadFieldsOfJoin(values[1..], tail);
      ReadFieldsStep(values[0], |values| - 1, after);
      JoinAssoc(FrameBytes(values[0]), JoinFrameBytes(values[1..]), tail);
      EncodedCons(values);
    }
  }

  /** Framing is decodable: the 20 byte fields come back, and nothing is left. */
  lemma FramingDecodes(e: ChainEntry)
    ensures ReadFields(HashInput(e), 20) == Some((Encoded(FieldTexts(e)), []))
  {
    var values := FieldTexts(e);
    JoinEncodes(values);
    ReadFieldsOfJoin(values, []);
    assert JoinFrameBytes(values) + [] == HashInput(e);
  }

  // ---------------------------------------------------------------------
  // What the hash covers
  // ---------------------------------------------------------------------

  predicate SameText(a: Str, b: Str) { Utf8(a) == Utf8(b) }

  /** The two rows agree on all 20 hashed fields, null read as "". */
  predicate SameHashedFields(a: ChainEntry, b: ChainEntry) {
    && SameText(a.epochId, b.epochId) && a.sequenceNum == b.sequenceNum
    && SameText(a.prevHash, b.prevHash) && SameText(a.id, b.id)
    && SameText(a.timestamp, b.timestamp) && SameText(a.userId, b.userId)
    && SameText(a.agentId, b.agentId) && SameText(a.sessionId, b.sessionId)
    && SameText(a.origin, b.origin) && SameText(a.service, b.service)
    && SameText(a.verb, b.verb) && SameText(a.noun, b.noun)
    && SameText(a.toolName, b.toolName)
    && SameText(a.parametersMetadata, b.parametersMetadata)
    && SameText(a.decision, b.decision) && SameText(a.outcome, b.outcome)
    && SameOptional(a.errorMessage, b.errorMessage)
    && SameOptional(a.decisionEntryId, b.decisionEntryId)
    && a.latencyMs == b.latencyMs
    && SameOptional(a.costUsd, b.costUsd)
  }

  /** Equal texts, or one is absent and the other absent or empty. */
  predicate SameOptional(a: Option<Str>, b: Option<Str>) {
    if a == None then b == None || b.value == []
    else if b == None then a.value == []
    else SameText(a.value, b.value)
  }

  lemma SameOptionalTexts(a: Option<Str>, b: Option<Str>)
    ensures SameText(OrEmpty(a), OrEmpty(b)) <==> SameOptional(a, b)
  {
    EmptyHasNoBytes(OrEmpty(a));
    EmptyHasNoBytes(OrEmpty(b));
  }

  lemma EmptyHasNoBytes(s: Str)
    ensures Utf8(s) == [] <==> s == []
  {
  }

  lemma {:induction false} IntegerTextInjective(m: int, n: int)
    ensures IsAscii(IntegerText(m))
    ensures IntegerText(m) == IntegerText(n) <==> m == n
  {
    if IntegerText(m) == IntegerText(n) {
      assert (m < 0) == (IntegerText(m)[0] == MINUS);
      assert (n < 0) == (IntegerText(n)[0] == MINUS);
      var p, q := if m < 0 then -m else m, if n < 0 then -n else n;
      assert Decimal(p) == Decimal(q) by {
        assert m < 0 ==> Decimal(p) == IntegerText(m)[1..] && Decimal(q) == IntegerText(n)[1..];
      }
      ReadLengthOfDecimal(p, [COLON]);
      ReadLengthOfDecimal(q, [COLON]);
    }
  }

  lemma {:induction false} JoinDependsOnBytes(v: seq<Str>, w: seq<Str>)
    requires Encoded(v) == Encoded(w)
    ensures JoinFrameBytes(v) == JoinFrameBytes(w)
  {
    assert |v| == |Encoded(v)| == |w|;
    if v != [] {
      assert Encoded(v)[0] == Encoded(w)[0];
      assert Encoded(v[1..]) == Encoded(v)[1..] == Encoded(w)[1..] == Encoded(w[1..]);
      JoinDependsOnBytes(v[1..], w[1..]);
    }
  }

  lemma SameIntegerText(m: int, n: int)
    ensures SameText(IntegerText(m), IntegerText(n)) <==> m == n
  {
    IntegerTextInjective(m, n);
    IntegerTextInjective(n, m);
    Utf8OfAscii(IntegerText(m));
    Utf8OfAscii(IntegerText(n));
  }

  lemma SameEncodings(v: seq<Str>, w: seq<Str>)
    requires |v| == |w|
    ensures Encoded(v) == Encoded(w) <==> forall i :: 0 <= i < |v| ==> SameText(v[i], w[i])
  {
    if Encoded(v) == Encoded(w) {
      forall i | 0 <= i < |v| ensures SameText(v[i], w[i]) {
        assert Encoded(v)[i] == Encoded(w)[i];
      }
    }
  }

  predicate SameFive(v: seq<Str>, w: seq<Str>, k: nat)
    requires |v| == |w| && k + 5 <= |v|
  {
    && SameText(v[k], w[k]) && SameText(v[k + 1], w[k + 1]) && SameText(v[k + 2], w[k + 2])
    && SameText(v[k + 3], w[k + 3]) && SameText(v[k + 4], w[k + 4])
  }

  predicate SameTwenty(v: seq<Str>, w: seq<Str>)
    requires |v| == |w| == 20
  {
    SameFive(v, w, 0) && SameFive(v, w, 5) && SameFive(v, w, 10) && SameFive(v, w, 15)
  }

  lemma SameFiveIffAll(v: seq<Str>, w: seq<Str>, k: nat)
    requires |v| == |w| && k + 5 <= |v|
    ensures SameFive(v, w, k) <==> forall i :: k <= i < k + 5 ==> SameText(v[i], w[i])
  {
    if SameFive(v, w, k) {
      forall i | k <= i < k + 5 ensures SameText(v[i], w[i]) {
        assert i == k || i == k + 1 || i == k + 2 || i == k + 3 || i == k + 4;
      }
    }
  }

  lemma SameTwentyIffAll(v: seq<Str>, w: seq<Str>)
    requires |v| == |w| == 20
    ensures SameTwenty(v, w) <==> Encoded(v) == Encoded(w)
  {
    SameEncodings(v, w);
    SameFiveIffAll(v, w, 0);
    SameFiveIffAll(v, w, 5);
    SameFiveIffAll(v, w, 10);
    SameFiveIffAll(v, w, 15);
  }

  lemma FieldTextsListed(e: ChainEntry)
    ensures FieldTexts(e)[0] == e.epochId && FieldTexts(e)[1] == IntegerText(e.sequenceNum)
    ensures FieldTexts(e)[2] == e.prevHash && FieldTexts(e)[3] == e.id
    ensures FieldTexts(e)[4] == e.timestamp && FieldTexts(e)[5] == e.userId
    ensures FieldTexts(e)[6] == e.agentId && FieldTexts(e)[7] == e.sessionId
    ensures FieldTexts(e)[8] == e.origin && FieldTexts(e)[9] == e.service
    ensures FieldTexts(e)[10] == e.verb && FieldTexts(e)[11] == e.noun
    ensures FieldTexts(e)[12] == e.toolName && FieldTexts(e)[13] == e.parametersMetadata
    ensures FieldTexts(e)[14] == e.decision && FieldTexts(e)[15] == e.outcome
    ensures FieldTexts(e)[16] == OrEmpty(e.errorMessage) && FieldTexts(e)[17] == OrEmpty(e.decisionEntryId)
    ensures FieldTexts(e)[18] == IntegerText(e.latencyMs) && FieldTexts(e)[19] == OrEmpty(e.costUsd)
  {
  }

  /** A nullable column's bytes: none when it is null. */
  predicate NullableBytes(b: Bytes, value: Option<Str>) {
    if value == None then b == [] else b == Utf8(value.value)
  }

  /** A number's bytes: its decimal digits, after a minus sign if it is negative. */
  predicate NumberBytes(b: Bytes, n: int) {
    if n < 0 then b != [] && b[0] == 0x2D && IsDecimal(b[1..], -n) else IsDecimal(b, n)
  }

  /** ASCII digits without a leading zero that read as this number. */
  predicate IsDecimal(b: Bytes, n: nat) {
    && b != [] && (|b| > 1 ==> b[0] != 0x30) && (forall i :: 0 <= i < |b| ==> 0x30 <= b[i] <= 0x39)
    && DecimalValue(b) == n
  }

  function DecimalValue(b: Bytes): int {
    if b == [] then 0 else 10 * DecimalValue(b[..|b| - 1]) + (b[|b| - 1] as int - 0x30)
  }

  lemma {:induction false} DecimalIsDecimal(n: nat)
    ensures IsDecimal(Decimal(n), n) && (n > 0 ==> Decimal(n)[0] != 0x30)
  {
    if n >= 10 {
      DecimalIsDecimal(n / 10);
      var front, last := Decimal(n / 10), 0x30 + n % 10;
      assert Decimal(n)[..|front|] == front && Decimal(n)[|front|] == last;
      assert forall i :: 0 <= i < |front| ==> Decimal(n)[i] == front[i];
    } else {
      assert DecimalValue([]) == 0;
      assert [0x30 + n][..0] == [];
    }
  }

  lemma NumberTextBytes(n: int)
    ensures NumberBytes(Utf8(IntegerText(n)), n)
  {
    IntegerTextInjective(n, n);
    Utf8OfAscii(IntegerText(n));
    DecimalIsDecimal(if n < 0 then -n else n);
    assert n < 0 ==> IntegerText(n)[1..] == Decimal(-n);
  }

  /** The twenty byte fields of a row, column by column, in the format's order; null as no bytes. */
  predicate AreColumns(f: seq<Bytes>, e: ChainEntry) {
    && |f| == 20
    && f[0] == Utf8(e.epochId) && NumberBytes(f[1], e.sequenceNum) && f[2] == Utf8(e.prevHash) && f[3] == Utf8(e.id)
    && f[4] == Utf8(e.timestamp) && f[5] == Utf8(e.userId) && f[6] == Utf8(e.agentId) && f[7] == Utf8(e.sessionId)
    && f[8] == Utf8(e.origin) && f[9] == Utf8(e.service) && f[10] == Utf8(e.verb) && f[11] == Utf8(e.noun)
    && f[12] == Utf8(e.toolName) && f[13] == Utf8(e.parametersMetadata) && f[14] == Utf8(e.decision)
    && f[15] == Utf8(e.outcome) && NullableBytes(f[16], e.errorMessage) && NullableBytes(f[17], e.decisionEntryId)
    && NumberBytes(f[18], e.latencyMs) && NullableBytes(f[19], e.costUsd)
  }

  lemma FieldsAreColumns(e: ChainEntry)
    ensures AreColumns(Encoded(FieldTexts(e)), e)
  {
    FieldTextsListed(e);
    NumberTextBytes(e.sequenceNum);
    NumberTextBytes(e.latencyMs);
  }

  /**
   * What is hashed, column by column: reading the framing back gives the 20
   * columns of the row in the format's order, a null one empty, and no more.
   */
  lemma HashInputIsColumns(e: ChainEntry)
    ensures ReadFields(HashInput(e), 20).Some?
    ensures ReadFields(HashInput(e), 20).value.1 == [] && AreColumns(ReadFields(HashInput(e), 20).value.0, e)
  {
    FramingDecodes(e);
    FieldsAreColumns(e);
  }

  /** The digest is printed in lower-case hexadecimal, high digit first. */
  lemma {:induction false} HexDigits(b: Bytes, i: nat)
    requires i < |b|
    ensures |Hex(b)| == 2 * |b|
    ensures Hex(b)[2 * i] == Ascii("0123456789abcdef")[b[i] / 16] && Hex(b)[2 * i + 1] == Ascii("0123456789abcdef")[b[i] % 16]
  {
    HexDigitIs(b[0] / 16);
    HexDigitIs(b[0] % 16);
    HexLength(b);
    if i > 0 {
      HexDigits(b[1..], i - 1);
    }
  }

  lemma HexDigitIs(n: int)
    requires 0 <= n < 16
    ensures HexDigit(n) == Ascii("0123456789abcdef")[n]
  {
  }

  lemma {:induction false} HexLength(b: Bytes)
    ensures |Hex(b)| == 2 * |b|
  {
    if b != [] {
      HexLength(b[1..]);
    }
  }

  lemma SameFieldsIffSameTexts(a: ChainEntry, b: ChainEntry)
    ensures SameHashedFields(a, b) <==> SameTwenty(FieldTexts(a), FieldTexts(b))
  {
    FieldTextsListed(a);
    FieldTextsListed(b);
    SameIntegerText(a.sequenceNum, b.sequenceNum);
    SameIntegerText(a.latencyMs, b.latencyMs);
    SameOptionalTexts(a.errorMessage, b.errorMessage);
    SameOptionalTexts(a.decisionEntryId, b.decisionEntryId);
    SameOptionalTexts(a.costUsd, b.costUsd);
  }

  /**
   * The hash input is injective on the 20 hashed fields, whatever digits and
   * colons their values hold.
   */
  lemma HashInputInjective(a: ChainEntry, b: ChainEntry)
    ensures HashInput(a) == HashInput(b) <==> SameHashedFields(a, b)
  {
    FramingDecodes(a);
    FramingDecodes(b);
    JoinEncodes(FieldTexts(a));
    JoinEncodes(FieldTexts(b));
    SameFieldsIffSameTexts(a, b);
    SameTwentyIffAll(FieldTexts(a), FieldTexts(b));
    if SameHashedFields(a, b) {
      JoinDependsOnBytes(FieldTexts(a), FieldTexts(b));
    }
  }

  /** A writer's conditioned row: every text field made well formed. */
  function ConditionEntry(e: ChainEntry): ChainEntry {
    e.(epochId := WellFormed(e.epochId), prevHash := WellFormed(e.prevHash), id := WellFormed(e.id),
       timestamp := WellFormed(e.timestamp), userId := WellFormed(e.userId), agentId := WellFormed(e.agentId),
       sessionId := WellFormed(e.sessionId), origin := WellFormed(e.origin), service := WellFormed(e.service),
       verb := WellFormed(e.verb), noun := WellFormed(e.noun), toolName := WellFormed(e.toolName),
       parametersMetadata := WellFormed(e.parametersMetadata), decision := WellFormed(e.decision),
       outcome := WellFormed(e.outcome), errorMessage := ConditionOption(e.errorMessage),
       decisionEntryId := ConditionOption(e.decisionEntryId), costUsd := ConditionOption(e.costUsd))
  }

  function ConditionOption(v: Option<Str>): Option<Str> {
    match v case None => None case Some(s) => Some(WellFormed(s))
  }

  /** Conditioning a row changes no digest. */
  lemma ConditioningKeepsHash(sha: Bytes -> Bytes, e: ChainEntry)
    ensures ComputeEntryHash(sha, ConditionEntry(e)) == ComputeEntryHash(sha, e)
  {
    var c := ConditionEntry(e);
    forall s: Str ensures SameText(WellFormed(s), s) {
      ConditioningKeepsBytes(s);
    }
    HashInputInjective(c, e);
  }

  lemma {:induction false} HexInjective(a: Bytes, b: Bytes)
    ensures IsAscii(Hex(a))
    ensures Hex(a) == Hex(b) <==> a == b
  {
    if a != [] {
      HexInjective(a[1..], if b == [] then [] else b[1..]);
      assert IsAscii(Hex(a));
    }
    if a != [] && b != [] {
      if Hex(a) == Hex(b) {
        assert Hex(a)[0] == Hex(b)[0] && Hex(a)[1] == Hex(b)[1];
        assert Hex(a)[2..] == Hex(a[1..]) && Hex(b)[2..] == Hex(b[1..]);
        assert a == [a[0]] + a[1..] && b == [b[0]] + b[1..];
      }
    } else if b != [] {
      assert |Hex(b)| >= 2;
    }
  }
}
