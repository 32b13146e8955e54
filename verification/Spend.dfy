/**
 * The spend check (packages/governance/src/evaluate-spend.ts), with its one
 * addition done as a double adds: rounded to the nearest representable number.
 */
module Spend {
  import opened Wrappers

  /** A JavaScript number. */
  datatype Number = NotANumber | Infinite(negative: bool) | Real(value: real)

  const TWO_53 := 0x20_0000_0000_0000
  const MAX_SAFE_INTEGER := TWO_53 - 1

  /** `Number.isSafeInteger(v) && v >= 0`. */
  predicate SafeCents(v: Number) {
    v.Real? && v.value == v.value.Floor as real && 0 <= v.value.Floor <= MAX_SAFE_INTEGER
  }

  function Cents(v: Number): nat
    requires SafeCents(v)
  {
    v.value.Floor
  }

  // ---------------------------------------------------------------------
  // Rounding
  // ---------------------------------------------------------------------

  /** A non-negative integer below 2^54 that a double holds exactly: 53 bits of significand. */
  predicate Representable(n: int) { 0 <= n <= TWO_53 || (TWO_53 < n <= 2 * TWO_53 && n % 2 == 0) }

  /** Round to nearest, ties to the even significand (section 4.3.1 of IEEE 754-2019). */
  function RoundSum(n: nat): (r: nat)
    requires n <= 2 * MAX_SAFE_INTEGER
  {
    if n <= TWO_53 || n % 2 == 0 then n
    else if (n - 1) % 4 == 0 then n - 1
    else n + 1
  }

  function Distance(a: int, b: int): nat { if a < b then b - a else a - b }

  /** An odd number's even neighbours: exactly one is a multiple of four. */
  lemma OddNeighbours(n: nat)
    requires n % 2 == 1
    ensures (n - 1) % 2 == 0 && (n + 1) % 2 == 0
    ensures (n - 1) % 4 == 0 <==> (n + 1) % 4 != 0
  {
    assert n == 4 * (n / 4) + n % 4;
  }

  /** The rounded sum is representable, no representable number is nearer, and a tie goes to the even significand. */
  lemma RoundSumIsNearest(n: nat, other: int)
    requires n <= 2 * MAX_SAFE_INTEGER
    ensures Representable(RoundSum(n))
    ensures Representable(other) ==> Distance(RoundSum(n), n) <= Distance(other, n)
    ensures Representable(other) && other != RoundSum(n) && Distance(other, n) == Distance(RoundSum(n), n) ==> RoundSum(n) % 4 == 0
  {
    if n > TWO_53 && n % 2 != 0 {
      OddNeighbours(n);
      assert Representable(other) ==> other != n;
    }
  }

  /** Whatever nearest representable number a sum rounds to, it lies on the same side of any safe integer. */
  lemma NearestKeepsComparison(n: nat, rounded: int, limit: nat)
    requires n <= 2 * MAX_SAFE_INTEGER && limit <= MAX_SAFE_INTEGER
    requires Representable(rounded) && forall other :: Representable(other) ==> Distance(rounded, n) <= Distance(other, n)
    ensures rounded > limit <==> n > limit
  {
    if n <= TWO_53 {
      assert Representable(n);
    } else {
      assert Representable(TWO_53);
    }
  }

  // ---------------------------------------------------------------------
  // The check
  // ---------------------------------------------------------------------

  datatype SpendWindow = Session | Month

  datatype SpendLimits = SpendLimits(session: Number, month: Number)

  datatype SpendTotals = SpendTotals(session: Number, month: Number)

  datatype SpendBreach = SpendBreach(window: SpendWindow, limitCents: nat, spentCents: nat)

  datatype SpendCheckResult = Within | Exceeds(breaches: seq<SpendBreach>) | Unavailable

  /** `spent + amount > limit`, the sum as a double. */
  predicate Over(spent: nat, amount: nat, limit: nat)
    requires spent <= MAX_SAFE_INTEGER && amount <= MAX_SAFE_INTEGER
  {
    RoundSum(spent + amount) > limit
  }

  predicate AllSafe(amount: Number, limits: SpendLimits, totals: SpendTotals) {
    SafeCents(amount) && SafeCents(limits.session) && SafeCents(limits.month)
    && SafeCents(totals.session) && SafeCents(totals.month)
  }

  function EvaluateSpend(amount: Number, limits: SpendLimits, totals: Option<SpendTotals>): SpendCheckResult {
    if totals.None? || !AllSafe(amount, limits, totals.value) then Unavailable
    else
      var a, spent := Cents(amount), totals.value;
      var ofSession := if Over(Cents(spent.session), a, Cents(limits.session))
        then [SpendBreach(Session, Cents(limits.session), Cents(spent.session))] else [];
      var ofMonth := if Over(Cents(spent.month), a, Cents(limits.month))
        then [SpendBreach(Month, Cents(limits.month), Cents(spent.month))] else [];
      if ofSession + ofMonth != [] then Exceeds(ofSession + ofMonth) else Within
  }

  /** Rounding never changes the comparison of a sum of safe integers with a safe limit. */
  lemma OverIsExact(spent: nat, amount: nat, limit: nat)
    requires spent <= MAX_SAFE_INTEGER && amount <= MAX_SAFE_INTEGER && limit <= MAX_SAFE_INTEGER
    ensures Over(spent, amount, limit) <==> spent + amount > limit
  {
    forall other | Representable(other) ensures Distance(RoundSum(spent + amount), spent + amount) <= Distance(other, spent + amount) {
      RoundSumIsNearest(spent + amount, other);
    }
    RoundSumIsNearest(spent + amount, 0);
    NearestKeepsComparison(spent + amount, RoundSum(spent + amount), limit);
  }

  /** The windows whose true sum passes its limit, session first. */
  function TrueBreaches(amount: nat, limits: SpendLimits, totals: SpendTotals): seq<SpendBreach>
    requires SafeCents(limits.session) && SafeCents(limits.month) && SafeCents(totals.session) && SafeCents(totals.month)
  {
    (if Cents(totals.session) + amount > Cents(limits.session)
     then [SpendBreach(Session, Cents(limits.session), Cents(totals.session))] else [])
    + if Cents(totals.month) + amount > Cents(limits.month)
      then [SpendBreach(Month, Cents(limits.month), Cents(totals.month))] else []
  }

  /**
   * The check is exact despite doubles: unavailable exactly on an unread ledger
   * or a value that is not a non-negative safe integer, and otherwise the
   * breaches are those of the true sums.
   */
  lemma SpendCheckIsExact(amount: Number, limits: SpendLimits, totals: Option<SpendTotals>)
    ensures EvaluateSpend(amount, limits, totals)
      == if totals.None? || !AllSafe(amount, limits, totals.value) then Unavailable
         else if TrueBreaches(Cents(amount), limits, totals.value) == [] then Within
         else Exceeds(TrueBreaches(Cents(amount), limits, totals.value))
  {
    if totals.Some? && AllSafe(amount, limits, totals.value) {
      OverIsExact(Cents(totals.value.session), Cents(amount), Cents(limits.session));
      OverIsExact(Cents(totals.value.month), Cents(amount), Cents(limits.month));
    }
  }

  /** A whole number of cents from zero to the largest safe integer. */
  predicate IsCents(v: Number, c: int) { v == Real(c as real) && 0 <= c <= 9007199254740991 }

  lemma SafeCentsAre(v: Number)
    ensures SafeCents(v) <==> exists c :: IsCents(v, c)
    ensures SafeCents(v) ==> IsCents(v, Cents(v))
  {
    if c :| IsCents(v, c) {
      assert (c as real).Floor == c;
    }
    if SafeCents(v) {
      assert IsCents(v, Cents(v));
    }
  }

  lemma CentsOf(c: int)
    requires 0 <= c <= 9007199254740991
    ensures SafeCents(Real(c as real)) && Cents(Real(c as real)) == c
  {
  }

  /** The check on whole cents: each window is a breach exactly when what is spent and the amount pass its limit. */
  lemma SpendCheckOnCents(a: int, sessionLimit: int, monthLimit: int, session: int, month: int)
    requires 0 <= a <= 9007199254740991 && 0 <= sessionLimit <= 9007199254740991 && 0 <= monthLimit <= 9007199254740991
    requires 0 <= session <= 9007199254740991 && 0 <= month <= 9007199254740991
    ensures var r := EvaluateSpend(Real(a as real), SpendLimits(Real(sessionLimit as real), Real(monthLimit as real)),
                                   Some(SpendTotals(Real(session as real), Real(month as real))));
      && !r.Unavailable?
      && (r == Within <==> session + a <= sessionLimit && month + a <= monthLimit)
      && (r.Exceeds? ==>
            && (SpendBreach(Session, sessionLimit, session) in r.breaches <==> session + a > sessionLimit)
            && (SpendBreach(Month, monthLimit, month) in r.breaches <==> month + a > monthLimit))
  {
    CentsOf(a);
    CentsOf(sessionLimit);
    CentsOf(monthLimit);
    CentsOf(session);
    CentsOf(month);
    SpendCheckIsExact(Real(a as real), SpendLimits(Real(sessionLimit as real), Real(monthLimit as real)),
                      Some(SpendTotals(Real(session as real), Real(month as real))));
  }

  /** Nothing is decided exactly on an unread ledger or when one of the five numbers is not whole safe cents. */
  lemma UnavailableIff(amount: Number, limits: SpendLimits, totals: Option<SpendTotals>)
    ensures EvaluateSpend(amount, limits, totals) == Unavailable <==>
      || totals == None
      || (forall c :: !IsCents(amount, c)) || (forall c :: !IsCents(limits.session, c)) || (forall c :: !IsCents(limits.month, c))
      || (forall c :: !IsCents(totals.value.session, c)) || (forall c :: !IsCents(totals.value.month, c))
  {
    SafeCentsAre(amount);
    SafeCentsAre(limits.session);
    SafeCentsAre(limits.month);
    if totals.Some? {
      SafeCentsAre(totals.value.session);
      SafeCentsAre(totals.value.month);
    }
  }

  // ---------------------------------------------------------------------
  // Runs
  // ---------------------------------------------------------------------

  function Of(n: int): Number { Real(n as real) }

  /** The ledger's totals, summed exactly. */
  datatype Ledger = Ledger(session: nat, month: nat)

  function Totals(l: Ledger): SpendTotals { SpendTotals(Of(l.session), Of(l.month)) }

  /** Commit the amount if the check says within; otherwise leave the ledger alone. */
  function Spend(limits: SpendLimits, l: Ledger, amount: Number): Ledger {
    if EvaluateSpend(amount, limits, Some(Totals(l))) != Within then l
    else Ledger(l.session + Cents(amount), l.month + Cents(amount))
  }

  function SpendAll(limits: SpendLimits, l: Ledger, amounts: seq<Number>): Ledger
    decreases |amounts|
  {
    if amounts == [] then l else SpendAll(limits, Spend(limits, l, amounts[0]), amounts[1..])
  }

  predicate WithinLimits(limits: SpendLimits, l: Ledger)
    requires SafeCents(limits.session) && SafeCents(limits.month)
  {
    l.session <= Cents(limits.session) && l.month <= Cents(limits.month)
  }

  lemma SpendKeepsLimits(limits: SpendLimits, l: Ledger, amount: Number)
    requires SafeCents(limits.session) && SafeCents(limits.month) && WithinLimits(limits, l)
    ensures WithinLimits(limits, Spend(limits, l, amount))
  {
    SpendCheckIsExact(amount, limits, Some(Totals(l)));
  }

  /** Any run of attempts under fixed limits keeps both totals within them. */
  lemma {:induction false} RunsStayWithinLimits(limits: SpendLimits, l: Ledger, amounts: seq<Number>)
    requires SafeCents(limits.session) && SafeCents(limits.month) && WithinLimits(limits, l)
    ensures WithinLimits(limits, SpendAll(limits, l, amounts))
    decreases |amounts|
  {
    if amounts != [] {
      SpendKeepsLimits(limits, l, amounts[0]);
      RunsStayWithinLimits(limits, Spend(limits, l, amounts[0]), amounts[1..]);
    }
  }
}
