/**
 * `layoutField` (packages/cli/src/render/attribution.ts): a trusted prefix, an
 * untrusted value, and an optional trusted suffix, laid out so that no row
 * that shows the value is wider than the terminal or starts with it.
 */
module Layout {
  import opened Sequences
  import opened Wrappers
  import opened Wrap

  /** What a row starts with: the prefix, or the indent of a continuation row. */
  datatype Lead = Prefix | Pad

  /** Where the suffix is: nowhere on this row, after a space, or alone behind the indent. */
  datatype Tail = Bare | AfterSpace | OwnRow

  datatype Row = Row(lead: Lead, value: Text, tail: Tail)

  /** The options; `suffix` is the display width of a suffix that is not empty. */
  datatype Field = Field(prefixWidth: nat, value: Text, width: int, continuationIndent: int, suffix: Option<nat>)
  {
    function Columns(): nat { Max(1, width) }

    function PadWidth(): nat { Max(1, continuationIndent) }

    predicate PrefixOwnsRow0() { Columns() < prefixWidth + 1 }

    function Budget0(): nat { Max(1, Columns() - prefixWidth) }

    function BudgetN(): nat { Max(1, Columns() - PadWidth()) }

    function FirstBudget(): nat { if PrefixOwnsRow0() then BudgetN() else Budget0() }

    function SuffixWidth(): nat { if suffix.Some? then suffix.value else 0 }
  }

  /** Columns a row takes on the terminal. */
  function RowWidth(f: Field, row: Row): nat {
    (if row.lead.Prefix? then f.prefixWidth else f.PadWidth()) + Width(row.value)
    + match row.tail
      case Bare => 0
      case AfterSpace => 1 + f.SuffixWidth()
      case OwnRow => f.SuffixWidth()
  }

  function Pieces(f: Field): (r: seq<Text>)
    ensures r != []
  {
    BrokenRows(f.value, f.FirstBudget(), f.BudgetN())
  }

  function Continuation(piece: Text): Row { Row(Pad, piece, Bare) }

  function ValueRows(f: Field): (r: seq<Row>)
    ensures r != []
  {
    if f.PrefixOwnsRow0() then [Row(Prefix, [], Bare)] + Map(Continuation, Filter(NotEmpty, Pieces(f)))
    else [Row(Prefix, Pieces(f)[0], Bare)] + Map(Continuation, Pieces(f)[1..])
  }

  function WithSuffix(f: Field, rows: seq<Row>): seq<Row>
    requires rows != []
  {
    var last := rows[|rows| - 1];
    if f.suffix.None? then rows
    else if RowWidth(f, last) + 1 + f.SuffixWidth() <= f.Columns() then rows[|rows| - 1 := last.(tail := AfterSpace)]
    else rows + [Row(Pad, [], OwnRow)]
  }

  function FieldRows(f: Field): seq<Row> { WithSuffix(f, ValueRows(f)) }

  /** The source's own reckoning of the last row's width, from the pieces. */
  function LastRowWidth(f: Field): nat {
    var pieces := Pieces(f);
    var lastPiece := pieces[|pieces| - 1];
    if f.PrefixOwnsRow0() then (if |ValueRows(f)| == 1 then f.prefixWidth else f.PadWidth() + Width(lastPiece))
    else (if |pieces| == 1 then f.prefixWidth else f.PadWidth()) + Width(lastPiece)
  }

  /** Every piece but perhaps that of an empty value holds something. */
  lemma PiecesHold(f: Field)
    ensures f.value == [] ==> Pieces(f) == [[]] && Filter(NotEmpty, Pieces(f)) == []
    ensures f.value != [] ==> Filter(NotEmpty, Pieces(f)) == Pieces(f)
  {
    BrokenIsWellBroken(f.value, f.FirstBudget(), f.BudgetN());
    if f.value == [] {
      FilterOne(NotEmpty<Grapheme>, []);
    } else {
      FilterOfAll(NotEmpty, Pieces(f));
    }
  }

  lemma LastRowWidthIsRight(f: Field)
    ensures LastRowWidth(f) == RowWidth(f, ValueRows(f)[|ValueRows(f)| - 1])
  {
    PiecesHold(f);
    MapAt(Continuation, Filter(NotEmpty, Pieces(f)));
    MapAt(Continuation, Pieces(f)[1..]);
  }

  /** The pieces of the value, as the source cuts them. */
  method CutValue(f: Field) returns (pieces: seq<Text>)
    ensures pieces == Pieces(f)
  {
    pieces := [];
    var cur: Text := [];
    var curW := 0;
    var onFirst := !f.PrefixOwnsRow0();
    for k := 0 to |f.value|
      invariant pieces + [cur] == BrokenRows(f.value[..k], f.FirstBudget(), f.BudgetN())
      invariant curW == Width(cur)
      invariant onFirst <==> !f.PrefixOwnsRow0() && pieces == []
    {
      var g := f.value[k];
      BrokenStep(f.value, k, pieces, cur, f.FirstBudget(), f.BudgetN());
      WidthSnoc(cur, g);
      WidthSnoc([], g);
      JoinEmpty([g]);
      var limit := if onFirst then f.Budget0() else f.BudgetN();
      if curW + g.width > limit && cur != [] {
        pieces := pieces + [cur];
        cur, curW := [], 0;
        onFirst := false;
      }
      cur := cur + [g];
      curW := curW + g.width;
    }
    assert f.value[..|f.value|] == f.value;
    pieces := pieces + [cur];
  }

  /** One row for each piece that holds something. */
  method PlaceBelow(pieces: seq<Text>) returns (rows: seq<Row>)
    ensures rows == [Row(Prefix, [], Bare)] + Map(Continuation, Filter(NotEmpty, pieces))
  {
    var below: seq<Row> := [];
    for i := 0 to |pieces|
      invariant below == Map(Continuation, Filter(NotEmpty, pieces[..i]))
    {
      FilterSnoc(NotEmpty, pieces, i);
      MapSnoc(Continuation, Filter(NotEmpty, pieces[..i]), pieces[i]);
      JoinEmpty(Filter(NotEmpty, pieces[..i]));
      if pieces[i] != [] {
        below := below + [Row(Pad, pieces[i], Bare)];
      }
    }
    assert pieces[..|pieces|] == pieces;
    rows := [Row(Prefix, [], Bare)] + below;
  }

  /** The first piece beside the prefix, the others below. */
  method PlaceBeside(pieces: seq<Text>) returns (rows: seq<Row>)
    requires pieces != []
    ensures rows == [Row(Prefix, pieces[0], Bare)] + Map(Continuation, pieces[1..])
  {
    var below: seq<Row> := [];
    for i := 1 to |pieces|
      invariant below == Map(Continuation, pieces[1..i])
    {
      MapSnoc(Continuation, pieces[1..i], pieces[i]);
      assert pieces[1..i + 1] == pieces[1..i] + [pieces[i]];
      below := below + [Row(Pad, pieces[i], Bare)];
    }
    assert pieces[1..|pieces|] == pieces[1..];
    rows := [Row(Prefix, pieces[0], Bare)] + below;
  }

  /** `layoutField`. */
  method LayoutField(f: Field) returns (rows: seq<Row>)
    ensures rows == FieldRows(f)
  {
    var pieces := CutValue(f);
    if f.PrefixOwnsRow0() {
      rows := PlaceBelow(pieces);
    } else {
      rows := PlaceBeside(pieces);
    }
    var lastPiece := pieces[|pieces| - 1];
    var lastRowWidth := if f.PrefixOwnsRow0() then (if |rows| == 1 then f.prefixWidth else f.PadWidth() + Width(lastPiece))
      else (if |pieces| == 1 then f.prefixWidth else f.PadWidth()) + Width(lastPiece);
    LastRowWidthIsRight(f);
    if f.suffix.Some? {
      if lastRowWidth + 1 + f.SuffixWidth() <= f.Columns() {
        rows := rows[|rows| - 1 := rows[|rows| - 1].(tail := AfterSpace)];
      } else {
        rows := rows + [Row(Pad, [], OwnRow)];
      }
    }
  }

  // ---------------------------------------------------------------------
  // What a reader of the terminal sees
  // ---------------------------------------------------------------------

  function Values(rows: seq<Row>): seq<Text> { Map((row: Row) => row.value, rows) }

  lemma {:induction false} ValuesOfContinuations(pieces: seq<Text>)
    ensures Values(Map(Continuation, pieces)) == pieces
  {
    if pieces != [] {
      ValuesOfContinuations(pieces[1..]);
    }
  }

  lemma ValuesOfLed(lead: Lead, first: Text, pieces: seq<Text>)
    ensures Values([Row(lead, first, Bare)] + Map(Continuation, pieces)) == [first] + pieces
  {
    var rows := [Row(lead, first, Bare)] + Map(Continuation, pieces);
    ValuesOfContinuations(pieces);
    assert rows[1..] == Map(Continuation, pieces);
  }

  /** The rows before the suffix hold the value, no grapheme lost. */
  lemma ValueRowsKeepValue(f: Field)
    ensures Concat(Values(ValueRows(f))) == f.value
  {
    var pieces := Pieces(f);
    BrokenIsWellBroken(f.value, f.FirstBudget(), f.BudgetN());
    if f.PrefixOwnsRow0() {
      ValuesOfLed(Prefix, [], Filter(NotEmpty, pieces));
      ConcatOfNotEmpty(pieces);
      ConcatOfLed([], Filter(NotEmpty, pieces));
    } else {
      ValuesOfLed(Prefix, pieces[0], pieces[1..]);
      ConcatOfLed(pieces[0], pieces[1..]);
    }
  }

  lemma ConcatOfLed(first: Text, rest: seq<Text>)
    ensures Concat([first] + rest) == first + Concat(rest)
  {
    assert ([first] + rest)[1..] == rest;
  }

  lemma ValuesWithSuffix(f: Field, rows: seq<Row>)
    requires rows != []
    ensures Concat(Values(WithSuffix(f, rows))) == Concat(Values(rows))
  {
    var value := (row: Row) => row.value;
    var init, last := rows[..|rows| - 1], rows[|rows| - 1];
    SplitLast(rows);
    MapSnoc(value, init, last);
    MapSnoc(value, init, last.(tail := AfterSpace));
    MapSnoc(value, rows, Row(Pad, [], OwnRow));
    ConcatSnoc(Values(rows), []);
    JoinEmpty(Concat(Values(rows)));
    assert rows[|rows| - 1 := last.(tail := AfterSpace)] == init + [last.(tail := AfterSpace)];
  }

  /** A row before the suffix: only the first carries the prefix, and a row that shows the value fits. */
  predicate PlainRow(f: Field, row: Row, k: nat) {
    && row.tail.Bare? && (row.lead.Prefix? <==> k == 0)
    && (row.value != [] ==> RowWidth(f, row) <= f.Columns())
  }

  predicate AllPlain(f: Field, rows: seq<Row>) { forall k :: 0 <= k < |rows| ==> PlainRow(f, rows[k], k) }

  /** At least two columns for the value, beside the prefix if it shares its row, and behind the indent. */
  predicate RoomForTwo(f: Field) {
    (f.PrefixOwnsRow0() || f.prefixWidth + 2 <= f.Columns()) && f.PadWidth() + 2 <= f.Columns()
  }

  lemma ContinuationIsPlain(f: Field, piece: Text, k: nat)
    requires f.PadWidth() + 2 <= f.Columns() && Width(piece) <= f.BudgetN() && k > 0
    ensures PlainRow(f, Continuation(piece), k)
  {
  }

  /** Continuation rows of pieces that fit their budget. */
  lemma BelowIsPlain(f: Field, first: Row, pieces: seq<Text>)
    requires f.PadWidth() + 2 <= f.Columns() && PlainRow(f, first, 0)
    requires forall k :: 0 <= k < |pieces| ==> Width(pieces[k]) <= f.BudgetN()
    ensures AllPlain(f, [first] + Map(Continuation, pieces))
  {
    MapAt(Continuation, pieces);
    var rows := [first] + Map(Continuation, pieces);
    forall k | 0 <= k < |rows| ensures PlainRow(f, rows[k], k) {
      if k > 0 {
        assert rows[k] == Continuation(pieces[k - 1]);
        ContinuationIsPlain(f, pieces[k - 1], k);
      }
    }
  }

  lemma PiecesFit(f: Field)
    requires RoomForTwo(f)
    ensures forall k :: 0 <= k < |Pieces(f)| ==> Width(Pieces(f)[k]) <= LimitAt(f.FirstBudget(), f.BudgetN(), k)
  {
    BrokenIsWellBroken(f.value, f.FirstBudget(), f.BudgetN());
    forall k | 0 <= k < |Pieces(f)| ensures Width(Pieces(f)[k]) <= LimitAt(f.FirstBudget(), f.BudgetN(), k) {
      OneGraphemeFits(Pieces(f)[k], LimitAt(f.FirstBudget(), f.BudgetN(), k));
    }
  }

  lemma ValueRowsArePlain(f: Field)
    requires RoomForTwo(f)
    ensures AllPlain(f, ValueRows(f))
  {
    PiecesFit(f);
    if f.PrefixOwnsRow0() {
      PiecesHold(f);
      var first := Row(Prefix, [], Bare);
      assert PlainRow(f, first, 0);
      BelowIsPlain(f, first, Filter(NotEmpty, Pieces(f)));
      assert ValueRows(f) == [first] + Map(Continuation, Filter(NotEmpty, Pieces(f)));
    } else {
      var first := Row(Prefix, Pieces(f)[0], Bare);
      assert PlainRow(f, first, 0);
      BelowIsPlain(f, first, Pieces(f)[1..]);
      assert ValueRows(f) == [first] + Map(Continuation, Pieces(f)[1..]);
    }
  }

  /** Every row that shows any of the value fits the terminal. */
  ghost predicate ValueFits(f: Field, rows: seq<Row>) {
    forall k :: 0 <= k < |rows| && rows[k].value != [] ==> RowWidth(f, rows[k]) <= f.Columns()
  }

  ghost predicate Guarded(f: Field) { ValueFits(f, FieldRows(f)) }

  /** The suffix goes onto a row only if it fits there. */
  lemma SuffixKeepsFit(f: Field, rows: seq<Row>)
    requires rows != [] && rows[|rows| - 1].tail.Bare?
    ensures ValueFits(f, WithSuffix(f, rows)) <==> ValueFits(f, rows)
  {
    var all := WithSuffix(f, rows);
    forall k | 0 <= k < |rows| ensures all[k].value == rows[k].value
      && (RowWidth(f, all[k]) <= f.Columns() <==> RowWidth(f, rows[k]) <= f.Columns()) {
    }
    if ValueFits(f, all) {
      forall k | 0 <= k < |rows| && rows[k].value != [] ensures RowWidth(f, rows[k]) <= f.Columns() {
        assert all[k].value != [];
      }
    }
  }

  lemma ValueRowsAreBare(f: Field)
    ensures forall k :: 0 <= k < |ValueRows(f)| ==> ValueRows(f)[k].tail.Bare? && (ValueRows(f)[k].lead.Prefix? <==> k == 0)
  {
    MapAt(Continuation, Filter(NotEmpty, Pieces(f)));
    MapAt(Continuation, Pieces(f)[1..]);
  }

  lemma GuardedIffValueRowsFit(f: Field)
    ensures Guarded(f) <==> ValueFits(f, ValueRows(f))
  {
    ValueRowsAreBare(f);
    SuffixKeepsFit(f, ValueRows(f));
  }

  /**
   * At any width: the rows hold every grapheme of the value in order, only the
   * first carries the prefix, every other starts with at least one space, and
   * the suffix, if any, is on the last row only.
   */
  lemma FieldKeepsValue(f: Field)
    ensures var rows := FieldRows(f);
      && Concat(Values(rows)) == f.value
      && f.PadWidth() >= 1 && rows != [] && rows[0].lead.Prefix?
      && (forall k :: 0 < k < |rows| ==> rows[k].lead.Pad?)
      && (forall k :: 0 <= k < |rows| ==> (rows[k].tail.Bare? <==> k < |rows| - 1 || f.suffix.None?))
  {
    ValueRowsAreBare(f);
    ValueRowsKeepValue(f);
    ValuesWithSuffix(f, ValueRows(f));
  }

  lemma FirstPieceHolds(f: Field)
    requires f.value != []
    ensures Pieces(f)[0] != []
  {
    BrokenIsWellBroken(f.value, f.FirstBudget(), f.BudgetN());
  }

  lemma SuffixKeepsFirst(f: Field, rows: seq<Row>)
    requires rows != []
    ensures WithSuffix(f, rows)[0].value == rows[0].value
  {
  }

  /** A prefix as wide as the terminal has the first row to itself, and no other prefix has. */
  lemma FirstRowIsPrefixIff(f: Field)
    requires f.value != []
    ensures FieldRows(f)[0].value == [] <==> f.prefixWidth >= Max(1, f.width)
  {
    FirstPieceHolds(f);
    SuffixKeepsFirst(f, ValueRows(f));
  }

  lemma {:induction false} ShortIsOneRow(text: Text, first: nat, rest: nat)
    requires Width(text) <= first
    ensures BrokenRows(text, first, rest) == [text]
  {
    if text != [] {
      ShortIsOneRow(text[..|text| - 1], first, rest);
      SplitLast(text);
      WidthSnoc(text[..|text| - 1], text[|text| - 1]);
    }
  }

  /** `n` narrow graphemes. */
  function Narrow(n: nat): (r: Text)
    ensures |r| == n && Width(r) == n
  {
    if n == 0 then []
    else
      WidthSnoc(Narrow(n - 1), Cluster("x", 1));
      Narrow(n - 1) + [Cluster("x", 1)]
  }

  lemma NarrowThenWide(n: nat, g: Grapheme, rest: nat)
    requires n > 0 && g.width > 0
    ensures BrokenRows(Narrow(n) + [g], n, rest) == [Narrow(n), [g]]
  {
    var text := Narrow(n) + [g];
    ShortIsOneRow(Narrow(n), n, rest);
    assert text[..n] == Narrow(n);
    assert [Narrow(n)] + [[g]] == [Narrow(n), [g]];
  }

  lemma OneIsOneRow(g: Grapheme, first: nat, rest: nat)
    ensures BrokenRows([g], first, rest) == [[g]] && Width([g]) == g.width
  {
    BrokenOneMore([g], 0, first, rest);
    assert [g][..1] == [g] && [g][..0] == [];
    PutOnto([], [], g, first, rest);
    JoinEmpty([g]);
    WidthSnoc([], g);
    var none: seq<Text> := [[]];
    JoinEmpty(none);
    var one: seq<Text> := [[g]];
    JoinEmpty(one);
  }

  /** One column beside the prefix: a double-width grapheme passes the edge. */
  lemma OneColumnIsTooFew(f: Field, g: Grapheme)
    requires !f.PrefixOwnsRow0() && f.prefixWidth + 2 > f.Columns() && f.value == [g] && g.width == 2
    ensures !Guarded(f)
  {
    OneIsOneRow(g, f.FirstBudget(), f.BudgetN());
    assert ValueRows(f)[0] == Row(Prefix, [g], Bare);
    GuardedIffValueRowsFit(f);
  }

  /** The prefix on a row of its own, and too little room behind the indent. */
  lemma IndentLeavesTooLittle(f: Field, g: Grapheme)
    requires f.PrefixOwnsRow0() && f.PadWidth() + 2 > f.Columns() && f.value == [g] && g.width == 2
    ensures !Guarded(f)
  {
    OneIsOneRow(g, f.FirstBudget(), f.BudgetN());
    PiecesHold(f);
    MapAt(Continuation, [[g]]);
    assert ValueRows(f)[1] == Row(Pad, [g], Bare);
    GuardedIffValueRowsFit(f);
  }

  /** Room beside the prefix, but a spill onto a row with too little behind the indent. */
  lemma SpillPassesTheEdge(f: Field, g: Grapheme)
    requires !f.PrefixOwnsRow0() && f.PadWidth() + 2 > f.Columns() && g.width == 2 && f.value == Narrow(f.Budget0()) + [g]
    ensures !Guarded(f)
  {
    NarrowThenWide(f.Budget0(), g, f.BudgetN());
    OneIsOneRow(g, f.FirstBudget(), f.BudgetN());
    assert Pieces(f)[1..] == [[g]];
    MapAt(Continuation, [[g]]);
    assert ValueRows(f)[1] == Row(Pad, [g], Bare);
    GuardedIffValueRowsFit(f);
  }

  lemma RoomGuards(f: Field)
    requires RoomForTwo(f)
    ensures Guarded(f)
  {
    ValueRowsArePlain(f);
    GuardedIffValueRowsFit(f);
  }

  /** A value that passes the edge of a terminal with too little room. */
  function TooWide(f: Field): Text {
    var wide: Grapheme := Cluster("\U{6F22}", 2);
    if f.PrefixOwnsRow0() || f.prefixWidth + 2 > f.Columns() then [wide] else Narrow(f.Budget0()) + [wide]
  }

  lemma NoRoomFails(f: Field)
    requires !RoomForTwo(f)
    ensures !Guarded(f.(value := TooWide(f)))
  {
    var g, wide := f.(value := TooWide(f)), Cluster("\U{6F22}", 2);
    if f.PrefixOwnsRow0() {
      IndentLeavesTooLittle(g, wide);
    } else if f.prefixWidth + 2 > f.Columns() {
      OneColumnIsTooFew(g, wide);
    } else {
      SpillPassesTheEdge(g, wide);
    }
  }

  /**
   * The width guard holds of every value exactly when there is room for two
   * columns: beside the prefix if they share a row, and behind the indent.
   */
  lemma FieldIsGuarded(f: Field)
    ensures var columns, indent := Max(1, f.width), Max(1, f.continuationIndent);
      (forall v :: Guarded(f.(value := v)))
      <==> indent + 2 <= columns && (f.prefixWidth >= columns || f.prefixWidth + 2 <= columns)
  {
    if RoomForTwo(f) {
      forall v ensures Guarded(f.(value := v)) {
        RoomGuards(f.(value := v));
      }
    } else {
      NoRoomFails(f);
    }
  }

  /** A line that fits is one row: prefix, value and suffix side by side. */
  lemma FittingFieldIsOneRow(f: Field)
    requires f.prefixWidth < Max(1, f.width)
    requires f.prefixWidth + Width(f.value) + (if f.suffix.Some? then 1 + f.suffix.value else 0) <= Max(1, f.width)
    ensures FieldRows(f) == [Row(Prefix, f.value, if f.suffix.Some? then AfterSpace else Bare)]
  {
    ShortIsOneRow(f.value, f.Budget0(), f.BudgetN());
    assert Pieces(f)[1..] == [];
  }
}
