/**
 * Display-width wrapping (packages/cli/src/render/attribution.ts) over text
 * segmented into graphemes of width 0, 1 or 2. A row's graphemes are those it
 * was put together from.
 */
module Wrap {
  import opened Sequences
  import opened Wrappers

  type Columns = n: nat | n <= 2

  datatype Cluster = Cluster(text: string, width: Columns)

  const SPACE := Cluster(" ", 1)

  type Grapheme = g: Cluster | g.text != "" witness SPACE

  type Text = seq<Grapheme>

  function Width(t: Text): nat {
    if t == [] then 0 else Width(t[..|t| - 1]) + t[|t| - 1].width
  }

  function Max(a: int, b: int): int { if a < b then b else a }

  lemma {:induction false} WidthOfJoin(a: Text, b: Text)
    ensures Width(a + b) == Width(a) + Width(b)
  {
    if b == [] {
      JoinEmpty(a);
    } else {
      JoinSnoc(a, b);
      var init := a + b[..|b| - 1];
      assert (init + [b[|b| - 1]])[..|init|] == init;
      WidthOfJoin(a, b[..|b| - 1]);
    }
  }

  /** The characters of a segmented text. */
  function Chars(t: Text): string {
    if t == [] then "" else Chars(t[..|t| - 1]) + t[|t| - 1].text
  }

  lemma CharsSnoc(t: Text, g: Grapheme)
    ensures Chars(t + [g]) == Chars(t) + g.text
  {
    assert (t + [g])[..|t|] == t;
  }

  lemma CharsOfOne(g: Grapheme)
    ensures Chars([g]) == g.text
  {
    CharsSnoc([], g);
    JoinEmpty([g]);
    JoinEmpty(g.text);
  }

  lemma {:induction false} CharsOfJoin(a: Text, b: Text)
    ensures Chars(a + b) == Chars(a) + Chars(b)
  {
    if b == [] {
      JoinEmpty(a);
      JoinEmpty(Chars(a));
    } else {
      var init, g := b[..|b| - 1], b[|b| - 1];
      JoinSnoc(a, b);
      CharsSnoc(a + init, g);
      CharsOfJoin(a, init);
      JoinAssoc(Chars(a), Chars(init), g.text);
    }
  }

  lemma NoChars(t: Text)
    ensures Chars(t) == "" <==> t == []
  {
  }

  // ---------------------------------------------------------------------
  // Breaking between graphemes
  // ---------------------------------------------------------------------

  /** The columns the k-th row may take. */
  function LimitAt(first: nat, rest: nat, k: nat): nat { if k == 0 then first else rest }

  /** One more grapheme: onto the last row if it fits or that row is empty, else onto a row of its own. */
  function PutGrapheme(rows: seq<Text>, g: Grapheme, first: nat, rest: nat): (r: seq<Text>)
    requires rows != []
    ensures r != []
  {
    var last := rows[|rows| - 1];
    if last != [] && Width(last) + g.width > LimitAt(first, rest, |rows| - 1) then rows + [[g]]
    else rows[..|rows| - 1] + [last + [g]]
  }

  /** The text broken into rows, the first of `first` columns and the others of `rest`. */
  function BrokenRows(text: Text, first: nat, rest: nat): (r: seq<Text>)
    ensures r != []
  {
    if text == [] then [[]] else PutGrapheme(BrokenRows(text[..|text| - 1], first, rest), text[|text| - 1], first, rest)
  }

  lemma BrokenOneMore(text: Text, k: nat, first: nat, rest: nat)
    requires k < |text|
    ensures BrokenRows(text[..k + 1], first, rest) == PutGrapheme(BrokenRows(text[..k], first, rest), text[k], first, rest)
  {
    assert text[..k + 1][..k] == text[..k];
  }

  /** A row that fits, or one grapheme too wide for any row. */
  predicate RowFits(row: Text, limit: nat) { Width(row) <= limit || |row| == 1 }

  /** The row is full: the next grapheme would not have fitted on it. */
  predicate FullBefore(row: Text, next: Text, limit: nat) {
    row != [] && next != [] && Width(row) + next[0].width > limit
  }

  predicate WellBroken(rows: seq<Text>, text: Text, first: nat, rest: nat) {
    && Concat(rows) == text
    && (text != [] ==> forall k :: 0 <= k < |rows| ==> rows[k] != [])
    && (text == [] ==> rows == [[]])
    && AllInLimit(rows, first, rest)
    && AllFull(rows, first, rest)
  }

  predicate AllInLimit(rows: seq<Text>, first: nat, rest: nat) {
    forall k :: 0 <= k < |rows| ==> RowFits(rows[k], LimitAt(first, rest, k))
  }

  /** No row but the last could have taken the next grapheme. */
  predicate AllFull(rows: seq<Text>, first: nat, rest: nat) {
    forall k :: 0 < k < |rows| ==> FullBefore(rows[k - 1], rows[k], LimitAt(first, rest, k - 1))
  }

  lemma ConcatLast<T>(rows: seq<seq<T>>, g: T)
    requires rows != []
    ensures Concat(rows[..|rows| - 1] + [rows[|rows| - 1] + [g]]) == Concat(rows) + [g]
    ensures Concat(rows + [[g]]) == Concat(rows) + [g]
  {
    var init, last := rows[..|rows| - 1], rows[|rows| - 1];
    SplitLast(rows);
    ConcatSnoc(init, last);
    ConcatSnoc(init, last + [g]);
    ConcatSnoc(rows, [g]);
    JoinAssoc(Concat(init), last, [g]);
  }

  lemma WidthSnoc(row: Text, g: Grapheme)
    ensures Width(row + [g]) == Width(row) + g.width
  {
    assert (row + [g])[..|row|] == row;
  }

  lemma RowOpens(rows: seq<Text>, text: Text, g: Grapheme, first: nat, rest: nat)
    requires rows != [] && rows[|rows| - 1] != [] && WellBroken(rows, text, first, rest)
    requires Width(rows[|rows| - 1]) + g.width > LimitAt(first, rest, |rows| - 1)
    ensures WellBroken(rows + [[g]], text + [g], first, rest)
  {
    ConcatLast(rows, g);
    assert text != [];
  }

  lemma GrownInLimit(init: seq<Text>, last: Text, g: Grapheme, first: nat, rest: nat)
    requires AllInLimit(init + [last], first, rest)
    requires last == [] || Width(last) + g.width <= LimitAt(first, rest, |init|)
    ensures AllInLimit(init + [last + [g]], first, rest)
  {
    WidthSnoc(last, g);
    var rows, next := init + [last], init + [last + [g]];
    forall k | 0 <= k < |next| ensures RowFits(next[k], LimitAt(first, rest, k)) {
      assert k < |init| ==> next[k] == rows[k];
    }
  }

  lemma GrownFull(init: seq<Text>, last: Text, g: Grapheme, first: nat, rest: nat)
    requires AllFull(init + [last], first, rest)
    ensures AllFull(init + [last + [g]], first, rest)
  {
    var rows, next := init + [last], init + [last + [g]];
    forall k | 0 < k < |next| ensures FullBefore(next[k - 1], next[k], LimitAt(first, rest, k - 1)) {
      assert next[k - 1] == rows[k - 1] && FullBefore(rows[k - 1], rows[k], LimitAt(first, rest, k - 1));
      assert rows[k] != [] && next[k][0] == rows[k][0];
    }
  }

  lemma RowGrows(rows: seq<Text>, text: Text, g: Grapheme, first: nat, rest: nat)
    requires rows != [] && WellBroken(rows, text, first, rest)
    requires rows[|rows| - 1] == [] || Width(rows[|rows| - 1]) + g.width <= LimitAt(first, rest, |rows| - 1)
    ensures WellBroken(rows[..|rows| - 1] + [rows[|rows| - 1] + [g]], text + [g], first, rest)
  {
    var init, last := rows[..|rows| - 1], rows[|rows| - 1];
    SplitLast(rows);
    ConcatLast(rows, g);
    GrownInLimit(init, last, g, first, rest);
    GrownFull(init, last, g, first, rest);
    assert text == [] ==> init == [];
    assert text != [] ==> forall k :: 0 <= k < |init| ==> init[k] == rows[k] && rows[k] != [];
  }

  lemma PutKeepsWellBroken(rows: seq<Text>, text: Text, g: Grapheme, first: nat, rest: nat)
    requires rows != [] && WellBroken(rows, text, first, rest)
    ensures WellBroken(PutGrapheme(rows, g, first, rest), text + [g], first, rest)
  {
    var last := rows[|rows| - 1];
    if last != [] && Width(last) + g.width > LimitAt(first, rest, |rows| - 1) {
      RowOpens(rows, text, g, first, rest);
    } else {
      RowGrows(rows, text, g, first, rest);
    }
  }

  /**
   * Breaking loses nothing, every row fits or is one over-wide grapheme, and a
   * row ends only where the next grapheme does not fit.
   */
  lemma {:induction false} BrokenIsWellBroken(text: Text, first: nat, rest: nat)
    ensures WellBroken(BrokenRows(text, first, rest), text, first, rest)
  {
    if text == [] {
      assert Concat<Grapheme>([[]]) == [] + Concat<Grapheme>([[]][1..]);
    } else {
      BrokenIsWellBroken(text[..|text| - 1], first, rest);
      PutKeepsWellBroken(BrokenRows(text[..|text| - 1], first, rest), text[..|text| - 1], text[|text| - 1], first, rest);
      SplitLast(text);
    }
  }

  /** One more grapheme, given the finished rows and the current one. */
  lemma PutOnto(rows: seq<Text>, current: Text, g: Grapheme, first: nat, rest: nat)
    ensures PutGrapheme(rows + [current], g, first, rest)
         == if current != [] && Width(current) + g.width > LimitAt(first, rest, |rows|) then rows + [current] + [[g]]
            else rows + [current + [g]]
  {
    assert (rows + [current])[..|rows|] == rows;
  }

  lemma BrokenStep(text: Text, k: nat, rows: seq<Text>, current: Text, first: nat, rest: nat)
    requires k < |text| && rows + [current] == BrokenRows(text[..k], first, rest)
    ensures BrokenRows(text[..k + 1], first, rest)
         == if current != [] && Width(current) + text[k].width > LimitAt(first, rest, |rows|) then rows + [current] + [[text[k]]]
            else rows + [current + [text[k]]]
  {
    BrokenOneMore(text, k, first, rest);
    PutOnto(rows, current, text[k], first, rest);
  }

  /** `hardWrap`. */
  method HardWrap(text: Text, limit: nat) returns (rows: seq<Text>)
    ensures rows == BrokenRows(text, limit, limit)
  {
    rows := [];
    var current: Text := [];
    var currentWidth := 0;
    for k := 0 to |text|
      invariant rows + [current] == BrokenRows(text[..k], limit, limit)
      invariant currentWidth == Width(current)
      invariant k > 0 ==> current != []
      invariant k == 0 ==> rows == []
    {
      var g := text[k];
      BrokenStep(text, k, rows, current, limit, limit);
      WidthSnoc(current, g);
      WidthSnoc([], g);
      JoinEmpty([g]);
      if currentWidth + g.width > limit && current != [] {
        rows := rows + [current];
        current := [];
        currentWidth := 0;
      }
      current := current + [g];
      currentWidth := currentWidth + g.width;
    }
    assert text[..|text|] == text;
    if current != [] || |rows| == 0 {
      rows := rows + [current];
    }
  }

  // ---------------------------------------------------------------------
  // Breaking between words
  // ---------------------------------------------------------------------

  /** `text.split(" ")`. */
  function SplitSpaces(t: string): (r: seq<string>)
    ensures r != []
  {
    if t == "" then [""]
    else
      var before, c := SplitSpaces(t[..|t| - 1]), t[|t| - 1];
      if c == ' ' then before + [""] else before[..|before| - 1] + [before[|before| - 1] + [c]]
  }

  predicate NotEmpty<T>(t: seq<T>) { |t| != 0 }

  predicate NotSpace(c: char) { c != ' ' }

  /** The words of a text: its space-separated tokens, empty ones dropped. */
  function Words(t: string): seq<string> { Filter(NotEmpty, SplitSpaces(t)) }

  function NonSpaces(t: string): string { Filter(NotSpace, t) }

  /** The segmenter cuts a string into graphemes and loses none of it. */
  ghost predicate Segments(segment: string -> Text) { forall s :: Chars(segment(s)) == s }

  /** What `wrapToWidth` keeps while it reads tokens. */
  datatype WrapState = WrapState(rows: seq<Text>, cur: Text)

  /** The finished rows, and the current one if it holds anything. */
  function Flushed(st: WrapState): seq<Text> { if st.cur != [] then st.rows + [st.cur] else st.rows }

  function AddToken(st: WrapState, token: Text, limit: nat): WrapState {
    if token == [] then st
    else if Width(token) > limit then
      var pieces := BrokenRows(token, limit, limit);
      WrapState(Flushed(st) + pieces[..|pieces| - 1], pieces[|pieces| - 1])
    else if st.cur == [] then WrapState(st.rows, token)
    else if Width(st.cur) + 1 + Width(token) > limit then WrapState(st.rows + [st.cur], token)
    else WrapState(st.rows, st.cur + ([SPACE] + token))
  }

  function AddTokens(tokens: seq<Text>, limit: nat): WrapState {
    if tokens == [] then WrapState([], [])
    else AddToken(AddTokens(tokens[..|tokens| - 1], limit), tokens[|tokens| - 1], limit)
  }

  /** The rows at the end: what is flushed, or one empty row. */
  function Ended(st: WrapState): seq<Text> {
    if st.cur != [] || st.rows == [] then st.rows + [st.cur] else st.rows
  }

  /** The tokens of the text, segmented one by one. */
  function Tokens(segment: string -> Text, text: string): seq<Text> { Map(segment, SplitSpaces(text)) }

  function WrappedRows(segment: string -> Text, text: string, width: int): (r: seq<Text>)
    ensures r != []
  {
    Ended(AddTokens(Tokens(segment, text), Max(1, width)))
  }

  lemma CutState(st: WrapState, token: Text, limit: nat, pieces: seq<Text>)
    requires token != [] && Width(token) > limit && pieces != [] && pieces == BrokenRows(token, limit, limit)
    ensures AddToken(st, token, limit) == WrapState(Flushed(st) + pieces[..|pieces| - 1], pieces[|pieces| - 1])
  {
  }

  /** A token wider than a row: finish the current row, cut the token, and go on with its last piece. */
  method TakeLongToken(rows: seq<Text>, cur: Text, token: Text, limit: nat) returns (next: seq<Text>, last: Text)
    requires token != [] && Width(token) > limit
    ensures WrapState(next, last) == AddToken(WrapState(rows, cur), token, limit)
  {
    CutState(WrapState(rows, cur), token, limit, BrokenRows(token, limit, limit));
    next := rows;
    if cur != [] {
      next := next + [cur];
    }
    ghost var flushed := next;
    var pieces := HardWrap(token, limit);
    for i := 0 to |pieces| - 1
      invariant next == flushed + pieces[..i]
    {
      assert pieces[..i + 1] == pieces[..i] + [pieces[i]];
      next := next + [pieces[i]];
    }
    last := pieces[|pieces| - 1];
  }

  /** A token that fits a row: onto the current one after a space, or onto a new one. */
  method TakeShortToken(rows: seq<Text>, cur: Text, curW: nat, token: Text, limit: nat) returns (next: seq<Text>,
                        last: Text, lastW: nat)
    requires token != [] && Width(token) <= limit && curW == Width(cur)
    ensures WrapState(next, last) == AddToken(WrapState(rows, cur), token, limit) && lastW == Width(last)
  {
    var tokW := Width(token);
    next, last, lastW := rows, cur, curW;
    var sep := if last == [] then 0 else 1;
    if last != [] && lastW + sep + tokW > limit {
      next := next + [last];
      last, lastW := [], 0;
    }
    if last == [] {
      last, lastW := token, tokW;
    } else {
      WidthAfterSpace(last, token);
      last := last + ([SPACE] + token);
      lastW := lastW + 1 + tokW;
    }
  }

  lemma WidthAfterSpace(a: Text, b: Text)
    ensures Width(a + ([SPACE] + b)) == Width(a) + 1 + Width(b)
  {
    WidthOfJoin(a, [SPACE] + b);
    WidthOfJoin([SPACE], b);
    WidthSnoc([], SPACE);
    JoinEmpty([SPACE]);
  }

  lemma TokensOneMore(tokens: seq<Text>, k: nat, limit: nat)
    requires k < |tokens|
    ensures AddTokens(tokens[..k + 1], limit) == AddToken(AddTokens(tokens[..k], limit), tokens[k], limit)
  {
    assert tokens[..k + 1][..k] == tokens[..k];
  }

  /** `wrapToWidth`. */
  method WrapToWidth(segment: string -> Text, text: string, width: int) returns (rows: seq<Text>)
    requires Segments(segment)
    ensures rows == WrappedRows(segment, text, width)
  {
    var limit := if width < 1 then 1 else width;
    rows := [];
    var cur: Text := [];
    var curW := 0;
    var split := SplitSpaces(text);
    ghost var tokens := Tokens(segment, text);
    MapAt(segment, split);
    for k := 0 to |split|
      invariant WrapState(rows, cur) == AddTokens(tokens[..k], limit)
      invariant curW == Width(cur)
    {
      TokensOneMore(tokens, k, limit);
      var token := segment(split[k]);
      NoChars(token);
      if split[k] != "" {
        if Width(token) > limit {
          rows, cur := TakeLongToken(rows, cur, token, limit);
          curW := Width(cur);
        } else {
          rows, cur, curW := TakeShortToken(rows, cur, curW, token, limit);
        }
      }
    }
    assert tokens[..|tokens|] == tokens;
    if cur != [] || |rows| == 0 {
      rows := rows + [cur];
    }
  }

  // Tokens and words

  predicate SpaceFree(t: string) { ' ' !in t }

  lemma {:induction false} TokensAreSpaceFree(t: string)
    ensures forall i :: 0 <= i < |SplitSpaces(t)| ==> SpaceFree(SplitSpaces(t)[i])
  {
    if t != "" {
      TokensAreSpaceFree(t[..|t| - 1]);
    }
  }

  lemma {:induction false} ConcatOfNotEmpty<T>(rows: seq<seq<T>>)
    ensures Concat(Filter(NotEmpty, rows)) == Concat(rows)
  {
    if rows != [] {
      ConcatOfNotEmpty(rows[1..]);
      if rows[0] == [] {
        JoinEmpty(Concat(rows[1..]));
        JoinEmpty(Filter(NotEmpty, rows[1..]));
      } else {
        assert ([rows[0]] + Filter(NotEmpty, rows[1..]))[1..] == Filter(NotEmpty, rows[1..]);
      }
    }
  }

  /** The tokens, end to end, are the text without its spaces. */
  lemma {:induction false} TokensKeepChars(t: string)
    ensures Concat(SplitSpaces(t)) == NonSpaces(t)
  {
    if t == "" {
      assert Concat<char>([""]) == "" + Concat<char>([""][1..]);
    } else {
      var init, c := t[..|t| - 1], t[|t| - 1];
      TokensKeepChars(init);
      SplitLast(t);
      FilterOfJoin(NotSpace, init, [c]);
      FilterOne(NotSpace, c);
      ConcatLast(SplitSpaces(init), c);
      ConcatSnoc(SplitSpaces(init), "");
      JoinEmpty(Concat(SplitSpaces(init)));
    }
  }

  /** The words, end to end, are the text without its spaces. */
  lemma WordsKeepChars(t: string)
    ensures Concat(Words(t)) == NonSpaces(t)
  {
    TokensKeepChars(t);
    ConcatOfNotEmpty(SplitSpaces(t));
  }

  lemma {:induction false} SplitOfSpaceFree(t: string)
    requires SpaceFree(t)
    ensures SplitSpaces(t) == [t]
  {
    if t != "" {
      SplitLast(t);
      assert t[|t| - 1] in t && forall c :: c in t[..|t| - 1] ==> c in t;
      SplitOfSpaceFree(t[..|t| - 1]);
    }
  }

  lemma {:induction false} SplitAtSpace(a: string, b: string)
    requires SpaceFree(b)
    ensures SplitSpaces(a + (" " + b)) == SplitSpaces(a) + [b]
  {
    var all := a + (" " + b);
    if b == "" {
      assert all[..|all| - 1] == a && all[|all| - 1] == ' ';
    } else {
      var init, c := b[..|b| - 1], b[|b| - 1];
      assert c in b && forall d :: d in init ==> d in b;
      SplitAtSpace(a, init);
      assert all[..|all| - 1] == a + (" " + init) && all[|all| - 1] == c;
      SplitLast(b);
      var tokens := SplitSpaces(a) + [init];
      assert tokens[..|tokens| - 1] == SplitSpaces(a) && tokens[|tokens| - 1] == init;
    }
  }

  lemma WordsOfWord(t: string)
    requires SpaceFree(t)
    ensures Words(t) == Filter(NotEmpty, [t])
    ensures t != "" ==> Words(t) == [t]
  {
    SplitOfSpaceFree(t);
    FilterOne(NotEmpty, t);
  }

  lemma WordsOfOneMore(a: string, b: string)
    requires SpaceFree(b) && b != ""
    ensures Words(a + (" " + b)) == Words(a) + [b]
  {
    SplitAtSpace(a, b);
    FilterOfJoin(NotEmpty, SplitSpaces(a), [b]);
    FilterOne(NotEmpty, b);
  }

  /** The words of the rows as they are shown, row after row. */
  function WordsOfRows(rows: seq<Text>): seq<string> {
    if rows == [] then [] else WordsOfRows(rows[..|rows| - 1]) + Words(Chars(rows[|rows| - 1]))
  }

  lemma WordsOfRowsSnoc(rows: seq<Text>, row: Text)
    ensures WordsOfRows(rows + [row]) == WordsOfRows(rows) + Words(Chars(row))
  {
    assert (rows + [row])[..|rows|] == rows;
  }

  /** A token as it is laid out: whole if it fits, else in pieces. */
  function Laid(token: Text, limit: nat): seq<string> {
    if token == [] then []
    else if Width(token) > limit then Map(Chars, BrokenRows(token, limit, limit))
    else [Chars(token)]
  }

  function LaidAll(tokens: seq<Text>, limit: nat): seq<string> {
    if tokens == [] then [] else LaidAll(tokens[..|tokens| - 1], limit) + Laid(tokens[|tokens| - 1], limit)
  }

  predicate Word(t: Text) { t != [] && SpaceFree(Chars(t)) }

  predicate AllWords(rows: seq<Text>) { forall k :: 0 <= k < |rows| ==> Word(rows[k]) }

  lemma {:induction false} WordsOfWords(rows: seq<Text>, more: seq<Text>)
    requires AllWords(more)
    ensures WordsOfRows(rows + more) == WordsOfRows(rows) + Map(Chars, more)
  {
    if more == [] {
      JoinEmpty(rows);
      JoinEmpty(WordsOfRows(rows));
    } else {
      var init, last := more[..|more| - 1], more[|more| - 1];
      WordsOfWords(rows, init);
      JoinSnoc(rows, more);
      WordsOfRowsSnoc(rows + init, last);
      NoChars(last);
      WordsOfWord(Chars(last));
      SplitLast(more);
      MapSnoc(Chars, init, last);
      JoinAssoc(WordsOfRows(rows), Map(Chars, init), [Chars(last)]);
    }
  }

  lemma PartsOfSpaceFree(a: string, b: string)
    requires SpaceFree(a + b)
    ensures SpaceFree(a) && SpaceFree(b)
  {
    assert forall c :: c in a || c in b ==> c in a + b;
  }

  lemma {:induction false} PartsAreSpaceFree(rows: seq<Text>)
    requires SpaceFree(Chars(Concat(rows)))
    ensures forall k :: 0 <= k < |rows| ==> SpaceFree(Chars(rows[k]))
  {
    if rows != [] {
      CharsOfJoin(rows[0], Concat(rows[1..]));
      PartsOfSpaceFree(Chars(rows[0]), Chars(Concat(rows[1..])));
      PartsAreSpaceFree(rows[1..]);
      assert forall k :: 0 < k < |rows| ==> rows[k] == rows[1..][k - 1];
    }
  }

  lemma PiecesAreWords(token: Text, limit: nat)
    requires Word(token)
    ensures AllWords(BrokenRows(token, limit, limit))
  {
    BrokenIsWellBroken(token, limit, limit);
    PartsAreSpaceFree(BrokenRows(token, limit, limit));
  }

  // What one token adds to the rows

  /** The token goes onto the current row, after a space. */
  predicate Joins(st: WrapState, token: Text, limit: nat) {
    st.cur != [] && Width(token) <= limit && Width(st.cur) + 1 + Width(token) <= limit
  }

  lemma JoinedRow(st: WrapState, token: Text, limit: nat)
    requires token != [] && Joins(st, token, limit)
    ensures Flushed(st) == st.rows + [st.cur]
    ensures Flushed(AddToken(st, token, limit)) == st.rows + [st.cur + ([SPACE] + token)]
  {
  }

  lemma OwnRow(st: WrapState, token: Text, limit: nat)
    requires token != [] && Width(token) <= limit && !Joins(st, token, limit)
    ensures Flushed(AddToken(st, token, limit)) == Flushed(st) + [token]
  {
  }

  lemma CutToken(st: WrapState, token: Text, limit: nat)
    requires token != [] && Width(token) > limit
    ensures Flushed(AddToken(st, token, limit)) == Flushed(st) + BrokenRows(token, limit, limit)
  {
    BrokenIsWellBroken(token, limit, limit);
    JoinSnoc(Flushed(st), BrokenRows(token, limit, limit));
  }

  lemma CharsAfterSpace(a: Text, b: Text)
    ensures Chars(a + ([SPACE] + b)) == Chars(a) + (" " + Chars(b))
  {
    CharsOfJoin(a, [SPACE] + b);
    CharsOfJoin([SPACE], b);
    CharsOfOne(SPACE);
  }

  /** The last row takes in one more word. */
  lemma LastRowGrows(rows: seq<Text>, cur: Text, longer: Text, word: string)
    requires Words(Chars(longer)) == Words(Chars(cur)) + [word]
    ensures WordsOfRows(rows + [longer]) == WordsOfRows(rows + [cur]) + [word]
  {
    WordsOfRowsSnoc(rows, cur);
    WordsOfRowsSnoc(rows, longer);
    JoinAssoc(WordsOfRows(rows), Words(Chars(cur)), [word]);
  }

  lemma JoinedWords(rows: seq<Text>, cur: Text, token: Text)
    requires Word(token)
    ensures WordsOfRows(rows + [cur + ([SPACE] + token)]) == WordsOfRows(rows + [cur]) + [Chars(token)]
  {
    NoChars(token);
    CharsAfterSpace(cur, token);
    WordsOfOneMore(Chars(cur), Chars(token));
    LastRowGrows(rows, cur, cur + ([SPACE] + token), Chars(token));
  }

  /** A token adds to the words of the rows just its own layout. */
  lemma TokenWords(st: WrapState, token: Text, limit: nat)
    requires Word(token)
    ensures WordsOfRows(Flushed(AddToken(st, token, limit))) == WordsOfRows(Flushed(st)) + Laid(token, limit)
  {
    if Width(token) > limit {
      CutToken(st, token, limit);
      PiecesAreWords(token, limit);
      WordsOfWords(Flushed(st), BrokenRows(token, limit, limit));
    } else if Joins(st, token, limit) {
      JoinedRow(st, token, limit);
      JoinedWords(st.rows, st.cur, token);
    } else {
      OwnRow(st, token, limit);
      NoChars(token);
      WordsOfWord(Chars(token));
      WordsOfRowsSnoc(Flushed(st), token);
    }
  }

  lemma {:induction false} TokensWords(tokens: seq<Text>, limit: nat)
    requires forall i :: 0 <= i < |tokens| ==> SpaceFree(Chars(tokens[i]))
    ensures WordsOfRows(Flushed(AddTokens(tokens, limit))) == LaidAll(tokens, limit)
  {
    if tokens != [] {
      var init, token := tokens[..|tokens| - 1], tokens[|tokens| - 1];
      TokensWords(init, limit);
      if token == [] {
        JoinEmpty(LaidAll(init, limit));
      } else {
        TokenWords(AddTokens(init, limit), token, limit);
      }
    }
  }

  predicate AllFit(rows: seq<Text>, limit: nat) { forall k :: 0 <= k < |rows| ==> RowFits(rows[k], limit) }

  lemma JoinFits(a: seq<Text>, b: seq<Text>, limit: nat)
    requires AllFit(a, limit) && AllFit(b, limit)
    ensures AllFit(a + b, limit)
  {
  }

  lemma FrontFits(rows: seq<Text>, row: Text, limit: nat)
    requires AllFit(rows + [row], limit)
    ensures AllFit(rows, limit)
  {
    assert forall k :: 0 <= k < |rows| ==> (rows + [row])[k] == rows[k];
  }

  lemma TokenFits(st: WrapState, token: Text, limit: nat)
    requires token != [] && AllFit(Flushed(st), limit)
    ensures AllFit(Flushed(AddToken(st, token, limit)), limit)
  {
    if Width(token) > limit {
      CutToken(st, token, limit);
      BrokenIsWellBroken(token, limit, limit);
      JoinFits(Flushed(st), BrokenRows(token, limit, limit), limit);
    } else if Joins(st, token, limit) {
      JoinedRow(st, token, limit);
      WidthAfterSpace(st.cur, token);
      FrontFits(st.rows, st.cur, limit);
      JoinFits(st.rows, [st.cur + ([SPACE] + token)], limit);
    } else {
      OwnRow(st, token, limit);
      JoinFits(Flushed(st), [token], limit);
    }
  }

  lemma {:induction false} TokensFit(tokens: seq<Text>, limit: nat)
    ensures AllFit(Flushed(AddTokens(tokens, limit)), limit)
  {
    if tokens != [] {
      var init, token := tokens[..|tokens| - 1], tokens[|tokens| - 1];
      TokensFit(init, limit);
      if token != [] {
        TokenFits(AddTokens(init, limit), token, limit);
      }
    }
  }

  // The three promises

  lemma EndedIsFlushed(st: WrapState)
    ensures Ended(st) == if st.cur == [] && st.rows == [] then [[]] else Flushed(st)
    ensures WordsOfRows(Ended(st)) == WordsOfRows(Flushed(st))
  {
    WordsOfRowsSnoc([], []);
    WordsOfWord("");
    FilterOne(NotEmpty<char>, "");
    var none: seq<Text> := [[]];
    JoinEmpty(none);
  }

  lemma TokensAreWords(segment: string -> Text, text: string)
    requires Segments(segment)
    ensures Map(Chars, Tokens(segment, text)) == SplitSpaces(text)
    ensures forall i :: 0 <= i < |Tokens(segment, text)| ==> SpaceFree(Chars(Tokens(segment, text)[i]))
  {
    MapAt(segment, SplitSpaces(text));
    MapBack(segment, Chars, SplitSpaces(text));
    TokensAreSpaceFree(text);
  }

  /**
   * The words of the rows are the words of the text in order, only a word wider
   * than a whole row being cut into pieces.
   */
  lemma WrapKeepsWords(segment: string -> Text, text: string, width: int)
    requires Segments(segment)
    ensures WordsOfRows(WrappedRows(segment, text, width)) == LaidAll(Tokens(segment, text), Max(1, width))
  {
    TokensAreWords(segment, text);
    TokensWords(Tokens(segment, text), Max(1, width));
    EndedIsFlushed(AddTokens(Tokens(segment, text), Max(1, width)));
  }

  lemma {:induction false} LaidWhole(tokens: seq<Text>, limit: nat)
    requires forall i :: 0 <= i < |tokens| ==> Width(tokens[i]) <= limit
    ensures LaidAll(tokens, limit) == Filter(NotEmpty, Map(Chars, tokens))
  {
    if tokens != [] {
      var init, token := tokens[..|tokens| - 1], tokens[|tokens| - 1];
      LaidWhole(init, limit);
      SplitLast(tokens);
      MapSnoc(Chars, init, token);
      FilterOfJoin(NotEmpty, Map(Chars, init), [Chars(token)]);
      FilterOne(NotEmpty, Chars(token));
      NoChars(token);
    }
  }

  /** If every token fits a row, the rows show exactly the words of the text. */
  lemma FittingWordsAreWhole(segment: string -> Text, text: string, width: int)
    requires Segments(segment)
    requires forall i :: 0 <= i < |Tokens(segment, text)| ==> Width(Tokens(segment, text)[i]) <= Max(1, width)
    ensures WordsOfRows(WrappedRows(segment, text, width)) == Words(text)
  {
    WrapKeepsWords(segment, text, width);
    TokensAreWords(segment, text);
    LaidWhole(Tokens(segment, text), Max(1, width));
  }

  lemma {:induction false} PiecesKeepChars(pieces: seq<Text>)
    ensures Concat(Map(Chars, pieces)) == Chars(Concat(pieces))
  {
    if pieces != [] {
      PiecesKeepChars(pieces[1..]);
      CharsOfJoin(pieces[0], Concat(pieces[1..]));
      assert ([Chars(pieces[0])] + Map(Chars, pieces[1..]))[1..] == Map(Chars, pieces[1..]);
    }
  }

  lemma LaidOneKeepsChars(token: Text, limit: nat)
    ensures Concat(Laid(token, limit)) == Chars(token)
  {
    BrokenIsWellBroken(token, limit, limit);
    PiecesKeepChars(BrokenRows(token, limit, limit));
    ConcatSnoc([], Chars(token));
    JoinEmpty([Chars(token)]);
    JoinEmpty(Chars(token));
  }

  /** Laying tokens out loses no character. */
  lemma {:induction false} LaidKeepsChars(tokens: seq<Text>, limit: nat)
    ensures Concat(LaidAll(tokens, limit)) == Concat(Map(Chars, tokens))
  {
    if tokens != [] {
      var init, token := tokens[..|tokens| - 1], tokens[|tokens| - 1];
      LaidKeepsChars(init, limit);
      ConcatOfJoin(LaidAll(init, limit), Laid(token, limit));
      LaidOneKeepsChars(token, limit);
      SplitLast(tokens);
      MapSnoc(Chars, init, token);
      ConcatSnoc(Map(Chars, init), Chars(token));
    }
  }

  lemma {:induction false} RowsKeepChars(rows: seq<Text>)
    ensures Concat(WordsOfRows(rows)) == NonSpaces(Chars(Concat(rows)))
  {
    if rows != [] {
      var init, last := rows[..|rows| - 1], rows[|rows| - 1];
      RowsKeepChars(init);
      WordsKeepChars(Chars(last));
      ConcatOfJoin(WordsOfRows(init), Words(Chars(last)));
      SplitLast(rows);
      ConcatSnoc(init, last);
      CharsOfJoin(Concat(init), last);
      FilterOfJoin(NotSpace, Chars(Concat(init)), Chars(last));
    }
  }

  /** No character but a space is lost, added or moved. */
  lemma WrapKeepsText(segment: string -> Text, text: string, width: int)
    requires Segments(segment)
    ensures NonSpaces(Chars(Concat(WrappedRows(segment, text, width)))) == NonSpaces(text)
  {
    WrapKeepsWords(segment, text, width);
    RowsKeepChars(WrappedRows(segment, text, width));
    LaidKeepsChars(Tokens(segment, text), Max(1, width));
    TokensAreWords(segment, text);
    TokensKeepChars(text);
  }

  /** In two columns or more, every row that fits or is one grapheme fits. */
  lemma OneGraphemeFits(row: Text, limit: nat)
    requires RowFits(row, limit) && limit >= 2
    ensures Width(row) <= limit
  {
    if |row| == 1 {
      WidthSnoc([], row[0]);
      assert [] + [row[0]] == row;
    }
  }

  lemma FittingRows(rows: seq<Text>, limit: nat)
    requires AllFit(rows, limit) && limit >= 2
    ensures forall k :: 0 <= k < |rows| ==> Width(rows[k]) <= limit
  {
    forall k | 0 <= k < |rows| ensures Width(rows[k]) <= limit {
      OneGraphemeFits(rows[k], limit);
    }
  }

  lemma EndedFits(st: WrapState, limit: nat)
    requires AllFit(Flushed(st), limit)
    ensures AllFit(Ended(st), limit)
  {
    EndedIsFlushed(st);
  }

  /** Every row fits, or is one grapheme wider than the whole terminal; in two columns or more every row fits. */
  lemma WrapRowsFit(segment: string -> Text, text: string, width: int)
    ensures var rows := WrappedRows(segment, text, width);
      AllFit(rows, Max(1, width)) && (width >= 2 ==> forall k :: 0 <= k < |rows| ==> Width(rows[k]) <= width)
  {
    TokensFit(Tokens(segment, text), Max(1, width));
    EndedFits(AddTokens(Tokens(segment, text), Max(1, width)), Max(1, width));
    if width >= 2 {
      FittingRows(WrappedRows(segment, text, width), width);
    }
  }
}
