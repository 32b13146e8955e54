/**
 * What the line rules of the config file amount to, form by form
 * (packages/cli/src/engine/env-file.ts): surrounding space, `export`, quotes
 * and trailing comments.
 */
module EnvLines {
  import opened Sequences
  import opened Wrappers
  import opened Utf16
  import opened EnvFile

  predicate AllSpace(s: Str) { forall i :: 0 <= i < |s| ==> IsSpace(s[i]) }

  // ---------------------------------------------------------------------
  // Trimming
  // ---------------------------------------------------------------------

  lemma {:induction false} TrimStartDrops(space: Str, s: Str)
    requires AllSpace(space)
    ensures TrimStart(space + s) == TrimStart(s)
  {
    if space == [] {
      JoinEmpty(s);
    } else {
      JoinRest(space, s);
      TrimStartDrops(space[1..], s);
    }
  }

  lemma {:induction false} TrimEndDrops(s: Str, space: Str)
    requires AllSpace(space)
    ensures TrimEnd(s + space) == TrimEnd(s)
  {
    if space == [] {
      JoinEmpty(s);
    } else {
      var all := s + space;
      assert all[|all| - 1] == space[|space| - 1] && all[..|all| - 1] == s + space[..|space| - 1];
      TrimEndDrops(s, space[..|space| - 1]);
    }
  }

  lemma {:induction false} TrimStartBefore(s: Str, more: Str)
    ensures TrimStart(s) != [] ==> TrimStart(s + more) == TrimStart(s) + more
    ensures TrimStart(s) == [] ==> TrimStart(s + more) == TrimStart(more)
  {
    if s == [] {
      JoinEmpty(more);
    } else {
      JoinRest(s, more);
      if IsSpace(s[0]) {
        TrimStartBefore(s[1..], more);
      }
    }
  }

  lemma {:induction false} AllSpaceTrims(s: Str)
    ensures TrimStart(s) == [] <==> AllSpace(s)
    ensures TrimStart(s) != [] ==> !IsSpace(TrimStart(s)[0])
  {
    if s != [] && IsSpace(s[0]) {
      AllSpaceTrims(s[1..]);
      assert AllSpace(s) <==> AllSpace(s[1..]) by {
        assert forall i :: 0 < i < |s| ==> s[i] == s[1..][i - 1];
      }
    }
  }

  lemma TrimDropsSurround(before: Str, s: Str, after: Str)
    requires AllSpace(before) && AllSpace(after)
    ensures Trim(before + (s + after)) == Trim(s)
  {
    TrimStartDrops(before, s + after);
    TrimStartBefore(s, after);
    AllSpaceTrims(after);
    TrimEndDrops(TrimStart(s), after);
  }

  /** A text that starts and ends with no space is left alone. */
  lemma TrimLeaves(s: Str)
    requires s != [] ==> !IsSpace(s[0]) && !IsSpace(s[|s| - 1])
    ensures Trim(s) == s && TrimEnd(s) == s
  {
  }

  /** The white space of the language: tab to carriage return, blank, no-break, the Unicode spaces and separators, and the byte-order mark. */
  lemma SpacesAre(u: Unit)
    ensures IsSpace(u) <==>
      u in {9, 10, 11, 12, 13, 0x20, 0xA0, 0x1680, 0x2000, 0x2001, 0x2002, 0x2003, 0x2004, 0x2005, 0x2006, 0x2007, 0x2008,
            0x2009, 0x200A, 0x2028, 0x2029, 0x202F, 0x205F, 0x3000, 0xFEFF}
  {
  }

  /** Both quotes quote, and nothing else does. */
  lemma QuotesAre(u: Unit)
    ensures IsQuote(u) <==> u == 0x22 || u == 0x27
  {
  }

  // ---------------------------------------------------------------------
  // Lines
  // ---------------------------------------------------------------------

  /** Space around a line changes nothing. */
  lemma SurroundingSpaceIsIgnored(before: Str, line: Str, after: Str, allow: bool)
    requires AllSpace(before) && AllSpace(after)
    ensures ReadLine(before + (line + after), allow) == ReadLine(line, allow)
  {
    TrimDropsSurround(before, line, after);
  }

  /** A blank line and a comment line say nothing. */
  lemma BlankAndCommentLinesAreSkipped(space: Str, note: Str, allow: bool)
    requires AllSpace(space)
    ensures ReadLine(space, allow) == Skip && ReadLine(space + ([HASH] + note), allow) == Skip
  {
    AllSpaceTrims(space);
    TrimStartDrops(space, [HASH] + note);
    JoinEmpty([HASH] + TrimEnd(note));
    JoinEmpty([HASH] + note);
    TrimEndAfter([], HASH, note);
  }

  /** A binding, its line end trimmed. */
  lemma BindingTrims(key: Str, value: Str)
    requires KeyShape(key)
    ensures Trim(Line(key, value)) == Line(key, TrimEnd(value))
  {
    KeyUnitsArePlain(key);
    TrimEndAfter(key, EQUALS, value);
    assert Line(key, value)[0] == key[0];
  }

  lemma ExportedTrims(space: Str, key: Str, value: Str)
    requires AllSpace(space) && KeyShape(key)
    ensures Trim(EXPORT + (space + Line(key, value))) == EXPORT + (space + Line(key, TrimEnd(value)))
  {
    var front := EXPORT + (space + key);
    Reassociate(EXPORT, space, key, [EQUALS] + value);
    Reassociate(EXPORT, space, key, [EQUALS] + TrimEnd(value));
    TrimEndAfter(front, EQUALS, value);
    StartKept(EXPORT, space + Line(key, value));
  }

  lemma Reassociate(a: Str, b: Str, c: Str, d: Str)
    ensures a + (b + (c + d)) == (a + (b + c)) + d
  {
    JoinAssoc(b, c, d);
    JoinAssoc(a, b + c, d);
  }

  lemma ExportedStrips(space: Str, key: Str, value: Str)
    requires AllSpace(space) && space != [] && KeyShape(key)
    ensures StripExport(EXPORT + (space + Line(key, value))) == Line(key, value)
  {
    KeyUnitsArePlain(key);
    var bare := Line(key, value);
    var line := EXPORT + (space + bare);
    assert line[..|EXPORT|] == EXPORT && line[|EXPORT|..] == space + bare && line[|EXPORT|] == space[0];
    TrimStartDrops(space, bare);
    assert bare[0] == key[0];
  }

  /** A line is read by what is left of it trimmed and stripped. */
  lemma ReadByStripped(a: Str, b: Str, allow: bool)
    requires Trim(a) != [] && Trim(a)[0] != HASH && Trim(b) != [] && Trim(b)[0] != HASH
    requires StripExport(Trim(a)) == StripExport(Trim(b))
    ensures ReadLine(a, allow) == ReadLine(b, allow)
  {
  }

  lemma Opens(front: Str, back: Str)
    requires front != [] && front[0] != HASH
    ensures front + back != [] && (front + back)[0] != HASH
  {
  }

  /** `export` and the space after it change nothing. */
  lemma ExportIsStripped(space: Str, key: Str, value: Str, allow: bool)
    requires AllSpace(space) && space != [] && LegalKey(key, allow)
    ensures ReadLine(EXPORT + (space + Line(key, value)), allow) == ReadLine(Line(key, value), allow)
  {
    KeyUnitsArePlain(key);
    BindingTrims(key, value);
    ExportedTrims(space, key, value);
    ExportedStrips(space, key, TrimEnd(value));
    StripKeepsBinding(key, TrimEnd(value));
    Opens(EXPORT, space + Line(key, TrimEnd(value)));
    Opens(key, [EQUALS] + TrimEnd(value));
    ReadByStripped(EXPORT + (space + Line(key, value)), Line(key, value), allow);
  }

  /** A variable name: letters, digits and underscores, not starting with a digit. */
  predicate IsVariableName(key: Str) {
    && key != [] && !(0x30 <= key[0] <= 0x39)
    && forall i :: 0 <= i < |key| ==>
         0x41 <= key[i] <= 0x5A || 0x61 <= key[i] <= 0x7A || 0x30 <= key[i] <= 0x39 || key[i] == 0x5F
  }

  lemma NamesAreShaped(key: Str)
    ensures KeyShape(key) <==> IsVariableName(key)
  {
    if IsVariableName(key) {
      forall i | 0 <= i < |key| ensures IsKeyUnit(key[i]) {
        assert 0x41 <= key[i] <= 0x5A || 0x61 <= key[i] <= 0x7A || 0x30 <= key[i] <= 0x39 || key[i] == 0x5F;
      }
    }
    if KeyShape(key) {
      assert IsKeyUnit(key[0]);
      forall i | 0 <= i < |key|
        ensures 0x41 <= key[i] <= 0x5A || 0x61 <= key[i] <= 0x7A || 0x30 <= key[i] <= 0x39 || key[i] == 0x5F
      {
        assert IsKeyUnit(key[i]);
      }
    }
  }

  /** The four variables that only the shell may set. */
  predicate ShellOnly(key: Str) {
    || key == Ascii("HABENULA_CONFIG") || key == Ascii("HABENULA_PERSIST_ROOT")
    || key == Ascii("HABENULA_API_URL") || key == Ascii("HABENULA_INTERNAL_MCP_URL")
  }

  lemma ShellOnlyListed(key: Str)
    ensures key in ENV_ONLY_VARIABLES <==> ShellOnly(key)
  {
    assert ENV_ONLY_VARIABLES == [ENV_ONLY_VARIABLES[0], ENV_ONLY_VARIABLES[1], ENV_ONLY_VARIABLES[2], ENV_ONLY_VARIABLES[3]];
  }

  /** A line without `=` is refused for that, unless it is blank or a comment. */
  lemma LineWithoutEquals(text: Str, allow: bool)
    requires Trim(text) != [] && Trim(text)[0] != 0x23 && 0x3D !in StripExport(Trim(text))
    ensures ReadLine(text, allow) == Refuse(NoEquals)
  {
    NotFound(StripExport(Trim(text)), EQUALS, 0);
  }

  /**
   * A line is cut at its first `=`. In front of it, trimmed, must be something,
   * a variable name, and none of the shell's own unless those are allowed, in
   * this order; what is behind it is the value.
   */
  lemma LineWithEquals(text: Str, left: Str, right: Str, allow: bool)
    requires Trim(text) != [] && Trim(text)[0] != 0x23
    requires StripExport(Trim(text)) == left + ([0x3D] + right) && 0x3D !in left
    ensures var key, value := Trim(left), ReadValue(Trim(right));
      ReadLine(text, allow) ==
        if key == [] then Refuse(EmptyKey)
        else if !IsVariableName(key) then Refuse(BadKey)
        else if ShellOnly(key) && !allow then Refuse(EnvironmentOnly)
        else if value.Err? then Refuse(value.error)
        else Bind(key, value.value)
  {
    var line := left + ([0x3D] + right);
    assert forall i :: 0 <= i < |left| ==> line[i] == left[i] && left[i] in left;
    FirstIndex(line, EQUALS, 0, |left|);
    assert line[..|left|] == left && line[|left| + 1..] == right;
    NamesAreShaped(Trim(left));
    ShellOnlyListed(Trim(left));
  }

  /** Blank lines and comments, and no others, say nothing. */
  lemma SkippedIff(text: Str, allow: bool)
    ensures ReadLine(text, allow) == Skip <==> Trim(text) == [] || Trim(text)[0] == 0x23
  {
  }

  // ---------------------------------------------------------------------
  // Values
  // ---------------------------------------------------------------------

  /**
   * A quoted value ends at its closing quote: white space and a comment may
   * follow, anything else is refused, and with no closing quote the line is.
   */
  lemma QuotedReading(quote: Unit, value: Str, tail: Str)
    requires IsQuote(quote) && quote !in value
    ensures ReadValue([quote] + value) == Err(UnterminatedQuote)
    ensures ReadValue([quote] + (value + ([quote] + tail)))
         == if Trim(tail) == [] || Trim(tail)[0] == HASH then Ok(value) else Err(TextAfterQuote)
  {
    var unclosed := [quote] + value;
    NotFound(unclosed, quote, 1);
    var raw := [quote] + (value + ([quote] + tail));
    var close := |value| + 1;
    assert forall i :: 1 <= i < close ==> raw[i] == value[i - 1] && value[i - 1] in value;
    FirstIndex(raw, quote, 1, close);
    assert raw[1..close] == value && raw[close + 1..] == tail;
  }

  lemma {:induction false} NotFound(s: Str, u: Unit, from: nat)
    requires forall i :: from <= i < |s| ==> s[i] != u
    ensures IndexOf(s, u, from) == None
    decreases |s| - from
  {
    if from < |s| {
      NotFound(s, u, from + 1);
    }
  }

  /** Any value without the quote in it survives in quotes, spaces, hashes and all. */
  lemma QuotedValueReads(key: Str, quote: Unit, value: Str, allow: bool)
    requires LegalKey(key, allow) && IsQuote(quote) && quote !in value
    ensures ReadLine(Line(key, [quote] + (value + [quote])), allow) == Bind(key, value)
  {
    var quoted := [quote] + (value + [quote]);
    ReadLineOfBinding(key, quoted, allow);
    assert quoted[0] == quote && quoted[|quoted| - 1] == quote;
    TrimLeaves(quoted);
    JoinEmpty([quote]);
    QuotedReading(quote, value, []);
  }

  lemma CommentInTail(s: Str)
    requires s != []
    ensures HasComment(s[1..]) ==> HasComment(s)
  {
    if i :| 0 < i < |s[1..]| && IsSpace(s[1..][i - 1]) && s[1..][i] == HASH {
      assert IsSpace(s[i + 1 - 1]) && s[i + 1] == HASH;
    }
  }

  lemma {:induction false} CommentSplits(value: Str, space: Unit, note: Str)
    requires !HasComment(value) && IsSpace(space) && (value != [] ==> !IsSpace(value[|value| - 1]))
    ensures SplitUnquotedComment(value + ([space] + ([HASH] + note))) == value
  {
    var all := value + ([space] + ([HASH] + note));
    if value == [] {
      assert all[0] == space && all[1] == HASH;
    } else {
      var rest := value[1..];
      assert all[0] == value[0] && all[1..] == rest + ([space] + ([HASH] + note));
      if |value| > 1 {
        assert all[1] == value[1];
        assert !(IsSpace(value[1 - 1]) && value[1] == HASH);
      }
      CommentInTail(value);
      CommentSplits(rest, space, note);
    }
  }

  lemma HashIsKept(note: Str)
    ensures SplitUnquotedComment([HASH] + note) != [] && SplitUnquotedComment([HASH] + note)[0] == HASH
    ensures ReadValue([HASH] + note) != Ok([])
  {
    var raw := [HASH] + note;
    var kept := SplitUnquotedComment(raw);
    TrimEndAfter([], HASH, kept[1..]);
    assert kept == [] + ([HASH] + kept[1..]);
  }

  /** The raw text of a commented value, its end trimmed. */
  lemma CommentedRaw(value: Str, space: Unit, note: Str)
    requires Printable(value) && IsSpace(space)
    ensures Trim(TrimEnd(value + ([space] + ([HASH] + note))))
         == if value == [] then [HASH] + TrimEnd(note) else value + ([space] + ([HASH] + TrimEnd(note)))
  {
    var front, tail := value + [space], TrimEnd(note);
    JoinAssoc(value, [space], [HASH] + note);
    JoinAssoc(value, [space], [HASH] + tail);
    TrimEndAfter(front, HASH, note);
    TrimEndAfter(front, HASH, tail);
    TrimEndTwice(note);
    if value == [] {
      EmptyCommented(space, tail);
    } else {
      PrintableEnds(value);
      StartKept(value, [space] + ([HASH] + tail));
    }
  }

  lemma EmptyCommented(space: Unit, tail: Str)
    requires IsSpace(space) && TrimEnd(tail) == tail
    ensures Trim([space] + ([HASH] + tail)) == [HASH] + tail
  {
    TrimStartDrops([space], [HASH] + tail);
    TrimEndAfter([], HASH, tail);
    JoinEmpty([HASH] + tail);
  }

  lemma StartKept(s: Str, more: Str)
    requires s != [] && !IsSpace(s[0])
    ensures TrimStart(s + more) == s + more
  {
    assert (s + more)[0] == s[0];
  }

  lemma ReadCommented(value: Str, space: Unit, note: Str)
    requires Printable(value) && IsSpace(space) && value != []
    ensures ReadValue(value + ([space] + ([HASH] + note))) == Ok(value)
  {
    PrintableEnds(value);
    CommentSplits(value, space, note);
    assert (value + ([space] + ([HASH] + note)))[0] == value[0];
  }

  /**
   * A trailing comment is dropped from a printable value exactly when the value
   * is not empty: after nothing but space, the text from `#` on is the value.
   */
  lemma CommentIsDroppedIff(key: Str, value: Str, space: Unit, note: Str, allow: bool)
    requires LegalKey(key, allow) && Printable(value) && IsSpace(space)
    ensures ReadLine(Line(key, value + ([space] + ([HASH] + note))), allow) == Bind(key, value) <==> value != []
  {
    ReadLineOfBinding(key, value + ([space] + ([HASH] + note)), allow);
    CommentedRaw(value, space, note);
    if value == [] {
      HashIsKept(TrimEnd(note));
    } else {
      ReadCommented(value, space, TrimEnd(note));
    }
  }

  lemma PrintableEnds(value: Str)
    requires Printable(value) && value != []
    ensures !IsSpace(value[0]) && !IsSpace(value[|value| - 1])
  {
  }

  lemma {:induction false} TrimEndTwice(s: Str)
    ensures TrimEnd(TrimEnd(s)) == TrimEnd(s)
  {
    if s != [] && IsSpace(s[|s| - 1]) {
      TrimEndTwice(s[..|s| - 1]);
    }
  }
}
