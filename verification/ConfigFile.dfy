/**
 * The config file's first create and its absent-keys-only merge
 * (packages/cli/src/engine/config-file.ts), at the level of the file's text.
 */
module ConfigFile {
  import opened Sequences
  import opened Wrappers
  import opened Utf16
  import opened EnvFile

  /** The one key a plain object does not store as an own property. */
  const PROTO: Str := Ascii("__proto__")

  /** `absent[key] = value` on a plain object: assigning a string to `__proto__` stores nothing. */
  function Assign(absent: Pairs, key: Str, value: Str): Pairs {
    if key == PROTO then absent else absent + [(key, value)]
  }

  /** The variables the file does not hold yet, as the merge collects them. */
  function Absent(present: Vars, ps: Pairs): Pairs {
    if ps == [] then []
    else
      var init, last := ps[..|ps| - 1], ps[|ps| - 1];
      if last.0 in present then Absent(present, init) else Assign(Absent(present, init), last.0, last.1)
  }

  lemma {:induction false} AbsentMembers(present: Vars, ps: Pairs, p: (Str, Str))
    ensures p in Absent(present, ps) <==> p in ps && p.0 !in present && p.0 != PROTO
  {
    if ps != [] {
      AbsentMembers(present, ps[..|ps| - 1], p);
      SplitLast(ps);
    }
  }

  lemma {:induction false} AbsentDistinct(present: Vars, ps: Pairs)
    requires DistinctKeys(ps)
    ensures DistinctKeys(Absent(present, ps))
  {
    if ps != [] {
      var init, last := ps[..|ps| - 1], ps[|ps| - 1];
      AbsentDistinct(present, init);
      forall i | 0 <= i < |Absent(present, init)| ensures Absent(present, init)[i].0 != last.0 {
        AbsentMembers(present, init, Absent(present, init)[i]);
      }
    }
  }

  predicate EndsLine(text: Str) { text == [] || text[|text| - 1] == LF }

  function Appended(text: Str, absent: Pairs): Str
    requires DistinctKeys(absent)
  {
    if absent == [] then text else (if EndsLine(text) then text else text + [LF]) + Serialize(absent)
  }

  /** The file's text after the merge, or the parse error that stopped it. */
  function Merge(text: Str, ps: Pairs): Result<Str, ConfigFileError>
    requires DistinctKeys(ps)
  {
    match Parse(text, false)
    case Err(e) => Err(e)
    case Ok(present) =>
      AbsentDistinct(present, ps);
      Ok(Appended(text, Absent(present, ps)))
  }

  datatype MergeError = Missing | Malformed(error: ConfigFileError)

  class ConfigFile {
    var text: Option<Str>

    constructor ()
      ensures text == None
    {
      text := None;
    }

    /** Nothing only for an absent file; a malformed one is an error. */
    method ReadConfigFile() returns (r: Result<Option<Vars>, ConfigFileError>)
      ensures match text
        case None => r == Ok(None)
        case Some(t) => if Parse(t, false).Ok? then r == Ok(Some(Parse(t, false).value)) else r == Err(Parse(t, false).error)
    {
      if text.None? {
        return Ok(None);
      }
      var vars := ParseEnvFile(text.value, false);
      r := if vars.Ok? then Ok(Some(vars.value)) else Err(vars.error);
    }

    /** The exclusive create. */
    method CreateConfigFile(ps: Pairs) returns (created: bool)
      requires DistinctKeys(ps)
      modifies this
      ensures created <==> old(text).None?
      ensures text == if created then Some(Serialize(ps)) else old(text)
    {
      created := text.None?;
      if created {
        text := Some(Serialize(ps));
      }
    }

    /** `mergeAbsentKeys`: the rename replaces the whole file. */
    method MergeAbsentKeys(ps: Pairs) returns (r: Result<(), MergeError>)
      requires DistinctKeys(ps)
      modifies this
      ensures match old(text)
        case None => r == Err(Missing) && text == None
        case Some(t) =>
          match Merge(t, ps)
          case Err(e) => r == Err(Malformed(e)) && text == old(text)
          case Ok(merged) => r == Ok(()) && text == Some(merged)
    {
      if text.None? {
        return Err(Missing);
      }
      var was := text.value;
      var present := ParseEnvFile(was, false);
      if present.Err? {
        return Err(Malformed(present.error));
      }
      var absent: Pairs := [];
      for i := 0 to |ps|
        invariant absent == Absent(present.value, ps[..i])
      {
        assert ps[..i + 1][..i] == ps[..i];
        var (key, value) := ps[i];
        if key !in present.value {
          absent := Assign(absent, key, value);
        }
      }
      assert ps[..|ps|] == ps;
      if |absent| == 0 {
        return Ok(());
      }
      AbsentDistinct(present.value, ps);
      var base := if |was| == 0 || was[|was| - 1] == LF then was else was + [LF];
      text := Some(base + Serialize(absent));
      return Ok(());
    }
  }

  // ---------------------------------------------------------------------
  // The merge is a union
  // ---------------------------------------------------------------------

  /** The variables asked for whose keys the file does not hold. */
  function Wanted(present: Vars, ps: Pairs): Vars { ToMap(ps) - present.Keys }

  lemma {:induction false} ToMapOfMember(ps: Pairs, i: nat)
    requires DistinctKeys(ps) && i < |ps|
    ensures ps[i].0 in ToMap(ps) && ToMap(ps)[ps[i].0] == ps[i].1
  {
    if i > 0 {
      ToMapOfMember(ps[1..], i - 1);
    }
  }

  lemma MapMember(ps: Pairs, key: Str, value: Str)
    requires DistinctKeys(ps)
    ensures (key, value) in ps <==> key in ToMap(ps) && ToMap(ps)[key] == value
  {
    ToMapKeys(ps, key);
    if (key, value) in ps {
      var i :| 0 <= i < |ps| && ps[i] == (key, value);
      ToMapOfMember(ps, i);
    }
    if key in ToMap(ps) {
      var i :| 0 <= i < |ps| && KeysOf(ps)[i] == key;
      ToMapOfMember(ps, i);
    }
  }

  lemma AbsentAt(present: Vars, ps: Pairs, key: Str)
    requires DistinctKeys(ps) && DistinctKeys(Absent(present, ps))
    ensures Looked(ToMap(Absent(present, ps)), key) == Looked(Wanted(present, ps) - {PROTO}, key)
  {
    var got := ToMap(Absent(present, ps));
    if key in got {
      MapMember(Absent(present, ps), key, got[key]);
      AbsentMembers(present, ps, (key, got[key]));
      MapMember(ps, key, got[key]);
    } else if key in ToMap(ps) {
      var value := ToMap(ps)[key];
      MapMember(ps, key, value);
      AbsentMembers(present, ps, (key, value));
      MapMember(Absent(present, ps), key, value);
    }
  }

  lemma SameLookups(a: Vars, b: Vars)
    requires forall key :: Looked(a, key) == Looked(b, key)
    ensures a == b
  {
    forall key ensures key in a <==> key in b {
      assert Looked(a, key) == Looked(b, key);
    }
    forall key | key in a ensures a[key] == b[key] {
      assert Looked(a, key) == Looked(b, key);
    }
  }

  /** What the merge collects: every wanted variable but one named `__proto__`. */
  lemma AbsentIsWanted(present: Vars, ps: Pairs)
    requires DistinctKeys(ps)
    ensures DistinctKeys(Absent(present, ps))
    ensures ToMap(Absent(present, ps)) == Wanted(present, ps) - {PROTO}
  {
    AbsentDistinct(present, ps);
    forall key ensures Looked(ToMap(Absent(present, ps)), key) == Looked(Wanted(present, ps) - {PROTO}, key) {
      AbsentAt(present, ps, key);
    }
    SameLookups(ToMap(Absent(present, ps)), Wanted(present, ps) - {PROTO});
  }

  /** Ending the last line changes nothing that is parsed. */
  lemma ParseOfEndedLine(front: Str, allow: bool)
    ensures Parse(front + [LF], allow) == Parse(front, allow)
  {
    EmptyLineIsSkipped(allow);
    JoinEmpty([LF]);
    SplitLinesOfJoin(front, []);
    TakeAllOfMore(Reader(allow), SplitLines(front), [[]], 1, map[]);
  }

  /** The text without its last line break, if it ends in one. */
  function Front(text: Str): Str
    requires text != []
  {
    if EndsLine(text) then text[..|text| - 1] else text
  }

  lemma FrontParses(text: Str)
    requires text != []
    ensures Parse(Front(text), false) == Parse(text, false)
    ensures (if EndsLine(text) then text else text + [LF]) == Front(text) + [LF]
  {
    if EndsLine(text) {
      SplitLast(text);
    }
    ParseOfEndedLine(Front(text), false);
  }

  lemma ParseOfNothing()
    ensures Parse([], false) == Ok(map[])
  {
    EmptyLineIsSkipped(false);
  }

  lemma GoesOnAfter(front: Str, more: Str, m: Vars) returns (n: nat)
    requires Parse(front, false) == Ok(m)
    ensures Parse((front + [LF]) + more, false) == TakeAll(ReadAll(SplitLines(more), false), n, m)
  {
    JoinAssoc(front, [LF], more);
    ParseGoesOn(Reader(false), front, more, ReadAll(SplitLines(more), false));
    return 1 + |SplitLines(front)|;
  }

  /** Parsing a text with more lines after it goes on, from the old variables, with what those say. */
  lemma MoreGoesOn(text: Str, more: Str, m: Vars) returns (n: nat)
    requires text != [] && Parse(text, false) == Ok(m)
    ensures Parse((if EndsLine(text) then text else text + [LF]) + more, false)
         == TakeAll(ReadAll(SplitLines(more), false), n, m)
  {
    FrontParses(text);
    n := GoesOnAfter(Front(text), more, m);
  }

  lemma AppendedGoesOn(text: Str, absent: Pairs, m: Vars) returns (n: nat)
    requires Parse(text, false) == Ok(m) && DistinctKeys(absent) && absent != []
    ensures Parse(Appended(text, absent), false) == TakeAll(ReadAll(SplitLines(Serialize(absent)), false), n, m)
  {
    var more := Serialize(absent);
    if text == [] {
      ParseOfNothing();
      JoinEmpty(more);
      return 1;
    }
    n := MoreGoesOn(text, more, m);
  }

  /** Parsing the text with line-free bindings appended goes on with what is said of each. */
  lemma AppendedParse(text: Str, absent: Pairs, m: Vars) returns (n: nat)
    requires Parse(text, false) == Ok(m) && DistinctKeys(absent) && absent != []
    requires AllKeysLegal(ToMap(absent), false) && AllLineFree(ToMap(absent))
    ensures Parse(Appended(text, absent), false) == TakeAll(SaidOfPairs(absent), n, m)
  {
    n := AppendedGoesOn(text, absent, m);
    SerializedIsSaid(absent, false);
  }

  /** Appending legal, line-free bindings to a parsed text: their values come through exactly when all are printable. */
  lemma AppendedParsesIff(text: Str, absent: Pairs)
    requires Parse(text, false).Ok? && DistinctKeys(absent) && absent != []
    requires AllKeysLegal(ToMap(absent), false) && AllLineFree(ToMap(absent))
    ensures Parse(Appended(text, absent), false) == Ok(Parse(text, false).value + ToMap(absent))
       <==> AllValuesPrintable(ToMap(absent))
  {
    var n := AppendedParse(text, absent, Parse(text, false).value);
    TakeAllOfPairs(absent, n, Parse(text, false).value);
  }

  /** Nothing to add: then nothing was wanted but, perhaps, `__proto__`. */
  lemma NothingAdded(present: Vars, wanted: Vars)
    requires wanted - {PROTO} == map[] && wanted.Keys !! present.Keys
    ensures present == present + wanted <==> AllValuesPrintable(wanted) && PROTO !in wanted
  {
    forall k | k in wanted ensures k == PROTO {
      assert k != PROTO ==> k in wanted - {PROTO};
    }
    if PROTO in wanted {
      assert PROTO in present + wanted && PROTO !in present;
    }
  }

  /** Something is added: all that was wanted comes through when `__proto__` was not. */
  lemma SomethingAdded(parsed: Result<Vars, ConfigFileError>, present: Vars, added: Vars, wanted: Vars)
    requires added == wanted - {PROTO} && wanted.Keys !! present.Keys
    requires parsed == Ok(present + added) <==> AllValuesPrintable(added)
    requires parsed.Ok? && PROTO !in present ==> PROTO !in parsed.value
    ensures parsed == Ok(present + wanted) <==> AllValuesPrintable(wanted) && PROTO !in wanted
  {
    if PROTO in wanted {
      assert PROTO in present + wanted && PROTO !in present;
    } else {
      assert added == wanted;
    }
  }

  lemma LegalMergeIsUnionIff(text: Str, ps: Pairs)
    requires Parse(text, false).Ok? && DistinctKeys(ps)
    requires AllKeysLegal(Wanted(Parse(text, false).value, ps), false)
    ensures var present := Parse(text, false).value;
      Parse(Merge(text, ps).value, false) == Ok(present + Wanted(present, ps))
      <==> AllValuesPrintable(Wanted(present, ps)) && PROTO !in Wanted(present, ps)
  {
    var present := Parse(text, false).value;
    var wanted, absent := Wanted(present, ps), Absent(present, ps);
    AbsentIsWanted(present, ps);
    if !AllLineFree(wanted) {
      var k :| k in wanted && !LineFree(wanted[k]);
      assert (present + wanted)[k] == wanted[k];
      ParsedIsLineFree(Merge(text, ps).value, false);
    } else if absent == [] {
      NothingAdded(present, wanted);
    } else {
      AppendedParsesIff(text, absent);
      if PROTO !in present {
        MergeDropsProto(text, absent);
      }
      SomethingAdded(Parse(Appended(text, absent), false), present, ToMap(absent), wanted);
    }
  }

  /**
   * For every config text that parses, the merged text parses to the old
   * variables plus exactly the absent ones, none overwritten, if and only if
   * each absent key is a legal variable name other than `__proto__` and each
   * absent value is printable.
   */
  lemma MergeIsUnionIff(text: Str, ps: Pairs)
    requires Parse(text, false).Ok? && DistinctKeys(ps)
    ensures var present := Parse(text, false).value;
      Parse(Merge(text, ps).value, false) == Ok(present + Wanted(present, ps))
      <==> AllKeysLegal(Wanted(present, ps), false) && AllValuesPrintable(Wanted(present, ps)) && PROTO !in Wanted(present, ps)
  {
    var present := Parse(text, false).value;
    var wanted := Wanted(present, ps);
    if AllKeysLegal(wanted, false) {
      LegalMergeIsUnionIff(text, ps);
    } else {
      var k :| k in wanted && !LegalKey(k, false);
      ParsedKeysAreLegal(Merge(text, ps).value, false);
      assert k in present + wanted;
    }
  }

  /** A wanted `__proto__` is never written: the merge reports success and leaves the file as it is. */
  lemma ProtoIsDropped(text: Str, value: Str)
    requires Parse(text, false).Ok?
    ensures Merge(text, [(Ascii("__proto__"), value)]) == Ok(text)
  {
    var ps := [(PROTO, value)];
    assert ps[..0] == [];
    assert Absent(Parse(text, false).value, ps) == [];
  }

  /** A key that is in neither the text nor the appended bindings is not in the result. */
  lemma MergeDropsProto(text: Str, absent: Pairs)
    requires Parse(text, false).Ok? && DistinctKeys(absent) && absent != []
    requires AllKeysLegal(ToMap(absent), false) && AllLineFree(ToMap(absent))
    requires PROTO !in Parse(text, false).value && PROTO !in ToMap(absent)
    ensures Parse(Appended(text, absent), false).Ok? ==> PROTO !in Parse(Appended(text, absent), false).value
  {
    var n := AppendedParse(text, absent, Parse(text, false).value);
    WriteOrderOf(absent);
    if Parse(Appended(text, absent), false).Ok? {
      OthersKept(WriteOrder(KeysOf(absent)), ToMap(absent), n, Parse(text, false).value, PROTO);
    }
  }

  /** The old text is kept verbatim, as a prefix; with nothing to add it is the whole. */
  lemma MergeKeepsText(text: Str, ps: Pairs)
    requires Parse(text, false).Ok? && DistinctKeys(ps)
    ensures text <= Merge(text, ps).value
    ensures Wanted(Parse(text, false).value, ps) - {PROTO} == map[] ==> Merge(text, ps).value == text
  {
    var present := Parse(text, false).value;
    var absent := Absent(present, ps);
    AbsentIsWanted(present, ps);
    if absent != [] {
      assert absent[0].0 in ToMap(absent);
    }
  }

  // ---------------------------------------------------------------------
  // A second merge
  // ---------------------------------------------------------------------

  /** A line is refused, or one binds the key. */
  ghost predicate Says(said: seq<LineRead>, key: Str) {
    exists i :: 0 <= i < |said| && (said[i].Refuse? || (said[i].Bind? && said[i].key == key))
  }

  lemma SaysInJoin(a: seq<LineRead>, b: seq<LineRead>, key: Str)
    requires Says(a, key) || Says(b, key)
    ensures Says(a + b, key)
  {
    if Says(a, key) {
      var i :| 0 <= i < |a| && (a[i].Refuse? || (a[i].Bind? && a[i].key == key));
      assert (a + b)[i] == a[i];
    } else {
      var i :| 0 <= i < |b| && (b[i].Refuse? || (b[i].Bind? && b[i].key == key));
      assert (a + b)[|a| + i] == b[i];
    }
  }

  /** Once a key is bound it stays bound, and an accepted text binds every key some line of it names. */
  lemma {:induction false} TakenBinds(said: seq<LineRead>, n: nat, m: Vars, key: Str)
    requires TakeAll(said, n, m).Ok? && (key in m || Says(said, key))
    ensures key in TakeAll(said, n, m).value
    decreases |said|
  {
    if said != [] {
      if key !in m && !(said[0].Bind? && said[0].key == key) {
        var i :| 0 <= i < |said| && (said[i].Refuse? || (said[i].Bind? && said[i].key == key));
        assert said[1..][i - 1] == said[i];
      }
      match said[0]
      case Skip => TakenBinds(said[1..], n + 1, m, key);
      case Bind(k, value) => TakenBinds(said[1..], n + 1, m[k := value], key);
      case Refuse(_) =>
    }
  }

  lemma {:induction false} FirstLineOf(front: Str, s: Str)
    requires LineFree(front)
    ensures SplitLines(front + s)[0] == front + SplitLines(s)[0]
  {
    if front == [] {
      JoinEmpty(s);
      JoinEmpty(SplitLines(s)[0]);
    } else {
      assert front[0] in front && forall u :: u in front[1..] ==> u in front;
      JoinRest(front, s);
      FirstLineOf(front[1..], s);
      JoinAssoc([front[0]], front[1..], SplitLines(s)[0]);
      assert [front[0]] + front[1..] == front;
    }
  }

  /** The first line printed for a binding names its key, whatever the value holds. */
  lemma BindingSays(key: Str, value: Str)
    requires LegalKey(key, false)
    ensures Says(ReadAll(SplitLines(Line(key, value)), false), key)
  {
    KeyUnitsArePlain(key);
    var front, lines := key + [EQUALS], SplitLines(Line(key, value));
    JoinAssoc(key, [EQUALS], value);
    FirstLineOf(front, value);
    JoinAssoc(key, [EQUALS], SplitLines(value)[0]);
    ReadLineOfBinding(key, SplitLines(value)[0], false);
    MapAt(Reader(false), lines);
    assert ReadAll(lines, false)[0] == Said(key, SplitLines(value)[0]);
  }

  lemma {:induction false} RenderedSays(keys: seq<Str>, src: Vars, key: Str)
    requires forall k :: k in keys ==> k in src && LegalKey(k, false)
    requires key in keys
    ensures Says(ReadAll(SplitLines(Render(keys, src)), false), key)
  {
    var line, more := Line(keys[0], src[keys[0]]), Render(keys[1..], src);
    SplitLinesOfJoin(line, more);
    MapOfJoin(Reader(false), SplitLines(line), SplitLines(more));
    if key == keys[0] {
      BindingSays(key, src[key]);
    } else {
      RenderedSays(keys[1..], src, key);
    }
    SaysInJoin(ReadAll(SplitLines(line), false), ReadAll(SplitLines(more), false), key);
  }

  /** If the text with the bindings appended parses, every old and every appended key is bound. */
  lemma AppendedBinds(text: Str, absent: Pairs, key: Str)
    requires Parse(text, false).Ok? && DistinctKeys(absent) && absent != [] && AllKeysLegal(ToMap(absent), false)
    requires key in Parse(text, false).value || key in ToMap(absent)
    requires Parse(Appended(text, absent), false).Ok?
    ensures key in Parse(Appended(text, absent), false).value
  {
    var n := AppendedGoesOn(text, absent, Parse(text, false).value);
    WriteOrderOf(absent);
    if key in ToMap(absent) {
      RenderedSays(WriteOrder(KeysOf(absent)), ToMap(absent), key);
    }
    TakenBinds(ReadAll(SplitLines(Serialize(absent)), false), n, Parse(text, false).value, key);
  }

  /** With every wanted key but `__proto__` bound there is nothing to add. */
  lemma NothingAbsent(after: Vars, ps: Pairs)
    requires forall p :: p in ps ==> p.0 in after || p.0 == PROTO
    ensures Absent(after, ps) == []
  {
    if Absent(after, ps) != [] {
      AbsentMembers(after, ps, Absent(after, ps)[0]);
    }
  }

  lemma MergedIsThorough(text: Str, ps: Pairs, after: Vars)
    requires Parse(text, false).Ok? && DistinctKeys(ps)
    requires AllKeysLegal(Wanted(Parse(text, false).value, ps) - {PROTO}, false)
    requires Parse(Merge(text, ps).value, false) == Ok(after)
    ensures forall p :: p in ps ==> p.0 in after || p.0 == PROTO
  {
    var present := Parse(text, false).value;
    var absent := Absent(present, ps);
    AbsentIsWanted(present, ps);
    forall p | p in ps && p.0 != PROTO ensures p.0 in after {
      MapMember(ps, p.0, p.1);
      assert p.0 in present || p.0 in ToMap(absent);
      if absent != [] {
        AppendedBinds(text, absent, p.0);
      }
    }
  }

  predicate NoneRefused(said: seq<LineRead>) { forall i :: 0 <= i < |said| ==> !said[i].Refuse? }

  lemma TakenIffNoneRefused(said: seq<LineRead>, n: nat, m: Vars)
    ensures TakeAll(said, n, m).Ok? <==> NoneRefused(said)
  {
    TakeAllMeaning(said, n, m);
  }

  lemma NoneRefusedOfJoin(a: seq<LineRead>, b: seq<LineRead>)
    ensures NoneRefused(a + b) <==> NoneRefused(a) && NoneRefused(b)
  {
    var all := a + b;
    if NoneRefused(all) {
      forall i | 0 <= i < |a| ensures !a[i].Refuse? {
        assert a[i] == all[i];
      }
      forall i | 0 <= i < |b| ensures !b[i].Refuse? {
        assert b[i] == all[|a| + i];
      }
    }
  }

  /** Every line printed for the binding can be read. */
  predicate BindingReads(key: Str, value: Str) { NoneRefused(ReadAll(SplitLines(Line(key, value)), false)) }

  predicate AllRead(vars: Vars) { forall key :: key in vars ==> BindingReads(key, vars[key]) }

  lemma {:induction false} RenderedReadsIff(keys: seq<Str>, src: Vars)
    requires forall key :: key in keys ==> key in src
    ensures NoneRefused(ReadAll(SplitLines(Render(keys, src)), false))
       <==> forall key :: key in keys ==> BindingReads(key, src[key])
  {
    if keys == [] {
      EmptyLineIsSkipped(false);
    } else {
      var line, more := Line(keys[0], src[keys[0]]), Render(keys[1..], src);
      SplitLinesOfJoin(line, more);
      MapOfJoin(Reader(false), SplitLines(line), SplitLines(more));
      NoneRefusedOfJoin(ReadAll(SplitLines(line), false), ReadAll(SplitLines(more), false));
      RenderedReadsIff(keys[1..], src);
      assert forall key :: key in keys <==> key == keys[0] || key in keys[1..];
    }
  }

  lemma AppendedReadsIff(text: Str, absent: Pairs)
    requires Parse(text, false).Ok? && DistinctKeys(absent) && absent != []
    ensures Parse(Appended(text, absent), false).Ok? <==> AllRead(ToMap(absent))
  {
    var n := AppendedGoesOn(text, absent, Parse(text, false).value);
    WriteOrderOf(absent);
    RenderedReadsIff(WriteOrder(KeysOf(absent)), ToMap(absent));
    TakenIffNoneRefused(ReadAll(SplitLines(Serialize(absent)), false), n, Parse(text, false).value);
  }

  /** A value on one line reads exactly when what is left of it trimmed is not a faulty quotation. */
  lemma OneLineBindingReadsIff(key: Str, value: Str)
    requires LegalKey(key, false) && LineFree(value)
    ensures BindingReads(key, value) <==> ReadValue(Trim(TrimEnd(value))).Ok?
  {
    BindingSaid(key, value);
    OneRefused(Said(key, value));
  }

  lemma OneRefused(read: LineRead)
    ensures NoneRefused([read]) <==> !read.Refuse?
  {
    assert [read][0] == read;
  }

  lemma BindingSaid(key: Str, value: Str)
    requires LegalKey(key, false) && LineFree(value)
    ensures ReadAll(SplitLines(Line(key, value)), false) == [Said(key, value)]
  {
    KeyUnitsArePlain(key);
    OneLine(Line(key, value));
    ReadLineOfBinding(key, value, false);
    OneLineSays(Line(key, value));
  }

  lemma OneLineSays(line: Str)
    ensures ReadAll([line], false) == [ReadLine(line, false)]
  {
    MapAt(Reader(false), [line]);
  }

  /** The merged text parses exactly when every line printed for an absent variable can be read. */
  lemma MergedParsesIff(text: Str, ps: Pairs)
    requires Parse(text, false).Ok? && DistinctKeys(ps)
    ensures Parse(Merge(text, ps).value, false).Ok? <==> AllRead(Wanted(Parse(text, false).value, ps) - {PROTO})
  {
    var absent := Absent(Parse(text, false).value, ps);
    AbsentIsWanted(Parse(text, false).value, ps);
    if absent != [] {
      AppendedReadsIff(text, absent);
    }
  }

  /** Serializing something takes some text. */
  lemma AppendingGrows(text: Str, absent: Pairs)
    requires DistinctKeys(absent)
    ensures absent != [] ==> Appended(text, absent) != text
  {
    if absent != [] {
      WriteOrderOf(absent);
      ToMapKeys(absent, absent[0].0);
      assert KeysOf(absent)[0] == absent[0].0;
      assert Serialize(absent) != [];
    }
  }

  /** Once a merge of these variables changes nothing, the text binds every wanted key but `__proto__`. */
  lemma UnchangedIsThorough(merged: Str, ps: Pairs)
    requires DistinctKeys(ps) && Merge(merged, ps) == Ok(merged)
    ensures Parse(merged, false).Ok? && forall p :: p in ps && p.0 != PROTO ==> p.0 in Parse(merged, false).value
  {
    var after := Parse(merged, false).value;
    AbsentDistinct(after, ps);
    AppendingGrows(merged, Absent(after, ps));
    forall p | p in ps && p.0 != PROTO ensures p.0 in after {
      AbsentMembers(after, ps, p);
    }
  }

  lemma UnchangedIsLegal(merged: Str, ps: Pairs, present: Vars)
    requires DistinctKeys(ps) && Merge(merged, ps) == Ok(merged)
    ensures AllKeysLegal(Wanted(present, ps) - {PROTO}, false)
  {
    UnchangedIsThorough(merged, ps);
    ParsedKeysAreLegal(merged, false);
    forall k | k in Wanted(present, ps) - {PROTO} ensures LegalKey(k, false) {
      MapMember(ps, k, ToMap(ps)[k]);
      assert (k, ToMap(ps)[k]) in ps;
    }
  }

  /**
   * A second merge of the same variables changes nothing exactly when every
   * absent key is a legal variable name and every line printed for an absent
   * variable can be read, whatever values the first merge altered or dropped:
   * else the merged text no longer parses, or lacks the key again.
   */
  lemma SecondMergeChangesNothing(text: Str, ps: Pairs)
    requires Parse(text, false).Ok? && DistinctKeys(ps)
    ensures var merged, added := Merge(text, ps).value, Wanted(Parse(text, false).value, ps) - {PROTO};
      && (Merge(merged, ps) == Ok(merged) <==> AllKeysLegal(added, false) && AllRead(added))
      && (Merge(merged, ps) == Ok(merged) <==> AllKeysLegal(added, false) && Parse(merged, false).Ok?)
  {
    var present := Parse(text, false).value;
    var merged, added := Merge(text, ps).value, Wanted(present, ps) - {PROTO};
    MergedParsesIff(text, ps);
    if Merge(merged, ps) == Ok(merged) {
      UnchangedIsLegal(merged, ps, present);
    }
    if Parse(merged, false).Ok? && AllKeysLegal(added, false) {
      var after := Parse(merged, false).value;
      MergedIsThorough(text, ps, after);
      NothingAbsent(after, ps);
    }
  }
}
